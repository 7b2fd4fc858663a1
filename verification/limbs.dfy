/** Multi-precision arithmetic: chains of ADDX, SUBX and NEGX, least significant limb first,
    compute addition, subtraction and negation of the whole numbers. */
module Limbs {
  import opened Words
  import opened Alu
  import opened CpuRegisters

  /** What is left after a chain: the limbs written, and the flags X, V and Z. */
  datatype Chain = Chain(limbs: seq<Long>, extend: bool, overflow: bool, zero: bool)

  ghost predicate AreLimbs(s: seq<Long>, size: Size) {
    forall i :: 0 <= i < |s| ==> Fits(s[i], size)
  }

  /** Run one extended instruction per limb; the extend flag links the steps, the zero flag
      accumulates, and the overflow is the one of the last step. */
  function Run(subtract: bool, size: Size, src: seq<Long>, dst: seq<Long>, x: bool, v: bool, z: bool): Chain
    requires |src| == |dst|
  {
    if |src| == 0 then Chain([], x, v, z)
    else
      var s := Arithmetic(subtract, size, src[0], dst[0], x);
      var rest := Run(subtract, size, src[1..], dst[1..], s.carry, s.overflow, z && s.zero);
      rest.(limbs := [s.value] + rest.limbs)
  }

  /** The whole number, least significant limb first. */
  function Value(s: seq<Long>, size: Size): int {
    if |s| == 0 then 0 else s[0] + size.Modulus() * Value(s[1..], size)
  }

  /** The whole number read as two's complement: only the last limb is signed. */
  function SignedValue(s: seq<Long>, size: Size): int {
    if |s| == 0 then 0
    else if |s| == 1 then Signed(s[0], size)
    else s[0] + size.Modulus() * SignedValue(s[1..], size)
  }

  /** Number of values of n limbs. */
  function Range(n: nat, size: Size): (r: int)
    ensures r >= 1
  {
    if n == 0 then 1 else size.Modulus() * Range(n - 1, size)
  }

  /** Number of non-negative two's complement values of n limbs. */
  function HalfRange(n: nat, size: Size): (r: int)
    requires n >= 1
    ensures r >= 1
    ensures Range(n, size) == 2 * r
  {
    if n == 1 then size.Half() else size.Modulus() * HalfRange(n - 1, size)
  }

  /** The value a chain writes, its final extend flag and its zero flag, for any number of
      limbs: the exact result is the written number plus or minus the carry out. */
  lemma {:induction false} ChainValue(subtract: bool, size: Size, src: seq<Long>, dst: seq<Long>, x: bool, v: bool,
                                      z: bool)
    requires |src| == |dst| && AreLimbs(src, size) && AreLimbs(dst, size)
    ensures var c := Run(subtract, size, src, dst, x, v, z);
            && |c.limbs| == |src| && AreLimbs(c.limbs, size)
            && Exact(subtract, Value(src, size), Value(dst, size), x)
               == Value(c.limbs, size) + Weight(subtract, c.extend, Range(|src|, size))
            && 0 <= Value(c.limbs, size) < Range(|src|, size)
            && (c.zero <==> z && Value(c.limbs, size) == 0)
  {
    hide *;
    if |src| > 0 {
      var s := Arithmetic(subtract, size, src[0], dst[0], x);
      RunUnfold(subtract, size, src, dst, x, v, z);
      var rest := Run(subtract, size, src[1..], dst[1..], s.carry, s.overflow, z && s.zero);
      ChainValue(subtract, size, src[1..], dst[1..], s.carry, s.overflow, z && s.zero);
      StepValue(subtract, size, src[0], dst[0], x);
      ValueUnfold(src, size);
      ValueUnfold(dst, size);
      OnTop(s.value, rest.limbs, size);
      LimbOnTop(subtract, size, src[0], Value(src[1..], size), dst[0], Value(dst[1..], size), x,
                s.value, s.carry, Value(rest.limbs, size), Weight(subtract, rest.extend, Range(|src| - 1, size)));
      WeightOnTop(subtract, size, rest.extend, Range(|src| - 1, size));
      RangeOnTop(size, s.value, Value(rest.limbs, size), Range(|src| - 1, size));
    } else {
      NoLimbs(subtract, size, src, dst, x, v, z);
    }
  }

  lemma ValueUnfold(s: seq<Long>, size: Size)
    requires |s| >= 1
    ensures Value(s, size) == s[0] + size.Modulus() * Value(s[1..], size)
    ensures Range(|s|, size) == size.Modulus() * Range(|s| - 1, size)
  {
  }

  lemma OnTop(limb: Long, rest: seq<Long>, size: Size)
    requires Fits(limb, size) && AreLimbs(rest, size)
    ensures AreLimbs([limb] + rest, size)
    ensures Value([limb] + rest, size) == limb + size.Modulus() * Value(rest, size)
  {
    assert ([limb] + rest)[1..] == rest;
  }

  lemma NoLimbs(subtract: bool, size: Size, src: seq<Long>, dst: seq<Long>, x: bool, v: bool, z: bool)
    requires |src| == |dst| == 0
    ensures Run(subtract, size, src, dst, x, v, z) == Chain([], x, v, z)
    ensures AreLimbs([], size)
    ensures Value(src, size) == Value(dst, size) == Value([], size) == 0 && Range(0, size) == 1
    ensures Exact(subtract, 0, 0, x) == Weight(subtract, x, 1)
  {
  }

  lemma StepValue(subtract: bool, size: Size, src: Long, dst: Long, x: bool)
    requires Fits(src, size) && Fits(dst, size)
    ensures var s := Arithmetic(subtract, size, src, dst, x);
            && Fits(s.value, size) && s.zero == (s.value == 0)
            && Exact(subtract, src, dst, x) == s.value + Weight(subtract, s.carry, size.Modulus())
  {
    Residue(Exact(subtract, src, dst, x), size);
  }

  /** One limb below the rest of both operands: the exact results combine. */
  lemma LimbOnTop(subtract: bool, size: Size, src: int, src': int, dst: int, dst': int, x: bool,
                  value: int, carry: bool, value': int, out: int)
    requires Exact(subtract, src, dst, x) == value + Weight(subtract, carry, size.Modulus())
    requires Exact(subtract, src', dst', carry) == value' + out
    ensures Exact(subtract, src + size.Modulus() * src', dst + size.Modulus() * dst', x)
            == value + size.Modulus() * value' + size.Modulus() * out
  {
    match size {
      case ByteSize =>
      case WordSize =>
      case LongSize =>
    }
  }

  lemma WeightOnTop(subtract: bool, size: Size, carry: bool, range: int)
    ensures size.Modulus() * Weight(subtract, carry, range) == Weight(subtract, carry, size.Modulus() * range)
  {
  }

  lemma RangeOnTop(size: Size, value: int, value': int, range: int)
    requires Fits(value, size) && 0 <= value' < range
    ensures 0 <= value + size.Modulus() * value' < size.Modulus() * range
    ensures value + size.Modulus() * value' == 0 <==> value == 0 && value' == 0
  {
    match size {
      case ByteSize =>
      case WordSize =>
      case LongSize =>
    }
  }

  /** The written number is the exact result modulo the range, and the final extend flag says
      whether the exact result left it. */
  lemma ChainIsModular(subtract: bool, size: Size, src: seq<Long>, dst: seq<Long>, x: bool, v: bool, z: bool)
    requires |src| == |dst| && AreLimbs(src, size) && AreLimbs(dst, size)
    ensures var c := Run(subtract, size, src, dst, x, v, z);
            var exact := Exact(subtract, Value(src, size), Value(dst, size), x);
            && Value(c.limbs, size) == exact % Range(|src|, size)
            && (c.extend <==> exact != exact % Range(|src|, size))
  {
    var c := Run(subtract, size, src, dst, x, v, z);
    var exact := Exact(subtract, Value(src, size), Value(dst, size), x);
    var range := Range(|src|, size);
    ChainValue(subtract, size, src, dst, x, v, z);
    RangeDivision(subtract, exact, Value(c.limbs, size), c.extend, range);
  }

  lemma RangeDivision(subtract: bool, exact: int, value: int, carry: bool, range: int)
    requires 0 <= value < range
    requires exact == value + Weight(subtract, carry, range)
    ensures exact % range == value
  {
    DivUnique(exact, range, if !carry then 0 else if subtract then -1 else 1, value);
  }

  /** The final overflow flag says whether the exact signed result leaves the signed range of
      the whole number. */
  lemma {:induction false} ChainOverflow(subtract: bool, size: Size, src: seq<Long>, dst: seq<Long>, x: bool,
                                         v: bool, z: bool)
    requires |src| == |dst| >= 1 && AreLimbs(src, size) && AreLimbs(dst, size)
    ensures var exact := Exact(subtract, SignedValue(src, size), SignedValue(dst, size), x);
            Run(subtract, size, src, dst, x, v, z).overflow
            <==> -HalfRange(|src|, size) > exact || exact >= HalfRange(|src|, size)
  {
    hide *;
    var s := Arithmetic(subtract, size, src[0], dst[0], x);
    RunUnfold(subtract, size, src, dst, x, v, z);
    SignedUnfold(src, size);
    SignedUnfold(dst, size);
    if |src| == 1 {
      LastLimb(subtract, size, src[0], dst[0], x);
    } else {
      ChainOverflow(subtract, size, src[1..], dst[1..], s.carry, s.overflow, z && s.zero);
      StepValue(subtract, size, src[0], dst[0], x);
      var src', dst' := SignedValue(src[1..], size), SignedValue(dst[1..], size);
      var exact' := Exact(subtract, src', dst', s.carry);
      LimbOnTop(subtract, size, src[0], src', dst[0], dst', x, s.value, s.carry, exact', 0);
      SignedRangeOnTop(size, s.value, exact', HalfRange(|src| - 1, size));
    }
  }

  lemma RunUnfold(subtract: bool, size: Size, src: seq<Long>, dst: seq<Long>, x: bool, v: bool, z: bool)
    requires |src| == |dst| >= 1 && AreLimbs(src, size) && AreLimbs(dst, size)
    ensures var s := Arithmetic(subtract, size, src[0], dst[0], x);
            var rest := Run(subtract, size, src[1..], dst[1..], s.carry, s.overflow, z && s.zero);
            Run(subtract, size, src, dst, x, v, z) == rest.(limbs := [s.value] + rest.limbs)
    ensures |src| == 1 ==>
              Run(subtract, size, src, dst, x, v, z).overflow == Arithmetic(subtract, size, src[0], dst[0], x).overflow
    ensures Fits(src[0], size) && Fits(dst[0], size) && AreLimbs(src[1..], size) && AreLimbs(dst[1..], size)
  {
    hide Arithmetic;
  }

  lemma SignedUnfold(s: seq<Long>, size: Size)
    requires |s| >= 1
    ensures |s| == 1 ==> SignedValue(s, size) == Signed(s[0], size) && HalfRange(1, size) == size.Half()
    ensures |s| > 1 ==> SignedValue(s, size) == s[0] + size.Modulus() * SignedValue(s[1..], size)
    ensures |s| > 1 ==> HalfRange(|s|, size) == size.Modulus() * HalfRange(|s| - 1, size)
  {
  }

  lemma LastLimb(subtract: bool, size: Size, src: Long, dst: Long, x: bool)
    ensures var exact := Exact(subtract, Signed(src, size), Signed(dst, size), x);
            Arithmetic(subtract, size, src, dst, x).overflow <==> -size.Half() > exact || exact >= size.Half()
  {
  }

  lemma SignedRangeOnTop(size: Size, value: int, exact': int, half: int)
    requires Fits(value, size)
    ensures -half <= exact' < half
            <==> -(size.Modulus() * half) <= value + size.Modulus() * exact' < size.Modulus() * half
  {
    match size {
      case ByteSize =>
      case WordSize =>
      case LongSize =>
    }
  }

  lemma {:induction false} ZerosAreZero(n: nat, size: Size)
    ensures Value(Zeros(n), size) == 0 && SignedValue(Zeros(n), size) == 0
    ensures AreLimbs(Zeros(n), size)
  {
    if n > 0 {
      ZerosAreZero(n - 1, size);
      assert Zeros(n)[1..] == Zeros(n - 1);
    }
  }

  /** NEGX is the extended subtraction from zero, so a chain of NEGX negates the whole number
      modulo its range; started with X clear, the final X is clear only for zero. */
  lemma NegateChain(size: Size, limbs: seq<Long>, x: bool, v: bool, z: bool)
    requires AreLimbs(limbs, size)
    ensures var c := Run(true, size, limbs, Zeros(|limbs|), x, v, z);
            && Value(c.limbs, size) == (-Value(limbs, size) - B2I(x)) % Range(|limbs|, size)
            && (c.extend <==> Value(limbs, size) != 0 || x)
            && (c.zero <==> z && Value(c.limbs, size) == 0)
            && (|limbs| > 0 ==>
                 (c.overflow <==> SignedValue(limbs, size) == -HalfRange(|limbs|, size) && !x))
  {
    var zeros := Zeros(|limbs|);
    ZerosAreZero(|limbs|, size);
    ChainValue(true, size, limbs, zeros, x, v, z);
    ChainIsModular(true, size, limbs, zeros, x, v, z);
    ValueBounds(limbs, size);
    if |limbs| > 0 {
      ChainOverflow(true, size, limbs, zeros, x, v, z);
    }
  }

  lemma {:induction false} ValueBounds(limbs: seq<Long>, size: Size)
    requires AreLimbs(limbs, size)
    ensures 0 <= Value(limbs, size) < Range(|limbs|, size)
    ensures |limbs| > 0 ==> -HalfRange(|limbs|, size) <= SignedValue(limbs, size) < HalfRange(|limbs|, size)
  {
    if |limbs| > 0 {
      ValueBounds(limbs[1..], size);
      RangeOnTop(size, limbs[0], Value(limbs[1..], size), Range(|limbs| - 1, size));
      if |limbs| > 1 {
        SignedRangeOnTop(size, limbs[0], SignedValue(limbs[1..], size), HalfRange(|limbs| - 1, size));
      }
    }
  }

  // ---------------------------------------------------------------- executing a chain

  /** What is left to run of a chain that has come to limb i with these flags. */
  ghost function From(subtract: bool, size: Size, src: seq<Long>, dst: seq<Long>, i: nat, f: Flags): Chain
    requires |src| == |dst| && i <= |src|
  {
    Run(subtract, size, src[i..], dst[i..], f.extend, f.overflow, f.zero)
  }

  ghost function Preceded(limbs: seq<Long>, rest: Chain): Chain {
    rest.(limbs := limbs + rest.limbs)
  }

  /** Flags after one ADDX or SUBX, as Alu.ExecuteExtended leaves them. */
  ghost function FlagsAfter(s: Step, before: Flags): Flags {
    Flags(s.carry, s.overflow, before.zero && s.zero, s.negative, s.carry)
  }

  /** One more limb of a chain that has come to limb i. */
  lemma RunOn(subtract: bool, size: Size, src: seq<Long>, dst: seq<Long>, i: nat, f: Flags)
    requires |src| == |dst| && AreLimbs(src, size) && AreLimbs(dst, size) && i < |src|
    ensures Fits(src[i], size) && Fits(dst[i], size)
    ensures var s := Arithmetic(subtract, size, src[i], dst[i], f.extend);
            From(subtract, size, src, dst, i, f)
            == Preceded([s.value], From(subtract, size, src, dst, i + 1, FlagsAfter(s, f)))
  {
    assert src[i..][1..] == src[i + 1..] && dst[i..][1..] == dst[i + 1..];
    RunUnfold(subtract, size, src[i..], dst[i..], f.extend, f.overflow, f.zero);
    hide Run, Arithmetic;
  }

  lemma PrecededTwice(limbs: seq<Long>, value: Long, rest: Chain)
    ensures Preceded(limbs, Preceded([value], rest)) == Preceded(limbs + [value], rest)
  {
    assert limbs + ([value] + rest.limbs) == limbs + [value] + rest.limbs;
  }

  lemma Ends(subtract: bool, size: Size, src: seq<Long>, dst: seq<Long>, f: Flags)
    requires |src| == |dst|
    ensures From(subtract, size, src, dst, 0, f) == Run(subtract, size, src, dst, f.extend, f.overflow, f.zero)
    ensures From(subtract, size, src, dst, |src|, f) == Chain([], f.extend, f.overflow, f.zero)
  {
    assert src[0..] == src && dst[0..] == dst;
  }

  lemma AllPreceded(limbs: seq<Long>, x: bool, v: bool, z: bool)
    ensures Preceded([], Chain(limbs, x, v, z)) == Preceded(limbs, Chain([], x, v, z)) == Chain(limbs, x, v, z)
  {
    assert [] + limbs == limbs + [] == limbs;
  }

  /** A program that executes ADDX or SUBX on one limb after the other leaves what Run says, in
      the limbs and in the flags X, V and Z. */
  method ExecuteChain(regs: Registers, subtract: bool, size: Size, src: seq<Long>, dst: seq<Long>)
    returns (limbs: seq<Long>)
    requires |src| == |dst| && AreLimbs(src, size) && AreLimbs(dst, size)
    modifies regs`sr
    ensures var f, g := old(regs.sr.flags), regs.sr.flags;
            Chain(limbs, g.extend, g.overflow, g.zero) == Run(subtract, size, src, dst, f.extend, f.overflow, f.zero)
  {
    limbs := [];
    ghost var whole := From(subtract, size, src, dst, 0, regs.sr.flags);
    Ends(subtract, size, src, dst, regs.sr.flags);
    AllPreceded(whole.limbs, whole.extend, whole.overflow, whole.zero);
    hide *;
    for i := 0 to |src|
      invariant whole == Preceded(limbs, From(subtract, size, src, dst, i, regs.sr.flags))
    {
      ghost var f := regs.sr.flags;
      RunOn(subtract, size, src, dst, i, f);
      var value := ExecuteExtended(regs, subtract, size, src[i], dst[i]);
      FlagsAreAfter(regs.sr.flags, Arithmetic(subtract, size, src[i], dst[i], f.extend), f);
      PrecededTwice(limbs, value, From(subtract, size, src, dst, i + 1, regs.sr.flags));
      limbs := limbs + [value];
    }
    Ends(subtract, size, src, dst, regs.sr.flags);
    AllPreceded(limbs, regs.sr.flags.extend, regs.sr.flags.overflow, regs.sr.flags.zero);
  }

  lemma FlagsAreAfter(after: Flags, s: Step, before: Flags)
    requires after == Flags(s.carry, s.overflow, before.zero && s.zero, s.negative, s.carry)
    ensures after == FlagsAfter(s, before)
  {
  }

  /** The same for NEGX. */
  method ExecuteNegateChain(regs: Registers, size: Size, limbs: seq<Long>) returns (negated: seq<Long>)
    requires AreLimbs(limbs, size)
    modifies regs`sr
    ensures var f, g := old(regs.sr.flags), regs.sr.flags;
            Chain(negated, g.extend, g.overflow, g.zero)
            == Run(true, size, limbs, Zeros(|limbs|), f.extend, f.overflow, f.zero)
  {
    negated := [];
    ghost var zeros: seq<Long> := Zeros(|limbs|);
    ghost var whole := From(true, size, limbs, zeros, 0, regs.sr.flags);
    ZerosAreZero(|limbs|, size);
    Ends(true, size, limbs, zeros, regs.sr.flags);
    AllPreceded(whole.limbs, whole.extend, whole.overflow, whole.zero);
    hide *;
    for i := 0 to |limbs|
      invariant whole == Preceded(negated, From(true, size, limbs, zeros, i, regs.sr.flags))
    {
      ghost var f := regs.sr.flags;
      RunOn(true, size, limbs, zeros, i, f);
      var value := ExecuteNegate(regs, true, size, limbs[i]);
      FlagsAreAfter(regs.sr.flags, Arithmetic(true, size, limbs[i], 0, f.extend), f);
      PrecededTwice(negated, value, From(true, size, limbs, zeros, i + 1, regs.sr.flags));
      negated := negated + [value];
    }
    Ends(true, size, limbs, zeros, regs.sr.flags);
    AllPreceded(negated, regs.sr.flags.extend, regs.sr.flags.overflow, regs.sr.flags.zero);
  }
}

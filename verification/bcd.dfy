/** Binary-coded decimal: ABCD, SBCD and NBCD (src/m68k/instruction/execute.cpp:235-322), and
    the decimal arithmetic that chains of them compute. */
module Bcd {
  import opened Words
  import opened CpuRegisters
  import opened Alu

  /** The byte written and the decimal carry or borrow. */
  datatype Digits = Digits(value: Byte, carry: bool)

  /** The correction of two digit sums: at most one per digit; what the low one leaves above
      its digit is carried on, what the high one leaves is cut off. */
  function CorrectUp(low: int, high: int): Digits {
    var low' := if low > 9 then low - 10 else low;
    var high' := high + B2I(low > 9) + B2I(low' >= 16);
    Digits((16 * (if high' > 9 then high' - 10 else high') + (if low' >= 16 then low' - 16 else low')) % 0x100,
           high' > 9)
  }

  /** The correction of two digit differences. */
  function CorrectDown(low: int, high: int): Digits {
    var low' := if low < 0 then low + 10 else low;
    var borrowed := high - B2I(low < 0);
    var high' := if borrowed < 0 then borrowed + 10 else borrowed;
    Digits((16 * high' + low') % 0x100, borrowed < 0 || (high' == 0 && low' < 0))
  }

  /** What ABCD writes for any two bytes. */
  function AddDigits(src: Byte, dst: Byte, x: bool): Digits {
    CorrectUp(src % 16 + dst % 16 + B2I(x), src / 16 + dst / 16)
  }

  /** What SBCD writes for any two bytes. */
  function SubtractDigits(src: Byte, dst: Byte, x: bool): Digits {
    CorrectDown(dst % 16 - src % 16 - B2I(x), dst / 16 - src / 16)
  }

  function Combine(subtract: bool, src: Byte, dst: Byte, x: bool): Digits {
    if subtract then SubtractDigits(src, dst, x) else AddDigits(src, dst, x)
  }

  /** Flags after a decimal instruction: Z is only ever cleared; V tells that the correction
      changed the sign bit of the binary result, in the direction of the operation. */
  function FlagsAfter(subtract: bool, src: Byte, dst: Byte, before: Flags): Flags {
    var digits := Combine(subtract, src, dst, before.extend);
    var binarySign := Msb(Exact(subtract, src, dst, before.extend) % 0x1_0000, ByteSize);
    var sign := Msb(digits.value, ByteSize);
    Flags(digits.carry, if subtract then binarySign && !sign else !binarySign && sign,
          before.zero && digits.value == 0, sign, digits.carry)
  }

  method ExecuteAbcd(regs: Registers, src: Byte, dst: Byte) returns (written: Byte)
    modifies regs`sr
    ensures written == AddDigits(src, dst, old(regs.sr.flags.extend)).value
    ensures regs.sr == old(regs.sr).(flags := FlagsAfter(false, src, dst, old(regs.sr.flags)))
  {
    hide Msb;
    var Flags(_, _, zero, _, extend) := regs.sr.flags;
    var binaryResult: Word := (src + dst + B2I(extend)) % 0x1_0000;
    var result, carry := AddDigitwise(src, dst, extend);
    written := result;
    if result != 0 {
      zero := false;
    }
    var overflow := !Msb(binaryResult, ByteSize) && Msb(result, ByteSize);
    regs.sr := regs.sr.(flags := Flags(carry, overflow, zero, Msb(result, ByteSize), carry));
  }

  /** The digit-wise part of ABCD. */
  method AddDigitwise(src: Byte, dst: Byte, extend: bool) returns (result: Byte, carry: bool)
    ensures Digits(result, carry) == AddDigits(src, dst, extend)
  {
    carry := false;
    var lval := src % 0x10 + dst % 0x10 + B2I(extend);
    var hval := src / 0x10 + dst / 0x10;
    if lval > 9 {
      carry := true;
      lval := lval - 10;
    }
    hval := hval + (if carry then 1 else 0);
    carry := false;
    if lval >= 16 {
      lval := lval - 16;
      hval := hval + 1;
    }
    if hval > 9 {
      carry := true;
      hval := hval - 10;
    }
    result := (hval * 16 + lval) % 0x100;
  }

  /** SBCD subtracts the source from the destination; NBCD the destination from zero. */
  method ExecuteSbcd(regs: Registers, negate: bool, src: Byte, dst: Byte) returns (written: Byte)
    modifies regs`sr
    ensures var from := if negate then 0 else dst;
            var what := if negate then dst else src;
            && written == SubtractDigits(what, from, old(regs.sr.flags.extend)).value
            && regs.sr == old(regs.sr).(flags := FlagsAfter(true, what, from, old(regs.sr.flags)))
  {
    hide Msb;
    var Flags(_, _, zero, _, extend) := regs.sr.flags;
    var byte0, byte1;
    if !negate {
      byte0, byte1 := dst, src;
    } else {
      byte0, byte1 := 0, dst;
    }
    var binaryResult: Word := (byte0 - byte1 - B2I(extend)) % 0x1_0000;
    var result, carry := SubtractDigitwise(byte0, byte1, extend);
    written := result;
    if result != 0 {
      zero := false;
    }
    var overflow := Msb(binaryResult, ByteSize) && !Msb(result, ByteSize);
    regs.sr := regs.sr.(flags := Flags(carry, overflow, zero, Msb(result, ByteSize), carry));
  }

  /** The digit-wise part of SBCD and NBCD. */
  method SubtractDigitwise(byte0: Byte, byte1: Byte, extend: bool) returns (result: Byte, carry: bool)
    ensures Digits(result, carry) == SubtractDigits(byte1, byte0, extend)
  {
    carry := false;
    var lval := byte0 % 0x10 - byte1 % 0x10 - B2I(extend);
    var hval := byte0 / 0x10 - byte1 / 0x10;
    if lval < 0 {
      carry := true;
      lval := lval + 10;
    }
    hval := hval - (if carry then 1 else 0);
    carry := false;
    if hval < 0 {
      carry := true;
      hval := hval + 10;
    }
    if hval == 0 && lval < 0 {
      carry := true;
    }
    result := (hval * 16 + lval) % 0x100;
  }

  // ---------------------------------------------------------------- decimal meaning

  predicate ValidBcd(b: Byte) {
    b / 16 <= 9 && b % 16 <= 9
  }

  function Decimal(b: Byte): int {
    10 * (b / 16) + b % 16
  }

  /** On two decimal digits per byte the instructions are decimal arithmetic modulo 100. */
  lemma DigitsAreDecimal(subtract: bool, src: Byte, dst: Byte, x: bool)
    requires ValidBcd(src) && ValidBcd(dst)
    ensures var digits := Combine(subtract, src, dst, x);
            && ValidBcd(digits.value)
            && Exact(subtract, Decimal(src), Decimal(dst), x)
               == Decimal(digits.value) + Weight(subtract, digits.carry, 100)
            && (digits.value == 0 <==> Decimal(digits.value) == 0)
            && 0 <= Decimal(digits.value) < 100
  {
    if subtract {
      SubtractIsDecimal(src, dst, x);
    } else {
      AddIsDecimal(src, dst, x);
    }
    DecimalRange(Combine(subtract, src, dst, x).value);
    hide AddDigits, SubtractDigits, ValidBcd, Decimal;
  }

  lemma AddIsDecimal(src: Byte, dst: Byte, x: bool)
    requires ValidBcd(src) && ValidBcd(dst)
    ensures var digits := AddDigits(src, dst, x);
            && ValidBcd(digits.value)
            && Decimal(src) + Decimal(dst) + B2I(x) == Decimal(digits.value) + (if digits.carry then 100 else 0)
  {
    hide CorrectUp;
    CorrectUpIsDecimal(src % 16 + dst % 16 + B2I(x), src / 16 + dst / 16);
  }

  lemma SubtractIsDecimal(src: Byte, dst: Byte, x: bool)
    requires ValidBcd(src) && ValidBcd(dst)
    ensures var digits := SubtractDigits(src, dst, x);
            && ValidBcd(digits.value)
            && Decimal(dst) - Decimal(src) - B2I(x) == Decimal(digits.value) - (if digits.carry then 100 else 0)
  {
    hide CorrectDown;
    CorrectDownIsDecimal(dst % 16 - src % 16 - B2I(x), dst / 16 - src / 16);
  }

  lemma DecimalRange(b: Byte)
    requires ValidBcd(b)
    ensures 0 <= Decimal(b) < 100
    ensures b == 0 <==> Decimal(b) == 0
  {
  }

  lemma CorrectUpIsDecimal(low: int, high: int)
    requires 0 <= low <= 19 && 0 <= high <= 18
    ensures var digits := CorrectUp(low, high);
            && ValidBcd(digits.value)
            && 10 * high + low == Decimal(digits.value) + (if digits.carry then 100 else 0)
  {
    var high' := high + B2I(low > 9);
    TwoDigits(if high' > 9 then high' - 10 else high', if low > 9 then low - 10 else low);
  }

  lemma CorrectDownIsDecimal(low: int, high: int)
    requires -10 <= low <= 9 && -9 <= high <= 9
    ensures var digits := CorrectDown(low, high);
            && ValidBcd(digits.value)
            && 10 * high + low == Decimal(digits.value) - (if digits.carry then 100 else 0)
  {
    var high' := high - B2I(low < 0);
    TwoDigits(if high' < 0 then high' + 10 else high', if low < 0 then low + 10 else low);
  }

  lemma TwoDigits(high: int, low: int)
    requires 0 <= high <= 9 && 0 <= low <= 9
    ensures (16 * high + low) % 0x100 == 16 * high + low
    ensures (16 * high + low) / 16 == high && (16 * high + low) % 16 == low
  {
  }

  ghost predicate AllValid(s: seq<Byte>) {
    forall i :: 0 <= i < |s| ==> ValidBcd(s[i])
  }

  /** What a chain leaves: the bytes, X, and Z. */
  datatype Chain = Chain(bytes: seq<Byte>, extend: bool, zero: bool)

  function Run(subtract: bool, src: seq<Byte>, dst: seq<Byte>, x: bool, z: bool): Chain
    requires |src| == |dst|
  {
    if |src| == 0 then Chain([], x, z)
    else
      var digits := Combine(subtract, src[0], dst[0], x);
      var rest := Run(subtract, src[1..], dst[1..], digits.carry, z && digits.value == 0);
      rest.(bytes := [digits.value] + rest.bytes)
  }

  /** The decimal number of a string of bytes, least significant byte first. */
  function Value(s: seq<Byte>): int {
    if |s| == 0 then 0 else Decimal(s[0]) + 100 * Value(s[1..])
  }

  function Pow100(n: nat): (r: int)
    ensures r >= 1
  {
    if n == 0 then 1 else 100 * Pow100(n - 1)
  }

  /** Chained ABCD or SBCD on strings of any length is decimal addition or subtraction modulo
      100^n: every byte written is decimal again, X is the carry or borrow out of the whole
      number, and Z survives only if the whole result is zero. */
  lemma {:induction false} ChainIsDecimal(subtract: bool, src: seq<Byte>, dst: seq<Byte>, x: bool, z: bool)
    requires |src| == |dst| && AllValid(src) && AllValid(dst)
    ensures var c := Run(subtract, src, dst, x, z);
            && |c.bytes| == |src| && AllValid(c.bytes)
            && Exact(subtract, Value(src), Value(dst), x)
               == Value(c.bytes) + Weight(subtract, c.extend, Pow100(|src|))
            && 0 <= Value(c.bytes) < Pow100(|src|)
            && (c.zero <==> z && Value(c.bytes) == 0)
  {
    hide *;
    if |src| > 0 {
      var digits := Combine(subtract, src[0], dst[0], x);
      RunUnfold(subtract, src, dst, x, z);
      var rest := Run(subtract, src[1..], dst[1..], digits.carry, z && digits.value == 0);
      DigitsAreDecimal(subtract, src[0], dst[0], x);
      ChainIsDecimal(subtract, src[1..], dst[1..], digits.carry, z && digits.value == 0);
      ValueUnfold(src);
      ValueUnfold(dst);
      OnTop(digits.value, rest.bytes);
      ByteOnTop(subtract, Decimal(src[0]), Value(src[1..]), Decimal(dst[0]), Value(dst[1..]), x,
                Decimal(digits.value), digits.carry, Value(rest.bytes), rest.extend, Pow100(|src| - 1));
    } else {
      NoBytes(subtract, src, dst, x, z);
    }
  }

  lemma RunUnfold(subtract: bool, src: seq<Byte>, dst: seq<Byte>, x: bool, z: bool)
    requires |src| == |dst| >= 1 && AllValid(src) && AllValid(dst)
    ensures var digits := Combine(subtract, src[0], dst[0], x);
            var rest := Run(subtract, src[1..], dst[1..], digits.carry, z && digits.value == 0);
            Run(subtract, src, dst, x, z) == rest.(bytes := [digits.value] + rest.bytes)
    ensures ValidBcd(src[0]) && ValidBcd(dst[0]) && AllValid(src[1..]) && AllValid(dst[1..])
  {
    hide Combine, ValidBcd;
  }

  lemma ValueUnfold(s: seq<Byte>)
    requires |s| >= 1
    ensures Value(s) == Decimal(s[0]) + 100 * Value(s[1..])
    ensures Pow100(|s|) == 100 * Pow100(|s| - 1)
  {
    hide Decimal;
  }

  lemma OnTop(byte: Byte, rest: seq<Byte>)
    requires ValidBcd(byte) && AllValid(rest)
    ensures AllValid([byte] + rest)
    ensures Value([byte] + rest) == Decimal(byte) + 100 * Value(rest)
  {
    hide Decimal, ValidBcd;
    assert ([byte] + rest)[1..] == rest;
  }

  lemma NoBytes(subtract: bool, src: seq<Byte>, dst: seq<Byte>, x: bool, z: bool)
    requires |src| == |dst| == 0
    ensures Run(subtract, src, dst, x, z) == Chain([], x, z)
    ensures AllValid([])
    ensures Value(src) == Value(dst) == Value([]) == 0 && Pow100(0) == 1
    ensures Exact(subtract, 0, 0, x) == Weight(subtract, x, 1)
  {
  }

  /** One byte below the rest of both numbers: the exact results combine. */
  lemma ByteOnTop(subtract: bool, src: int, src': int, dst: int, dst': int, x: bool,
                  value: int, carry: bool, value': int, out: bool, range: int)
    requires Exact(subtract, src, dst, x) == value + Weight(subtract, carry, 100)
    requires Exact(subtract, src', dst', carry) == value' + Weight(subtract, out, range)
    requires 0 <= value < 100 && 0 <= value' < range
    ensures Exact(subtract, src + 100 * src', dst + 100 * dst', x)
            == value + 100 * value' + Weight(subtract, out, 100 * range)
    ensures 0 <= value + 100 * value' < 100 * range
    ensures value + 100 * value' == 0 <==> value == 0 && value' == 0
  {
  }

  /** The same as a remainder: the written number is the exact one modulo 100^n, and X tells
      whether the exact one left the range. */
  lemma ChainIsModular(subtract: bool, src: seq<Byte>, dst: seq<Byte>, x: bool, z: bool)
    requires |src| == |dst| && AllValid(src) && AllValid(dst)
    ensures var c := Run(subtract, src, dst, x, z);
            var exact := Exact(subtract, Value(src), Value(dst), x);
            && Value(c.bytes) == exact % Pow100(|src|)
            && (c.extend <==> !(0 <= exact < Pow100(|src|)))
  {
    hide Run, Value, Pow100;
    var c := Run(subtract, src, dst, x, z);
    ChainIsDecimal(subtract, src, dst, x, z);
    DivUnique(Exact(subtract, Value(src), Value(dst), x), Pow100(|src|),
              if !c.extend then 0 else if subtract then -1 else 1, Value(c.bytes));
  }

  lemma {:induction false} ZerosAreZero(n: nat)
    ensures Value(Zeros(n)) == 0 && AllValid(Zeros(n))
  {
    if n > 0 {
      ZerosAreZero(n - 1);
      assert Zeros(n)[1..] == Zeros(n - 1);
    }
  }

  /** Chained NBCD is the ten's complement: zero minus the number, modulo 100^n. */
  lemma NegateChain(s: seq<Byte>, x: bool, z: bool)
    requires AllValid(s)
    ensures var c := Run(true, s, Zeros(|s|), x, z);
            && AllValid(c.bytes)
            && Value(c.bytes) == (-Value(s) - B2I(x)) % Pow100(|s|)
            && (c.extend <==> Value(s) != 0 || x)
            && (c.zero <==> z && Value(c.bytes) == 0)
  {
    ZerosAreZero(|s|);
    ChainIsDecimal(true, s, Zeros(|s|), x, z);
    ChainIsModular(true, s, Zeros(|s|), x, z);
    ValueBounds(s);
  }

  lemma {:induction false} ValueBounds(s: seq<Byte>)
    requires AllValid(s)
    ensures 0 <= Value(s) < Pow100(|s|)
  {
    if |s| > 0 {
      ValueBounds(s[1..]);
    }
  }

  /** Adding a decimal number and subtracting it again gives the number back, with the borrow
      out equal to the carry out. */
  lemma AddThenSubtract(src: seq<Byte>, dst: seq<Byte>, z: bool)
    requires |src| == |dst| && AllValid(src) && AllValid(dst)
    ensures var sum := Run(false, src, dst, false, z);
            && |sum.bytes| == |src|
            && Run(true, src, sum.bytes, false, z).bytes == dst
            && Run(true, src, sum.bytes, false, z).extend == sum.extend
  {
    var sum := Run(false, src, dst, false, z);
    ChainIsDecimal(false, src, dst, false, z);
    var back := Run(true, src, sum.bytes, false, z);
    ChainIsDecimal(true, src, sum.bytes, false, z);
    ValueBounds(dst);
    ValueBounds(back.bytes);
    ValueInjective(back.bytes, dst);
  }

  lemma {:induction false} ValueInjective(s: seq<Byte>, t: seq<Byte>)
    requires |s| == |t| && AllValid(s) && AllValid(t) && Value(s) == Value(t)
    ensures s == t
  {
    if |s| > 0 {
      hide Decimal, ValidBcd;
      DecimalInjective(s[0], t[0]);
      SameParts(Decimal(s[0]), Value(s[1..]), Decimal(t[0]), Value(t[1..]));
      ValueInjective(s[1..], t[1..]);
    }
  }

  lemma SameParts(low: int, high: int, low': int, high': int)
    requires 0 <= low < 100 && 0 <= low' < 100 && low + 100 * high == low' + 100 * high'
    ensures low == low' && high == high'
  {
  }

  lemma DecimalInjective(a: Byte, b: Byte)
    requires ValidBcd(a) && ValidBcd(b)
    ensures Decimal(a) == Decimal(b) ==> a == b
    ensures 0 <= Decimal(a) < 100 && 0 <= Decimal(b) < 100
  {
  }

  // ---------------------------------------------------------------- executing a chain

  /** What is left to run of a chain that has come to byte i with these flags. */
  ghost function From(subtract: bool, src: seq<Byte>, dst: seq<Byte>, i: nat, f: Flags): Chain
    requires |src| == |dst| && i <= |src|
  {
    Run(subtract, src[i..], dst[i..], f.extend, f.zero)
  }

  ghost function Preceded(bytes: seq<Byte>, rest: Chain): Chain {
    rest.(bytes := bytes + rest.bytes)
  }

  /** One more byte of a chain that has come to byte i. */
  lemma RunOn(subtract: bool, src: seq<Byte>, dst: seq<Byte>, i: nat, f: Flags)
    requires |src| == |dst| && i < |src|
    ensures From(subtract, src, dst, i, f)
            == Preceded([Combine(subtract, src[i], dst[i], f.extend).value],
                        From(subtract, src, dst, i + 1, FlagsAfter(subtract, src[i], dst[i], f)))
  {
    hide Combine, Msb;
    assert src[i..][1..] == src[i + 1..] && dst[i..][1..] == dst[i + 1..];
  }

  lemma PrecededTwice(bytes: seq<Byte>, value: Byte, rest: Chain)
    ensures Preceded(bytes, Preceded([value], rest)) == Preceded(bytes + [value], rest)
  {
    assert bytes + ([value] + rest.bytes) == bytes + [value] + rest.bytes;
  }

  lemma Ends(subtract: bool, src: seq<Byte>, dst: seq<Byte>, f: Flags)
    requires |src| == |dst|
    ensures From(subtract, src, dst, 0, f) == Run(subtract, src, dst, f.extend, f.zero)
    ensures From(subtract, src, dst, |src|, f) == Chain([], f.extend, f.zero)
  {
    assert src[0..] == src && dst[0..] == dst;
  }

  lemma AllPreceded(bytes: seq<Byte>, x: bool, z: bool)
    ensures Preceded([], Chain(bytes, x, z)) == Preceded(bytes, Chain([], x, z)) == Chain(bytes, x, z)
  {
    assert [] + bytes == bytes + [] == bytes;
  }

  lemma Combined(subtract: bool, src: Byte, dst: Byte, x: bool)
    ensures Combine(subtract, src, dst, x)
            == if subtract then SubtractDigits(src, dst, x) else AddDigits(src, dst, x)
  {
    hide AddDigits, SubtractDigits;
  }

  /** A program that executes ABCD or SBCD on one byte after the other leaves what Run says, in
      the bytes and in the flags X and Z. */
  method ExecuteChain(regs: Registers, subtract: bool, src: seq<Byte>, dst: seq<Byte>) returns (bytes: seq<Byte>)
    requires |src| == |dst|
    modifies regs`sr
    ensures var f, g := old(regs.sr.flags), regs.sr.flags;
            Chain(bytes, g.extend, g.zero) == Run(subtract, src, dst, f.extend, f.zero)
  {
    bytes := [];
    ghost var whole := From(subtract, src, dst, 0, regs.sr.flags);
    Ends(subtract, src, dst, regs.sr.flags);
    AllPreceded(whole.bytes, whole.extend, whole.zero);
    hide *;
    for i := 0 to |src|
      invariant whole == Preceded(bytes, From(subtract, src, dst, i, regs.sr.flags))
    {
      RunOn(subtract, src, dst, i, regs.sr.flags);
      Combined(subtract, src[i], dst[i], regs.sr.flags.extend);
      var value;
      if subtract {
        value := ExecuteSbcd(regs, false, src[i], dst[i]);
      } else {
        value := ExecuteAbcd(regs, src[i], dst[i]);
      }
      PrecededTwice(bytes, value, From(subtract, src, dst, i + 1, regs.sr.flags));
      bytes := bytes + [value];
    }
    Ends(subtract, src, dst, regs.sr.flags);
    AllPreceded(bytes, regs.sr.flags.extend, regs.sr.flags.zero);
  }

  /** The same for NBCD. */
  method ExecuteNegateChain(regs: Registers, s: seq<Byte>) returns (bytes: seq<Byte>)
    modifies regs`sr
    ensures var f, g := old(regs.sr.flags), regs.sr.flags;
            Chain(bytes, g.extend, g.zero) == Run(true, s, Zeros(|s|), f.extend, f.zero)
  {
    bytes := [];
    ghost var zeros := Zeros(|s|);
    ghost var whole := From(true, s, zeros, 0, regs.sr.flags);
    Ends(true, s, zeros, regs.sr.flags);
    AllPreceded(whole.bytes, whole.extend, whole.zero);
    hide *;
    for i := 0 to |s|
      invariant whole == Preceded(bytes, From(true, s, zeros, i, regs.sr.flags))
    {
      RunOn(true, s, zeros, i, regs.sr.flags);
      Combined(true, s[i], 0, regs.sr.flags.extend);
      var value := ExecuteSbcd(regs, true, 0, s[i]);
      PrecededTwice(bytes, value, From(true, s, zeros, i + 1, regs.sr.flags));
      bytes := bytes + [value];
    }
    Ends(true, s, zeros, regs.sr.flags);
    AllPreceded(bytes, regs.sr.flags.extend, regs.sr.flags.zero);
  }
}

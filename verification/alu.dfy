/** Integer arithmetic of the interpreter: ADD, SUB, CMP, CMPA, ADDX, SUBX, NEG, NEGX and the
    condition tests (src/m68k/instruction/execute.cpp).

    The methods follow the source: 64-bit unsigned values, carries and overflows recovered
    from the bits above and at the sign position.  Their postconditions state the arithmetic
    meaning, and the lemmas after them what a program gets from it.
 */
module Alu {
  import opened Words
  import opened CpuRegisters

  // ---------------------------------------------------------------- bit tricks of the source

  function BitMask(size: Size): nat {
    size.Modulus() - 1
  }

  predicate IsCarry(value: LongLong, size: Size) {
    And(value, Xor(value, BitMask(size))) != 0
  }

  predicate IsZero(value: LongLong, size: Size) {
    Low(value, size) == 0
  }

  predicate Msb(value: LongLong, size: Size) {
    value / size.Half() % 2 == 1
  }

  predicate IsOverflow(lhs: LongLong, rhs: LongLong, result: LongLong, size: Size, subtract: bool) {
    var lhsMsb := Msb(lhs, size) != subtract;
    var rhsMsb := Msb(rhs, size);
    var resultMsb := Msb(result, size);
    (lhsMsb && rhsMsb && !resultMsb) || (!lhsMsb && !rhsMsb && resultMsb)
  }

  lemma IsCarryMeaning(value: LongLong, size: Size)
    ensures IsCarry(value, size) <==> value >= size.Modulus()
  {
    hide And, Xor, Pow2;
    ModulusIsPow2(size);
    CarryTrickNonzero(value, size.Bits());
    QuotientPositive(value, size.Modulus());
  }

  // ---------------------------------------------------------------- arithmetic meaning

  /** What one addition or subtraction step leaves: the stored value and the flags. */
  datatype Step = Step(value: Long, carry: bool, overflow: bool, negative: bool, zero: bool)

  predicate Fits(v: int, size: Size) {
    0 <= v < size.Modulus()
  }

  /** `dst + src + x`, or `dst - src - x`, as exact integers. */
  function Exact(subtract: bool, src: int, dst: int, x: bool): int {
    if subtract then dst - src - B2I(x) else dst + src + B2I(x)
  }

  /** The step defined by the exact result: the value modulo the size, the carry when the
      unsigned result leaves the range, the overflow when the signed one does. */
  function Arithmetic(subtract: bool, size: Size, src: Long, dst: Long, x: bool): Step {
    var exact := Exact(subtract, src, dst, x);
    var signedExact := Exact(subtract, Signed(src, size), Signed(dst, size), x);
    var value := Low(exact, size);
    Step(value, !Fits(exact, size), !(-size.Half() <= signedExact < size.Half()),
         value >= size.Half(), value == 0)
  }

  /** The flags as the bit tricks compute them agree with the exact arithmetic. */
  lemma TricksAreArithmetic(subtract: bool, size: Size, src: Long, dst: Long, x: bool, result: LongLong)
    requires Fits(src, size) && Fits(dst, size)
    requires result == ToLongLong(Exact(subtract, src, dst, x))
    ensures AgreesWith(result, size, Arithmetic(subtract, size, src, dst, x))
    ensures IsOverflow(src, dst, result, size, subtract) == Arithmetic(subtract, size, src, dst, x).overflow
  {
    ResultAgrees(subtract, size, src, dst, x, result);
    MsbMeaning(src, size);
    MsbMeaning(dst, size);
    OverflowMeaning(subtract, size, src, dst, x);
    hide IsCarry, IsZero, Msb, Low, ToLongLong, Signed, Arithmetic, Exact;
  }

  lemma ResultAgrees(subtract: bool, size: Size, src: Long, dst: Long, x: bool, result: LongLong)
    requires Fits(src, size) && Fits(dst, size)
    requires result == ToLongLong(Exact(subtract, src, dst, x))
    ensures AgreesWith(result, size, Arithmetic(subtract, size, src, dst, x))
  {
    hide IsCarry, Msb, Signed;
    var exact := Exact(subtract, src, dst, x);
    Residue(exact, size);
    IsCarryMeaning(result, size);
    MsbMeaning(result, size);
    hide ToLongLong, Low;
  }

  /** The value and the three flags that are read off the 64-bit result alone. */
  predicate AgreesWith(result: LongLong, size: Size, s: Step) {
    && Low(result, size) == s.value
    && IsCarry(result, size) == s.carry
    && Msb(result, size) == s.negative
    && IsZero(result, size) == s.zero
  }

  lemma Residue(exact: int, size: Size)
    requires -size.Modulus() <= exact < 2 * size.Modulus()
    ensures Low(exact, size) ==
            if exact < 0 then exact + size.Modulus()
            else if exact < size.Modulus() then exact
            else exact - size.Modulus()
    ensures ToLongLong(exact) == if exact < 0 then exact + LONGLONG_MODULUS else exact
    ensures Low(ToLongLong(exact), size) == Low(exact, size)
  {
    match size {
      case ByteSize =>
      case WordSize =>
      case LongSize =>
    }
  }

  lemma MsbMeaning(value: LongLong, size: Size)
    ensures Msb(value, size) <==> Low(value, size) >= size.Half()
  {
    var h := size.Half();
    var q := value / (2 * h);
    var r := value % (2 * h);
    assert size.Modulus() == 2 * h;
    assert value == (2 * h) * q + r;
    assert value == h * (2 * q) + r;
    if r < h {
      DivUnique(value, h, 2 * q, r);
    } else {
      assert value == h * (2 * q + 1) + (r - h);
      DivUnique(value, h, 2 * q + 1, r - h);
    }
  }

  lemma SignedMeaning(v: Long, size: Size)
    requires Fits(v, size)
    ensures Signed(v, size) == if v < size.Half() then v else v - size.Modulus()
  {
    match size {
      case ByteSize =>
      case WordSize =>
      case LongSize =>
    }
  }

  /** Two operands overflow when they have, for an addition, equal signs and the result has
      the other one. */
  lemma OverflowMeaning(subtract: bool, size: Size, src: Long, dst: Long, x: bool)
    requires Fits(src, size) && Fits(dst, size)
    ensures var s := Arithmetic(subtract, size, src, dst, x);
            s.overflow <==> ((src >= size.Half()) != subtract) == (dst >= size.Half())
                            && s.negative != (dst >= size.Half())
  {
    hide Low, Signed, ToLongLong;
    Residue(Exact(subtract, src, dst, x), size);
    SignedMeaning(src, size);
    SignedMeaning(dst, size);
    assert size.Modulus() == 2 * size.Half();
  }

  // ---------------------------------------------------------------- the instructions

  datatype BinaryKind = Add | Sub | Cmp

  /** ADD, ADDI, SUB, SUBI, CMP, CMPI and CMPM on operands of one size; CMP writes nothing. */
  method ExecuteBinary(regs: Registers, kind: BinaryKind, size: Size, src: Long, dst: Long)
    returns (written: Option<Long>)
    requires Fits(src, size) && Fits(dst, size)
    modifies regs`sr
    ensures var s := Arithmetic(kind != Add, size, src, dst, false);
            && written == (if kind == Cmp then None else Some(s.value))
            && regs.sr == old(regs.sr).(flags := Flags(
                 s.carry, s.overflow, s.zero, s.negative, if kind == Cmp then old(regs.sr.flags.extend) else s.carry))
  {
    var Flags(carry, overflow, zero, negative, extend) := regs.sr.flags;
    var result: LongLong := if kind == Add then ToLongLong(src + dst) else ToLongLong(dst - src);
    TricksAreArithmetic(kind != Add, size, src, dst, false, result);
    written := if kind != Cmp then Some(Low(result, size)) else None;
    carry := IsCarry(result, size);
    if kind == Add || kind == Sub {
      extend := carry;
    }
    negative := Msb(result, size);
    zero := IsZero(result, size);
    overflow := IsOverflow(src, dst, result, size, kind != Add);
    regs.sr := regs.sr.(flags := Flags(carry, overflow, zero, negative, extend));
  }

  /** ADDX and SUBX: the extend flag takes part, and the zero flag is only ever cleared. */
  method ExecuteExtended(regs: Registers, subtract: bool, size: Size, src: Long, dst: Long)
    returns (written: Long)
    requires Fits(src, size) && Fits(dst, size)
    modifies regs`sr
    ensures var s := Arithmetic(subtract, size, src, dst, old(regs.sr.flags).extend);
            && written == s.value
            && regs.sr == old(regs.sr).(flags := Flags(
                 s.carry, s.overflow, old(regs.sr.flags.zero) && s.zero, s.negative, s.carry))
  {
    var Flags(carry, overflow, zero, negative, extend) := regs.sr.flags;
    hide IsCarry, Msb, IsZero, IsOverflow, Arithmetic, ToLongLong, Low;
    ExtendedOperand(subtract, src, dst, extend);
    var lhs: LongLong := ToLongLong(src + B2I(extend));
    var result: LongLong := if subtract then ToLongLong(dst - lhs) else ToLongLong(lhs + dst);
    TricksAreArithmetic(subtract, size, src, dst, extend, result);
    written := Low(result, size);
    carry := IsCarry(result, size);
    negative := Msb(result, size);
    extend := carry;
    overflow := IsOverflow(src, dst, result, size, subtract);
    if !IsZero(result, size) {
      zero := false;
    }
    regs.sr := regs.sr.(flags := Flags(carry, overflow, zero, negative, extend));
  }

  lemma ExtendedOperand(subtract: bool, src: Long, dst: Long, x: bool)
    ensures var lhs := ToLongLong(src + B2I(x));
            ToLongLong(Exact(subtract, src, dst, x))
            == if subtract then ToLongLong(dst - lhs) else ToLongLong(lhs + dst)
  {
  }

  /** NEG and NEGX: complement, then add one unless NEGX finds the extend flag set.  Both are
      a subtraction from zero. */
  method ExecuteNegate(regs: Registers, withExtend: bool, size: Size, dst: Long) returns (written: Long)
    requires Fits(dst, size)
    modifies regs`sr
    ensures var s := Arithmetic(true, size, dst, 0, withExtend && old(regs.sr.flags).extend);
            && written == s.value
            && regs.sr == old(regs.sr).(flags := Flags(
                 s.carry, s.overflow, s.zero && (withExtend ==> old(regs.sr.flags.zero)), s.negative, s.carry))
  {
    var Flags(carry, overflow, zero, negative, extend) := regs.sr.flags;
    hide IsCarry, Msb, IsZero, Arithmetic, Low, ToLongLong;
    ComplementIsNegation(dst);
    var result: LongLong := LONGLONG_MODULUS - 1 - dst;
    var hasOverflow := false;
    if !withExtend || !extend {
      if Low(result, size) == size.Half() - 1 {
        hasOverflow := true;
      }
      result := ToLongLong(result + 1);
    }
    NegateTricks(size, dst, withExtend && extend, result);
    written := Low(result, size);
    negative := Msb(result, size);
    var curIsZero := IsZero(result, size);
    if !withExtend || !curIsZero {
      zero := curIsZero;
    }
    overflow := hasOverflow;
    carry := IsCarry(result, size);
    extend := carry;
    regs.sr := regs.sr.(flags := Flags(carry, overflow, zero, negative, extend));
  }

  lemma ComplementIsNegation(dst: Long)
    ensures LONGLONG_MODULUS - 1 - dst == ToLongLong(0 - dst - 1)
    ensures ToLongLong(LONGLONG_MODULUS - 1 - dst + 1) == ToLongLong(0 - dst)
  {
  }

  /** The complement-based negation computes `0 - dst - x`; it overflows only for the most
      negative operand without an incoming borrow. */
  lemma NegateTricks(size: Size, dst: Long, x: bool, result: LongLong)
    requires Fits(dst, size)
    requires result == ToLongLong(0 - dst - B2I(x))
    ensures AgreesWith(result, size, Arithmetic(true, size, dst, 0, x))
    ensures Arithmetic(true, size, dst, 0, x).overflow
            == (!x && Low(LONGLONG_MODULUS - 1 - dst, size) == size.Half() - 1)
  {
    TricksAreArithmetic(true, size, dst, 0, x, result);
    Residue(-1 - dst, size);
    SignedMeaning(dst, size);
    SignedMeaning(0, size);
  }

  /** The source operand of an address comparison: a word is sign-extended to 64 bits. */
  function AddressOperand(size: Size, src: Long): LongLong {
    if size == WordSize then ToLongLong(Signed(src, WordSize)) else src
  }

  /** CMPA.  The carry is taken from `result ^ src`, which is wrong for some operands. */
  method ExecuteCmpa(regs: Registers, size: Size, src: Long, dst: Long)
    requires size != ByteSize && Fits(src, size)
    modifies regs`sr
    ensures var s := Arithmetic(true, LongSize, ToLong(AddressOperand(size, src)), dst, false);
            regs.sr == old(regs.sr).(flags := Flags(
              CmpaCarry(size, src, dst), s.overflow, s.zero, s.negative, old(regs.sr.flags.extend)))
  {
    var Flags(carry, overflow, zero, negative, extend) := regs.sr.flags;
    var src64 := AddressOperand(size, src);
    var result: LongLong := ToLongLong(dst - src64);
    CmpaTricks(size, src, dst);
    carry := IsCarry(Xor(result, src64), LongSize);
    negative := Msb(result, LongSize);
    zero := IsZero(result, LongSize);
    overflow := IsOverflow(src64, dst, result, LongSize, true);
    regs.sr := regs.sr.(flags := Flags(carry, overflow, zero, negative, extend));
  }

  /** The carry CMPA reports: the borrow, or any negative word source. */
  predicate CmpaCarry(size: Size, src: Long, dst: Long) {
    dst < ToLong(AddressOperand(size, src)) || NegativeWordSource(size, src)
  }

  predicate NegativeWordSource(size: Size, src: Long) {
    size == WordSize && Signed(src, WordSize) < 0
  }

  lemma CmpaTricks(size: Size, src: Long, dst: Long)
    requires size != ByteSize && Fits(src, size)
    ensures var src64 := AddressOperand(size, src);
            var result := ToLongLong(dst - src64);
            var s := Arithmetic(true, LongSize, ToLong(src64), dst, false);
            && Xor(result, src64) < LONGLONG_MODULUS
            && IsCarry(Xor(result, src64), LongSize) == CmpaCarry(size, src, dst)
            && Msb(result, LongSize) == s.negative
            && IsZero(result, LongSize) == s.zero
            && IsOverflow(src64, dst, result, LongSize, true) == s.overflow
  {
    hide IsCarry, Msb, And, Xor, Pow2, CmpaCarry;
    var src64 := AddressOperand(size, src);
    var src32 := ToLong(src64);
    var result := ToLongLong(dst - src64);
    var result32 := ToLongLong(dst - src32);
    Pow2Of64();
    XorBelow(result, src64, 64);
    XorHighZero(result, src64, 32);
    IsCarryMeaning(Xor(result, src64), LongSize);
    AddressResult(size, src, dst);
    TricksAreArithmetic(true, LongSize, src32, dst, false, result32);
    MsbMeaning(result, LongSize);
    MsbMeaning(result32, LongSize);
    MsbMeaning(src64, LongSize);
    MsbMeaning(src32, LongSize);
  }

  /** The wide result and the 32-bit one have the same low half, and the high halves of the
      wide result and source differ exactly when CMPA reports a carry. */
  lemma AddressResult(size: Size, src: Long, dst: Long)
    requires size != ByteSize && Fits(src, size)
    ensures var src64 := AddressOperand(size, src);
            var result := ToLongLong(dst - src64);
            && result % 0x1_0000_0000 == ToLongLong(dst - ToLong(src64)) % 0x1_0000_0000
            && (result / 0x1_0000_0000 != src64 / 0x1_0000_0000 <==> CmpaCarry(size, src, dst))
  {
    SignedMeaning(src, size);
    if NegativeWordSource(size, src) {
      NegativeSource(0x1_0000 - src, dst);
    } else {
      Residue(dst - src, LongSize);
      PlainSource(src, dst);
    }
    hide Signed;
  }

  lemma NegativeSource(k: int, dst: Long)
    requires 0 < k <= 0x8000
    ensures ToLongLong(-k) == LONGLONG_MODULUS - k && ToLong(LONGLONG_MODULUS - k) == 0x1_0000_0000 - k
    ensures ToLongLong(dst - (LONGLONG_MODULUS - k)) == dst + k
    ensures ToLongLong(dst - (0x1_0000_0000 - k)) % 0x1_0000_0000 == (dst + k) % 0x1_0000_0000
    ensures (LONGLONG_MODULUS - k) / 0x1_0000_0000 == 0xFFFF_FFFF != (dst + k) / 0x1_0000_0000
  {
    Residue(dst - (0x1_0000_0000 - k), LongSize);
  }

  lemma PlainSource(src: Long, dst: Long)
    ensures ToLong(src) == src && ToLongLong(src) == src && src / 0x1_0000_0000 == 0
    ensures ToLongLong(dst - src) / 0x1_0000_0000 == 0 <==> dst >= src
  {
    Residue(dst - src, LongSize);
  }

  lemma Pow2Of64()
    ensures Pow2(32) == 0x1_0000_0000 && Pow2(64) == LONGLONG_MODULUS
  {
    Pow2Add(32, 32);
    ModulusIsPow2(LongSize);
  }

  lemma {:induction false} XorBelow(a: nat, b: nat, k: nat)
    requires a < Pow2(k) && b < Pow2(k)
    ensures Xor(a, b) < Pow2(k)
  {
    if k > 0 {
      XorBelow(a / 2, b / 2, k - 1);
    }
  }
}

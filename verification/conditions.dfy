/** Condition tests after a comparison (src/m68k/instruction/execute.cpp:99-138). */
module Conditions {
  import opened Words
  import opened CpuRegisters
  import opened Alu

  datatype Condition =
    | True | False | Higher | LowerOrSame | CarryClear | CarrySet | NotEqual | Equal
    | OverflowClear | OverflowSet | Plus | Minus | GreaterOrEqual | LessThan | GreaterThan | LessOrEqual

  predicate Holds(f: Flags, cond: Condition) {
    match cond
    case True => true
    case False => false
    case Higher => !f.carry && !f.zero
    case LowerOrSame => f.carry || f.zero
    case CarryClear => !f.carry
    case CarrySet => f.carry
    case NotEqual => !f.zero
    case Equal => f.zero
    case OverflowClear => !f.overflow
    case OverflowSet => f.overflow
    case Plus => !f.negative
    case Minus => f.negative
    case GreaterOrEqual => !(f.negative != f.overflow)
    case LessThan => f.negative != f.overflow
    case GreaterThan => (f.negative && f.overflow && !f.zero) || (!f.negative && !f.overflow && !f.zero)
    case LessOrEqual => f.zero || (f.negative && !f.overflow) || (!f.negative && f.overflow)
  }

  /** What a condition says after a comparison: how destination and source stand to each other,
      as unsigned or signed numbers, or whether the signed difference leaves the range, or what
      the sign of the difference is once it is cut to its size. */
  predicate Says(cond: Condition, size: Size, src: Long, dst: Long) {
    var signedSrc, signedDst := Signed(src, size), Signed(dst, size);
    match cond
    case True => true
    case False => false
    case Higher => dst > src
    case LowerOrSame => dst <= src
    case CarryClear => dst >= src
    case CarrySet => dst < src
    case NotEqual => dst != src
    case Equal => dst == src
    case OverflowClear => -size.Half() <= signedDst - signedSrc < size.Half()
    case OverflowSet => signedDst - signedSrc < -size.Half() || signedDst - signedSrc >= size.Half()
    case Plus => Signed(dst - src, size) >= 0
    case Minus => Signed(dst - src, size) < 0
    case GreaterOrEqual => signedDst >= signedSrc
    case LessThan => signedDst < signedSrc
    case GreaterThan => signedDst > signedSrc
    case LessOrEqual => signedDst <= signedSrc
  }

  predicate TestsOrder(f: Flags, cond: Condition, size: Size, src: Long, dst: Long) {
    Holds(f, cond) == Says(cond, size, src, dst)
  }

  function FlagsAfter(s: Step, extend: bool): Flags {
    Flags(s.carry, s.overflow, s.zero, s.negative, extend)
  }

  /** After a comparison every condition holds exactly when what it says is so. */
  lemma CompareTestsOrder(size: Size, src: Long, dst: Long, extend: bool, cond: Condition)
    requires Fits(src, size) && Fits(dst, size)
    ensures TestsOrder(FlagsAfter(Arithmetic(true, size, src, dst, false), extend), cond, size, src, dst)
  {
    ComparisonFlags(size, src, dst);
    hide Arithmetic, Signed;
  }

  /** What the carry, the zero flag and the sign corrected by the overflow say about order. */
  lemma ComparisonFlags(size: Size, src: Long, dst: Long)
    requires Fits(src, size) && Fits(dst, size)
    ensures var s := Arithmetic(true, size, src, dst, false);
            && (s.carry <==> dst < src)
            && (s.zero <==> dst == src)
            && (s.zero <==> Signed(dst, size) == Signed(src, size))
            && (s.negative != s.overflow <==> Signed(dst, size) < Signed(src, size))
            && (s.overflow <==> !(-size.Half() <= Signed(dst, size) - Signed(src, size) < size.Half()))
            && (s.negative <==> Signed(dst - src, size) < 0)
  {
    DifferenceSign(size, src, dst);
    hide Low, Signed, ToLongLong;
    SignedMeaning(src, size);
    SignedMeaning(dst, size);
    Residue(dst - src, size);
    assert size.Modulus() == 2 * size.Half();
  }

  lemma DifferenceSign(size: Size, src: Long, dst: Long)
    ensures Low(dst - src, size) >= size.Half() <==> Signed(dst - src, size) < 0
  {
  }

  function CmpaFlags(size: Size, src: Long, dst: Long, extend: bool): Flags {
    FlagsAfter(Arithmetic(true, LongSize, ToLong(AddressOperand(size, src)), dst, false), extend)
    .(carry := CmpaCarry(size, src, dst))
  }

  predicate UsesCarry(cond: Condition) {
    cond in {Higher, LowerOrSame, CarryClear, CarrySet}
  }

  /** After CMPA a condition is right if and only if it does not look at the carry, or the
      source is not a negative word, or the destination is below the extended source — or it
      is HI or LS on equal operands, where the zero flag decides. */
  lemma CmpaTestsOrderExactly(size: Size, src: Long, dst: Long, extend: bool, cond: Condition)
    requires size != ByteSize && Fits(src, size)
    ensures var wide := ToLong(AddressOperand(size, src));
            TestsOrder(CmpaFlags(size, src, dst, extend), cond, LongSize, wide, dst)
            <==> (!UsesCarry(cond) || !NegativeWordSource(size, src) || dst < wide
                  || (dst == wide && cond in {Higher, LowerOrSame}))
  {
    var wide := ToLong(AddressOperand(size, src));
    CompareTestsOrder(LongSize, wide, dst, extend, cond);
  }

  /** The smallest failing case: equal operands, and CMPA.W still reports a borrow. */
  lemma CmpaWordFails()
    ensures CmpaFlags(WordSize, 0xFFFF, 0xFFFF_FFFF, false).carry
    ensures CmpaFlags(WordSize, 0xFFFF, 0xFFFF_FFFF, false).zero
    ensures !TestsOrder(CmpaFlags(WordSize, 0xFFFF, 0xFFFF_FFFF, false), CarrySet, LongSize, 0xFFFF_FFFF, 0xFFFF_FFFF)
  {
    assert Signed(0xFFFF, WordSize) == -1;
    hide Arithmetic, Signed;
    CompareTestsOrder(LongSize, 0xFFFF_FFFF, 0xFFFF_FFFF, false, Equal);
    CmpaTestsOrderExactly(WordSize, 0xFFFF, 0xFFFF_FFFF, false, CarrySet);
  }

  /** CMP followed by a condition test, as a conditional branch performs it. */
  method CompareThenTest(regs: Registers, size: Size, src: Long, dst: Long, cond: Condition) returns (taken: bool)
    requires Fits(src, size) && Fits(dst, size)
    modifies regs`sr
    ensures taken == Says(cond, size, src, dst)
  {
    var written := ExecuteBinary(regs, Cmp, size, src, dst);
    CompareTestsOrder(size, src, dst, old(regs.sr.flags.extend), cond);
    taken := Holds(regs.sr.flags, cond);
  }
}

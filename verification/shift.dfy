/** Shift and rotate instructions: ASL, ASR, LSL, LSR, ROL, ROR, ROXL and ROXR
    (src/m68k/instruction/execute.cpp:466-552).

    The source moves one bit per iteration of one loop, in an unmasked 64-bit value.  The loop
    is proved against closed forms: products and floor divisions by powers of two, and
    rotations of n bits, or of n + 1 bits including the extend flag.
 */
module Shift {
  import opened Words
  import opened CpuRegisters
  import opened Alu
  import opened Rotations

  datatype Kind = Asl | Asr | Lsl | Lsr | Rol | Ror | Roxl | Roxr {
    predicate Arithmetic() { Asl? || Asr? }
    predicate Rotate() { Rol? || Ror? }
    predicate ExtendRotate() { Roxl? || Roxr? }
    predicate Left() { Asl? || Lsl? || Rol? || Roxl? }
  }

  // ---------------------------------------------------------------- closed forms

  /** The operand with the extend flag above it. */
  function Wide(size: Size, x: bool, v: Long): nat {
    B2I(x) * size.Modulus() + v
  }

  function WideAfter(kind: Kind, size: Size, d: Long, x: bool, k: nat): nat {
    if kind == Roxl then Rotated(size.Bits() + 1, Wide(size, x, d), k)
    else RotatedRight(size.Bits() + 1, Wide(size, x, d), k)
  }

  /** The value after k single-bit steps. */
  function ValueAfter(kind: Kind, size: Size, d: Long, x: bool, k: nat): int {
    match kind
    case Asl => Low(d * Pow2(k), size)
    case Lsl => Low(d * Pow2(k), size)
    case Lsr => d / Pow2(k)
    case Asr => Low(Signed(d, size) / Pow2(k), size)
    case Rol => Rotated(size.Bits(), d, k)
    case Ror => RotatedRight(size.Bits(), d, k)
    case Roxl => Low(WideAfter(kind, size, d, x, k), size)
    case Roxr => Low(WideAfter(kind, size, d, x, k), size)
  }

  /** The last bit moved out by k >= 1 steps: the carry.  ASR reports zero once the count
      exceeds the width. */
  predicate LastBit(kind: Kind, size: Size, d: Long, x: bool, k: nat)
    requires k >= 1
  {
    match kind
    case Asl => k <= size.Bits() && Bit(d, size.Bits() - k)
    case Lsl => k <= size.Bits() && Bit(d, size.Bits() - k)
    case Lsr => Bit(d, k - 1)
    case Asr => k <= size.Bits() && Bit(Signed(d, size), k - 1)
    case Rol => ValueAfter(kind, size, d, x, k) % 2 == 1
    case Ror => ValueAfter(kind, size, d, x, k) >= size.Half()
    case Roxl => WideAfter(kind, size, d, x, k) >= size.Modulus()
    case Roxr => WideAfter(kind, size, d, x, k) >= size.Modulus()
  }

  /** The extend flag inside the loop: only the extended rotations change it there. */
  predicate ExtendAfter(kind: Kind, size: Size, d: Long, x: bool, k: nat) {
    if kind.ExtendRotate() then WideAfter(kind, size, d, x, k) >= size.Modulus() else x
  }

  /** Signed multiplication by 2^k leaves the signed range. */
  predicate ProductOverflows(size: Size, d: Long, k: nat) {
    var product := Signed(d, size) * Pow2(k);
    product < -size.Half() || product >= size.Half()
  }

  /** The flags the instruction leaves for a count of k. */
  function FlagsAfter(kind: Kind, size: Size, d: Long, x: bool, k: nat): Flags {
    var v := ValueAfter(kind, size, d, x, k);
    var carry := if k > 0 then LastBit(kind, size, d, x, k) else kind.ExtendRotate() && x;
    var extend := if k == 0 || kind.Rotate() then x
                  else if kind.ExtendRotate() then ExtendAfter(kind, size, d, x, k)
                  else carry;
    Flags(carry, kind == Asl && ProductOverflows(size, d, k), v == 0, v >= size.Half(), extend)
  }

  // ---------------------------------------------------------------- one step

  ghost predicate Inv(kind: Kind, size: Size, d: Long, x: bool, i: nat, result: LongLong, extend: bool) {
    && Low(result, size) == ValueAfter(kind, size, d, x, i)
    && (!kind.Left() ==> result < size.Modulus())
    && extend == ExtendAfter(kind, size, d, x, i)
  }

  lemma LowIsMod(v: int, size: Size)
    ensures Low(v, size) == v % size.Modulus()
  {
  }

  lemma LowOf(v: int, size: Size, q: int, r: int)
    requires 0 <= r < size.Modulus() && v == size.Modulus() * q + r
    ensures Low(v, size) == r
  {
    LowIsMod(v, size);
    hide Low, Size.Modulus;
    DivUnique(v, size.Modulus(), q, r);
  }

  lemma LowParts(v: int, size: Size) returns (q: int)
    ensures v == size.Modulus() * q + Low(v, size)
  {
    LowIsMod(v, size);
    hide Low, Size.Modulus;
    q := v / size.Modulus();
  }

  lemma LowCongruent(v: int, w: int, size: Size, q: int)
    requires v == size.Modulus() * q + w
    ensures Low(v, size) == Low(w, size)
  {
    hide Low, Size.Modulus;
    var q' := LowParts(w, size);
    assert v == size.Modulus() * (q + q') + Low(w, size);
    LowOf(v, size, q + q', Low(w, size));
  }

  lemma LowDouble(result: LongLong, bit: int, size: Size)
    requires 0 <= bit <= 1
    ensures 0 <= ToLongLong(2 * result) + bit < LONGLONG_MODULUS
    ensures Low(ToLongLong(2 * result) + bit, size) == Low(2 * Low(result, size) + bit, size)
  {
    hide Low;
    var dropped := if 2 * result < LONGLONG_MODULUS then 0 else 1;
    assert ToLongLong(2 * result) == 2 * result - LONGLONG_MODULUS * dropped;
    hide Size.Modulus, ToLongLong;
    var a := LowParts(result, size);
    var q := TopModulus(size);
    TwiceCongruent(size.Modulus(), a, Low(result, size), q, dropped);
    LowCongruent(ToLongLong(2 * result) + bit, 2 * Low(result, size) + bit, size, 2 * a - q * dropped);
  }

  lemma TopModulus(size: Size) returns (q: int)
    ensures size.Modulus() * q == LONGLONG_MODULUS
  {
    q := match size
      case ByteSize => 0x100_0000_0000_0000
      case WordSize => 0x1_0000_0000_0000
      case LongSize => 0x1_0000_0000;
  }

  lemma TwiceCongruent(m: int, a: int, low: int, q: int, dropped: int)
    ensures 2 * (m * a + low) - m * q * dropped == m * (2 * a - q * dropped) + 2 * low
  {
  }

  /** Left shift: the value doubles and bit n - 1 - i of the operand reaches the top. */
  lemma LeftStep(size: Size, d: Long, i: nat)
    requires Fits(d, size)
    ensures Low(2 * Low(d * Pow2(i), size), size) == Low(d * Pow2(i + 1), size)
    ensures Low(d * Pow2(i), size) >= size.Half() <==> i + 1 <= size.Bits() && Bit(d, size.Bits() - (i + 1))
  {
    hide Low, Size.Half, Size.Modulus, Bit;
    DoubledLow(size, d * Pow2(i), d * Pow2(i + 1));
    HalfModulus(size);
    if i < size.Bits() {
      TopBit(size, d, i);
    } else {
      ShiftedOut(size, d, i);
    }
  }

  lemma DoubledLow(size: Size, v: int, v2: int)
    requires v2 == 2 * v
    ensures Low(2 * Low(v, size), size) == Low(v2, size)
  {
    hide Low;
    var q := LowParts(v, size);
    LowCongruent(v2, 2 * Low(v, size), size, 2 * q);
  }

  lemma ShiftedOut(size: Size, d: Long, i: nat)
    requires i >= size.Bits()
    ensures Low(d * Pow2(i), size) == 0
  {
    hide *;
    ModulusIsPow2(size);
    HalfModulus(size);
    var p := Pow2(i - size.Bits());
    Pow2Add(size.Bits(), i - size.Bits());
    MulSwap(d, size.Modulus(), p);
    LowOf(d * Pow2(i), size, d * p, 0);
  }

  lemma MulSwap(a: int, b: int, c: int)
    ensures a * (b * c) == b * (a * c)
  {
  }

  lemma TopBit(size: Size, d: Long, i: nat)
    requires Fits(d, size) && i < size.Bits()
    ensures Low(d * Pow2(i), size) >= size.Half() <==> Bit(d, size.Bits() - (i + 1))
  {
    hide Low, Size.Half, Size.Modulus, Size.Bits, Pow2;
    var r := Pow2(size.Bits() - (i + 1));
    var hi, lo := Split(d, r);
    ModulusIsPow2(size);
    HalfModulus(size);
    Pow2Add(size.Bits() - (i + 1), i);
    assert r * Pow2(i) == size.Half();
    ScaleParts(d, r, hi, lo, Pow2(i));
    assert d * Pow2(i) == size.Half() * hi + lo * Pow2(i);
    TopBitOf(size, d * Pow2(i), hi, lo * Pow2(i));
  }

  lemma TopBitOf(size: Size, v: int, hi: nat, rest: nat)
    requires v == size.Half() * hi + rest && rest < size.Half()
    ensures Low(v, size) >= size.Half() <==> hi % 2 == 1
  {
    HalfModulus(size);
    hide Low, Size.Half, Size.Modulus;
    var h := size.Half();
    var q, b := hi / 2, hi % 2;
    assert h * hi == (2 * h) * q + h * b;
    LowOf(v, size, q, h * b + rest);
  }

  lemma HalfModulus(size: Size)
    ensures size.Modulus() == 2 * size.Half() && 0 < size.Modulus() <= 0x1_0000_0000 && size.Bits() >= 8
  {
  }

  /** Arithmetic right shift: halving rounds down, and keeps the sign. */
  lemma ArithmeticRightStep(size: Size, d: Long, i: nat)
    ensures var v := Low(Signed(d, size) / Pow2(i), size);
            var v' := Low(Signed(d, size) / Pow2(i + 1), size);
            && v' == v / 2 + (if v >= size.Half() then size.Half() else 0)
            && (v % 2 == 1 <==> Bit(Signed(d, size), i))
            && (v' >= size.Half() <==> v >= size.Half())
  {
    var s := Signed(d, size);
    DivideAgain(s, i);
    QuotientInRange(s, Pow2(i), size.Half());
    HalvedSigned(s / Pow2(i), size);
  }

  lemma QuotientInRange(s: int, p: int, half: int)
    requires p >= 1 && -half <= s < half
    ensures -half <= s / p < half
  {
    var q, r := s / p, s % p;
    assert s == p * q + r;
    MulGrows(p, q);
    MulGrows(p, -(q + 1));
    assert p * -(q + 1) == -(p * q) - p;
  }

  lemma MulGrows(p: int, q: int)
    requires p >= 1
    ensures q >= 0 ==> p * q >= q
  {
    if q >= 0 {
      assert p * q == (p - 1) * q + q;
      assert (p - 1) * q >= 0;
    }
  }

  lemma HalvedSigned(s: int, size: Size)
    requires -size.Half() <= s < size.Half()
    ensures var v := Low(s, size);
            var v' := Low(s / 2, size);
            && v' == v / 2 + (if v >= size.Half() then size.Half() else 0)
            && (v % 2 == 1 <==> s % 2 == 1)
            && (v' >= size.Half() <==> v >= size.Half())
  {
    HalfModulus(size);
    hide Low, Size.Half, Size.Modulus;
    LowSigned(s, size);
    LowSigned(s / 2, size);
  }

  lemma LowSigned(s: int, size: Size)
    requires -size.Half() <= s < size.Half()
    ensures Low(s, size) == if s >= 0 then s else s + size.Modulus()
  {
    match size {
      case ByteSize =>
      case WordSize =>
      case LongSize =>
    }
  }

  /** Rotation by one to the left, of n bits and of n + 1 bits. */
  lemma RolStep(size: Size, v: Long)
    requires Fits(v, size)
    ensures Low(2 * v + B2I(v >= size.Half()), size) == RotL1(size.Bits(), v)
    ensures RotL1(size.Bits(), v) % 2 == 1 <==> v >= size.Half()
  {
    hide Low, Size.Half, Size.Modulus, RotL1, Pow2, Size.Bits;
    ModulusIsPow2(size);
    HalfModulus(size);
    var top := B2I(v >= size.Half());
    var rest := if v >= size.Half() then v - size.Half() else v;
    RotL1Parts(size.Bits(), top, rest);
    assert v == Pow2(size.Bits() - 1) * top + rest;
    LowOf(2 * v + top, size, top, 2 * rest + top);
  }

  lemma RoxlStep(size: Size, v: Long, x: bool)
    requires Fits(v, size)
    ensures var w := RotL1(size.Bits() + 1, Wide(size, x, v));
            && w == 2 * v + B2I(x)
            && (w >= size.Modulus() <==> v >= size.Half())
  {
    ModulusIsPow2(size);
    HalfModulus(size);
    hide Size.Modulus, Size.Half, Size.Bits, Pow2, RotL1;
    RotL1Parts(size.Bits() + 1, B2I(x), v);
    assert Wide(size, x, v) == size.Modulus() * B2I(x) + v;
  }

  lemma RorStep(size: Size, v: Long)
    requires Fits(v, size)
    ensures v / 2 + B2I(v % 2 == 1) * size.Half() == RotR1(size.Bits(), v)
    ensures RotR1(size.Bits(), v) >= size.Half() <==> v % 2 == 1
    ensures RotR1(size.Bits(), v) < size.Modulus()
  {
    ModulusIsPow2(size);
    HalfModulus(size);
  }

  lemma RoxrStep(size: Size, v: Long, x: bool)
    requires Fits(v, size)
    ensures 0 <= v / 2 + B2I(x) * size.Half() < size.Modulus()
    ensures RotR1(size.Bits() + 1, Wide(size, x, v)) == Wide(size, v % 2 == 1, v / 2 + B2I(x) * size.Half())
  {
    ModulusIsPow2(size);
    HalfModulus(size);
    hide Size.Half, Size.Modulus, Pow2, Size.Bits;
    var high := if x then size.Half() else 0;
    assert B2I(x) * size.Half() == high;
    assert Wide(size, x, v) == 2 * high + v;
  }

  lemma WideOf(size: Size, top: bool, v: Long)
    requires Fits(v, size)
    ensures Low(Wide(size, top, v), size) == v
    ensures Wide(size, top, v) >= size.Modulus() <==> top
  {
    hide Low, Size.Modulus;
    LowOf(Wide(size, top, v), size, B2I(top), v);
  }

  /** A wide number is its top bit and its low bits. */
  lemma WideParts(size: Size, w: nat)
    requires w < 2 * size.Modulus()
    ensures w == Wide(size, w >= size.Modulus(), Low(w, size))
  {
    LowOf(w, size, B2I(w >= size.Modulus()), w - B2I(w >= size.Modulus()) * size.Modulus());
  }

  lemma WideStart(size: Size, d: Long, x: bool)
    requires Fits(d, size)
    ensures Wide(size, x, d) < Pow2(size.Bits() + 1) == 2 * size.Modulus()
    ensures Low(Wide(size, x, d), size) == d
    ensures Wide(size, x, d) >= size.Modulus() <==> x
  {
    ModulusIsPow2(size);
    LowOf(Wide(size, x, d), size, B2I(x), d);
  }

  // ---------------------------------------------------------------- the loop's steps

  lemma Start(kind: Kind, size: Size, d: Long, x: bool)
    requires Fits(d, size)
    ensures Inv(kind, size, d, x, 0, d, x)
  {
    hide Low, Size.Half, Size.Modulus, Size.Bits, Wide, RotatedRight, Rotated, Signed;
    ModulusIsPow2(size);
    HalfModulus(size);
    WideStart(size, d, x);
    RotatedStart(size.Bits(), d);
    RotatedStart(size.Bits() + 1, Wide(size, x, d));
    SignedStart(size, d);
  }

  lemma RotatedStart(w: nat, v: nat)
    requires w >= 1 && v < Pow2(w)
    ensures Rotated(w, v, 0) == v && RotatedRight(w, v, 0) == v
  {
    hide Rotated, Pow2;
    WholeTurns(w);
    RotatedZero(w, v, 0);
    RotatedZero(w, v, w);
  }

  lemma SignedStart(size: Size, d: Long)
    requires Fits(d, size)
    ensures Low(Signed(d, size) / Pow2(0), size) == d
  {
    SignedMeaning(d, size);
    hide Low, Signed, Size.Modulus, Size.Half;
    LowCongruent(Signed(d, size), d, size, if d < size.Half() then 0 else -1);
  }

  lemma ShiftLeftStep(kind: Kind, size: Size, d: Long, x: bool, i: nat, result: LongLong)
    requires Fits(d, size) && (kind == Asl || kind == Lsl) && Inv(kind, size, d, x, i, result, x)
    ensures Inv(kind, size, d, x, i + 1, ToLongLong(2 * result), x)
    ensures Msb(result, size) == LastBit(kind, size, d, x, i + 1)
    ensures ProductOverflows(size, d, i + 1)
            <==> ProductOverflows(size, d, i) || Msb(result, size) != Msb(ToLongLong(2 * result), size)
  {
    hide Low, ToLongLong, Msb, Bit, Pow2, Size.Half, Size.Modulus, ProductOverflows;
    LowDouble(result, 0, size);
    MsbMeaning(result, size);
    MsbMeaning(ToLongLong(2 * result), size);
    LeftStep(size, d, i);
    OverflowStep(size, d, i);
  }

  lemma RotateLeftStep(size: Size, d: Long, x: bool, i: nat, result: LongLong)
    requires Fits(d, size) && Inv(Rol, size, d, x, i, result, x)
    ensures ToLongLong(2 * result) + B2I(Msb(result, size)) < LONGLONG_MODULUS
    ensures Inv(Rol, size, d, x, i + 1, ToLongLong(2 * result) + B2I(Msb(result, size)), x)
    ensures Msb(result, size) == LastBit(Rol, size, d, x, i + 1)
  {
    hide Low, ToLongLong, Msb, Size.Half, Size.Modulus, Rotated, RotL1, Pow2, Size.Bits;
    HalfModulus(size);
    LowDouble(result, B2I(Msb(result, size)), size);
    MsbMeaning(result, size);
    ModulusIsPow2(size);
    RolStep(size, Low(result, size));
    RotatedStep(size.Bits(), d, i);
  }

  lemma ExtendLeftStep(size: Size, d: Long, x: bool, i: nat, result: LongLong, extend: bool)
    requires Fits(d, size) && Inv(Roxl, size, d, x, i, result, extend)
    ensures ToLongLong(2 * result) + B2I(extend) < LONGLONG_MODULUS
    ensures Inv(Roxl, size, d, x, i + 1, ToLongLong(2 * result) + B2I(extend), Msb(result, size))
    ensures Msb(result, size) == LastBit(Roxl, size, d, x, i + 1)
  {
    hide Low, ToLongLong, Msb, Size.Half, Size.Modulus, Rotated, RotL1, Wide, Pow2;
    LowDouble(result, B2I(extend), size);
    MsbMeaning(result, size);
    WideStart(size, d, x);
    var n := size.Bits() + 1;
    RotatedStep(n, Wide(size, x, d), i);
    WideParts(size, Rotated(n, Wide(size, x, d), i));
    RoxlStep(size, Low(result, size), extend);
  }

  lemma ShiftRightStep(size: Size, d: Long, x: bool, i: nat, result: LongLong)
    requires Fits(d, size) && Inv(Lsr, size, d, x, i, result, x)
    ensures Inv(Lsr, size, d, x, i + 1, result / 2, x)
    ensures (result % 2 == 1) == LastBit(Lsr, size, d, x, i + 1)
  {
    DivideAgain(d, i);
  }

  lemma ArithmeticRightInv(size: Size, d: Long, x: bool, i: nat, result: LongLong)
    requires Fits(d, size) && Inv(Asr, size, d, x, i, result, x)
    ensures var r := result / 2 + (if Msb(result, size) then size.Half() else 0);
            && 0 <= r < size.Modulus() && r < LONGLONG_MODULUS
            && Inv(Asr, size, d, x, i + 1, r, x)
            && Msb(r, size) == Msb(result, size)
    ensures (i < size.Bits() && result % 2 == 1) == LastBit(Asr, size, d, x, i + 1)
  {
    hide Low, Msb, Bit, Pow2;
    HalfModulus(size);
    MsbMeaning(result, size);
    var r := result / 2 + (if Msb(result, size) then size.Half() else 0);
    MsbMeaning(r, size);
    ArithmeticRightStep(size, d, i);
  }

  lemma RotateRightStep(size: Size, d: Long, x: bool, i: nat, result: LongLong)
    requires Fits(d, size) && Inv(Ror, size, d, x, i, result, x)
    ensures var r := result / 2 + B2I(result % 2 == 1) * size.Half();
            0 <= r < size.Modulus() && r < LONGLONG_MODULUS && Inv(Ror, size, d, x, i + 1, r, x)
    ensures (result % 2 == 1) == LastBit(Ror, size, d, x, i + 1)
  {
    hide Low, Size.Half, Size.Modulus, RotatedRight, RotR1, Pow2, Size.Bits;
    HalfModulus(size);
    ModulusIsPow2(size);
    RorStep(size, result);
    RotatedRightStep(size.Bits(), d, i);
  }

  lemma ExtendRightStep(size: Size, d: Long, x: bool, i: nat, result: LongLong, extend: bool)
    requires Fits(d, size) && Inv(Roxr, size, d, x, i, result, extend)
    ensures var r := result / 2 + B2I(extend) * size.Half();
            0 <= r < size.Modulus() && r < LONGLONG_MODULUS && Inv(Roxr, size, d, x, i + 1, r, result % 2 == 1)
    ensures (result % 2 == 1) == LastBit(Roxr, size, d, x, i + 1)
  {
    hide Low, Size.Half, Size.Modulus, RotatedRight, RotR1, Wide, Pow2, Size.Bits;
    HalfModulus(size);
    WideStart(size, d, x);
    var n := size.Bits() + 1;
    RotatedRightStep(n, Wide(size, x, d), i);
    WideParts(size, RotatedRight(n, Wide(size, x, d), i));
    RoxrStep(size, result, extend);
    WideOf(size, result % 2 == 1, result / 2 + B2I(extend) * size.Half());
  }

  // ---------------------------------------------------------------- overflow of ASL

  lemma NoOverflowYet(size: Size, d: Long, i: nat)
    requires !ProductOverflows(size, d, i)
    requires Fits(d, size)
    ensures Signed(Low(d * Pow2(i), size), size) == Signed(d, size) * Pow2(i)
  {
    var s := Signed(d, size);
    var p := Pow2(i);
    assert d == s + (if d < size.Half() then 0 else size.Modulus());
    var q := if d < size.Half() then 0 else p;
    assert d * p == size.Modulus() * q + s * p;
    LowCongruent(d * p, s * p, size, q);
    SignedOfLow(s * p, size);
  }

  lemma SignedOfLow(s: int, size: Size)
    requires -size.Half() <= s < size.Half()
    ensures Signed(Low(s, size), size) == s
  {
    match size {
      case ByteSize =>
      case WordSize =>
      case LongSize =>
    }
  }

  lemma DoublingOverflow(v: Long, size: Size)
    requires Fits(v, size)
    ensures (v >= size.Half()) != (Low(2 * v, size) >= size.Half())
            <==> 2 * Signed(v, size) < -size.Half() || 2 * Signed(v, size) >= size.Half()
  {
    match size {
      case ByteSize =>
      case WordSize =>
      case LongSize =>
    }
  }

  /** The sign bit changes in step i + 1, or changed before, exactly when the product by
      2^(i+1) is out of range. */
  lemma OverflowStep(size: Size, d: Long, i: nat)
    requires Fits(d, size)
    ensures ProductOverflows(size, d, i + 1)
            <==> ProductOverflows(size, d, i)
                 || (Low(d * Pow2(i), size) >= size.Half()) != (Low(d * Pow2(i + 1), size) >= size.Half())
  {
    hide Low, Signed, Bit, Size.Half, Size.Modulus;
    LeftStep(size, d, i);
    HalfModulus(size);
    assert Signed(d, size) * Pow2(i + 1) == 2 * (Signed(d, size) * Pow2(i));
    if !ProductOverflows(size, d, i) {
      NoOverflowYet(size, d, i);
      DoublingOverflow(Low(d * Pow2(i), size), size);
    }
  }

  lemma NoShiftNoOverflow(size: Size, d: Long)
    ensures !ProductOverflows(size, d, 0)
  {
  }

  // ---------------------------------------------------------------- the instruction

  /** The count: taken from a register modulo 64, or from the opcode where zero means eight. */
  function Rotation(src: Option<Long>, data: nat): (r: nat)
    ensures data <= 8 ==> r < 64
  {
    match src
    case Some(v) => v % 64
    case None => if data != 0 then data else 8
  }

  /** Counts 1 to 8 are encoded modulo 8 in an opcode; of a register the low six bits count. */
  lemma CountsReadBack(count: nat, q: nat, low: nat, data: nat)
    requires 1 <= count <= 8 && low < 64 && 64 * q + low < 0x1_0000_0000
    ensures Rotation(None, count % 8) == count && Rotation(Some(64 * q + low), data) == low
  {
    DivUnique(64 * q + low, 64, q, low);
  }

  /** The final flags, once the loop has done its work. */
  lemma Finish(kind: Kind, size: Size, d: Long, x: bool, k: nat, result: LongLong, extend: bool, last: bool,
               overflow: bool)
    requires Inv(kind, size, d, x, k, result, extend)
    requires k > 0 ==> last == LastBit(kind, size, d, x, k)
    requires k == 0 ==> extend == x
    requires overflow == (kind == Asl && ProductOverflows(size, d, k))
    ensures Low(result, size) == ValueAfter(kind, size, d, x, k)
    ensures var carry := if k > 0 then last else kind.ExtendRotate() && extend;
            FlagsAfter(kind, size, d, x, k)
            == Flags(carry, overflow, IsZero(result, size), Msb(result, size),
                     if k > 0 && !kind.Rotate() && !kind.ExtendRotate() then last else extend)
  {
    hide Low, Msb, ValueAfter, LastBit, WideAfter, ProductOverflows, Size.Half, Size.Modulus;
    MsbMeaning(result, size);
  }

  method ExecuteShift(regs: Registers, kind: Kind, size: Size, dst: Long, rotation: nat) returns (written: Long)
    requires Fits(dst, size) && rotation < 64
    modifies regs`sr
    ensures written == ValueAfter(kind, size, dst, old(regs.sr.flags.extend), rotation)
    ensures regs.sr == old(regs.sr).(flags := FlagsAfter(kind, size, dst, old(regs.sr.flags.extend), rotation))
  {
    hide Inv, LastBit, ProductOverflows, Msb, IsZero, Low, FlagsAfter, ValueAfter;
    ghost var x := regs.sr.flags.extend;
    var result, extend, last, hasOverflow := ShiftLoop(kind, size, dst, regs.sr.flags.extend, rotation);
    written := Low(result, size);
    Finish(kind, size, dst, x, rotation, result, extend, last, kind.Arithmetic() && hasOverflow);
    var negative := Msb(result, size);
    var zero := IsZero(result, size);
    var overflow := kind.Arithmetic() && hasOverflow;
    var carry;
    if rotation == 0 {
      carry := false;
      if kind.ExtendRotate() {
        carry := extend;
      }
    } else {
      if !kind.Rotate() && !kind.ExtendRotate() {
        extend := last;
      }
      carry := last;
    }
    regs.sr := regs.sr.(flags := Flags(carry, overflow, zero, negative, extend));
  }

  /** The loop of the instruction.  The source combines the moved bits with `|`; they are
      added here, because the position they go to has just been cleared by the shift. */
  method ShiftLoop(kind: Kind, size: Size, dst: Long, x: bool, rotation: nat)
    returns (result: LongLong, extend: bool, last: bool, hasOverflow: bool)
    requires Fits(dst, size) && rotation < 64
    ensures Inv(kind, size, dst, x, rotation, result, extend)
    ensures rotation > 0 ==> last == LastBit(kind, size, dst, x, rotation)
    ensures rotation == 0 ==> extend == x
    ensures kind.Arithmetic() ==> hasOverflow == (kind == Asl && ProductOverflows(size, dst, rotation))
  {
    hide Inv, LastBit, ProductOverflows, Msb, ToLongLong, Low, Size.Half, Size.Bits;
    NoShiftNoOverflow(size, dst);
    result, extend, last, hasOverflow := dst, x, false, false;
    var curMsb := Msb(result, size);
    Start(kind, size, dst, x);
    var i := 0;
    while i < rotation
      invariant 0 <= i <= rotation
      invariant Inv(kind, size, dst, x, i, result, extend)
      invariant !kind.ExtendRotate() || i == 0 ==> extend == x
      invariant i > 0 ==> last == LastBit(kind, size, dst, x, i)
      invariant curMsb == Msb(result, size)
      invariant kind.Arithmetic() ==> hasOverflow == (kind == Asl && ProductOverflows(size, dst, i))
    {
      if kind.Left() {
        last := Msb(result, size);
        if kind.Rotate() {
          RotateLeftStep(size, dst, x, i, result);
          result := ToLongLong(2 * result) + B2I(last);
        } else if kind.ExtendRotate() {
          ExtendLeftStep(size, dst, x, i, result, extend);
          result := ToLongLong(2 * result) + B2I(extend);
          extend := last;
        } else {
          ShiftLeftStep(kind, size, dst, x, i, result);
          result := ToLongLong(2 * result);
        }
      } else {
        if i >= size.Bits() && kind.Arithmetic() {
          last := false;
        } else {
          last := result % 2 == 1;
        }
        if kind.Arithmetic() {
          ArithmeticRightInv(size, dst, x, i, result);
          result := result / 2 + (if Msb(result, size) then size.Half() else 0);
        } else if kind.Rotate() {
          RotateRightStep(size, dst, x, i, result);
          result := result / 2 + B2I(last) * size.Half();
        } else if kind.ExtendRotate() {
          ExtendRightStep(size, dst, x, i, result, extend);
          result := result / 2 + B2I(extend) * size.Half();
          extend := last;
        } else {
          ShiftRightStep(size, dst, x, i, result);
          result := result / 2;
        }
      }
      var newMsb := Msb(result, size);
      if curMsb != newMsb {
        hasOverflow := true;
      }
      curMsb := newMsb;
      i := i + 1;
    }
  }

  // ---------------------------------------------------------------- what the closed forms give

  /** ROXR by any count undoes ROXL by it, the extend flag included. */
  lemma RoxrUndoesRoxl(size: Size, d: Long, x: bool, k: nat)
    requires Fits(d, size)
    ensures var v := ValueAfter(Roxl, size, d, x, k);
            var x' := ExtendAfter(Roxl, size, d, x, k);
            && Fits(v, size)
            && ValueAfter(Roxr, size, v, x', k) == d
            && ExtendAfter(Roxr, size, v, x', k) == x
  {
    hide Low, Size.Half, Size.Modulus, Size.Bits, Pow2, Wide, Rotated, RotatedRight;
    WideStart(size, d, x);
    var w := size.Bits() + 1;
    var wide := Wide(size, x, d);
    RotatedStep(w, wide, k);
    WideParts(size, Rotated(w, wide, k));
    RotateRoundTrip(w, wide, k);
  }

  /** ROR by any count undoes ROL by it. */
  lemma RorUndoesRol(size: Size, d: Long, x: bool, k: nat)
    requires Fits(d, size)
    ensures var v := ValueAfter(Rol, size, d, x, k);
            Fits(v, size) && ValueAfter(Ror, size, v, x, k) == d
  {
    hide Low, Size.Half, Size.Modulus, Pow2, Rotated, RotatedRight;
    ModulusIsPow2(size);
    RotatedStep(size.Bits(), d, k);
    RotateRoundTrip(size.Bits(), d, k);
  }

  /** With the overflow flag clear, ASL is multiplication of the signed operand by 2^k. */
  lemma AslMultiplies(size: Size, d: Long, x: bool, k: nat)
    requires Fits(d, size)
    ensures !FlagsAfter(Asl, size, d, x, k).overflow
            <==> Signed(ValueAfter(Asl, size, d, x, k), size) == Signed(d, size) * Pow2(k)
  {
    hide Low, Signed;
    if !ProductOverflows(size, d, k) {
      NoOverflowYet(size, d, k);
    }
  }

  /** ASR divides the signed operand by 2^k, rounding down. */
  lemma AsrDivides(size: Size, d: Long, x: bool, k: nat)
    requires Fits(d, size)
    ensures Signed(ValueAfter(Asr, size, d, x, k), size) == Signed(d, size) / Pow2(k)
  {
    hide Low, Signed;
    QuotientInRange(Signed(d, size), Pow2(k), size.Half());
    SignedOfLow(Signed(d, size) / Pow2(k), size);
  }

  /** The carry of ASR is the last bit moved out if and only if the count does not exceed the
      width or the operand is not negative. */
  lemma AsrCarryExactly(size: Size, d: Long, x: bool, k: nat)
    requires Fits(d, size) && k >= 1
    ensures FlagsAfter(Asr, size, d, x, k).carry == Bit(Signed(d, size), k - 1)
            <==> k <= size.Bits() || d < size.Half()
  {
    if k > size.Bits() {
      SignOnly(size, d, k - 1);
    }
  }

  /** Beyond the width only copies of the sign are left. */
  lemma SignOnly(size: Size, d: Long, j: nat)
    requires Fits(d, size) && j >= size.Bits()
    ensures Bit(Signed(d, size), j) <==> d >= size.Half()
  {
    ModulusIsPow2(size);
    Pow2Monotonic(size.Bits(), j);
    SignedMeaning(d, size);
    HalfModulus(size);
    var s := Signed(d, size);
    hide Signed, Low, Size.Half, Size.Modulus, Size.Bits, Pow2;
    if d >= size.Half() {
      DivUnique(s, Pow2(j), -1, s + Pow2(j));
    } else {
      DivUnique(s, Pow2(j), 0, s);
    }
  }

  /** ASR.B of -1 by 9: the bit moved out is the sign, the reported carry is clear. */
  lemma AsrCarryFails()
    ensures !FlagsAfter(Asr, ByteSize, 0xFF, false, 9).carry
    ensures Bit(Signed(0xFF, ByteSize), 8)
  {
    SignOnly(ByteSize, 0xFF, 8);
  }
}

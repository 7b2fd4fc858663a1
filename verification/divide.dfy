/** Multiplication and division (src/m68k/instruction/execute.cpp:1010-1081). */
module Divide {
  import opened Words
  import opened CpuRegisters
  import opened Alu
  import opened Frames

  /** An operand as the instruction reads it. */
  function Operand(signed: bool, v: Long, size: Size): int {
    if signed then Signed(v, size) else v
  }

  /** The source divides -2^31 by -1 without a result the language defines. */
  predicate Undefined(signed: bool, src: Word, dst: Long) {
    signed && dst == 0x8000_0000 && src == 0xFFFF
  }

  function Quotient(signed: bool, src: Word, dst: Long): int
    requires src != 0
  {
    OperandNonzero(signed, src);
    TruncDiv(Operand(signed, dst, LongSize), Operand(signed, src, WordSize))
  }

  function Remainder(signed: bool, src: Word, dst: Long): int
    requires src != 0
  {
    Operand(signed, dst, LongSize) - Operand(signed, src, WordSize) * Quotient(signed, src, dst)
  }

  lemma OperandNonzero(signed: bool, src: Word)
    ensures Operand(signed, src, WordSize) == 0 <==> src == 0
  {
  }

  /** That is exactly the case in which the quotient does not fit in 32 bits. */
  lemma UndefinedExactly(signed: bool, src: Word, dst: Long)
    requires src != 0
    ensures Undefined(signed, src, dst)
            <==> signed && !(-0x8000_0000 <= Quotient(signed, src, dst) < 0x8000_0000)
  {
    if signed {
      OperandNonzero(signed, src);
      QuotientLeaves(Signed(dst, LongSize), Signed(src, WordSize));
      SignedIs(src, dst);
    }
    hide TruncDiv, Signed;
  }

  lemma SignedIs(src: Word, dst: Long)
    ensures Signed(src, WordSize) == -1 <==> src == 0xFFFF
    ensures Signed(dst, LongSize) == -0x8000_0000 <==> dst == 0x8000_0000
  {
  }

  lemma QuotientLeaves(a: int, b: int)
    requires -0x8000_0000 <= a < 0x8000_0000 && b != 0
    ensures TruncDiv(a, b) < -0x8000_0000 || TruncDiv(a, b) >= 0x8000_0000 <==> a == -0x8000_0000 && b == -1
  {
    TruncFacts(a, b);
    if a == -0x8000_0000 && b < -1 {
      HalvedAtLeast(-a, -b);
    }
    if b == -1 {
      DivUnique(-a, -1 * b, -a, 0);
    }
  }

  lemma HalvedAtLeast(n: int, b: int)
    requires n >= 0 && b >= 2
    ensures 0 <= n / b && 2 * (n / b) <= n
  {
    var q := n / b;
    MulBound(b, q);
    assert b * q <= n;
    assert (b - 2) * q >= 0;
  }

  predicate QuotientFits(signed: bool, q: int) {
    if signed then -0x8000 <= q < 0x8000 else 0 <= q < 0x1_0000
  }

  /** Remainder in the high half, quotient in the low half. */
  function Packed(q: int, r: int): Long {
    Low(r, WordSize) * 0x1_0000 + Low(q, WordSize)
  }

  lemma Grows(b: int, q: int)
    requires b != 0
    ensures q >= 0 && b > 0 ==> b * q >= q
    ensures q >= 0 && b < 0 ==> b * q <= -q
  {
    if q >= 0 && b > 0 {
      assert b * q == (b - 1) * q + q;
      assert (b - 1) * q >= 0;
    } else if q >= 0 {
      assert b * q == -((-b - 1) * q) - q;
      assert (-b - 1) * q >= 0;
    }
  }

  lemma DivisionFacts(n: int, b: int)
    requires n >= 0 && b != 0
    ensures n == b * (n / b) + n % b
    ensures 0 <= n % b && (n % b < b || n % b < -b)
    ensures -n <= n / b <= n
  {
    DivisionBound(n, b, n / b, n % b);
  }

  lemma DivisionBound(n: int, b: int, d: int, r: int)
    requires n >= 0 && n == b * d + r && (0 <= r < b || 0 <= r < -b)
    ensures -n <= d <= n
  {
    var product := b * d;
    assert b * -d == -product && -b * d == -product;
    Grows(b, d);
    Grows(b, -d);
    MulBound(if b > 0 then b else -b, d);
    ProductBound(n, b, d, product, r);
  }

  lemma ProductBound(n: int, b: int, d: int, product: int, r: int)
    requires n >= 0 && n == product + r && (0 <= r < b || 0 <= r < -b)
    requires d >= 0 && b > 0 ==> product >= d
    requires d < 0 && b > 0 ==> product <= -b
    requires d > 0 && b < 0 ==> product <= b
    requires d <= 0 && b < 0 ==> product >= -d
    ensures -n <= d <= n
  {
  }

  lemma TruncFacts(a: int, b: int)
    requires b != 0
    ensures a == b * TruncDiv(a, b) + TruncMod(a, b)
    ensures TruncMod(a, b) < b || TruncMod(a, b) < -b
    ensures -b < TruncMod(a, b) || b < TruncMod(a, b)
    ensures a >= 0 ==> TruncMod(a, b) >= 0
    ensures a <= 0 ==> TruncMod(a, b) <= 0
    ensures a >= 0 ==> -a <= TruncDiv(a, b) <= a
    ensures a <= 0 ==> a <= TruncDiv(a, b) <= -a
  {
    var n := if a >= 0 then a else -a;
    DivisionFacts(n, b);
    if a < 0 {
      assert b * -(n / b) == -(b * (n / b));
    }
  }

  lemma TruncUnique(x: int, y: int)
    requires y != 0
    ensures TruncDiv(x * y, y) == x && TruncMod(x * y, y) == 0
  {
    hide TruncDiv, TruncMod;
    TruncFacts(x * y, y);
    var q, r := TruncDiv(x * y, y), TruncMod(x * y, y);
    assert y * (x - q) == r by {
      assert y * (x - q) == x * y - y * q;
    }
    if y > 0 {
      MulBound(y, x - q);
    } else {
      MulBound(-y, x - q);
      assert -y * (x - q) == -r;
    }
  }

  lemma WrapLow(v: int)
    requires -0x1_0000_0000 < v < 0
    ensures ToLong(v) == v + 0x1_0000_0000
    ensures Low(v + 0x1_0000_0000, WordSize) == Low(v, WordSize)
  {
    DivUnique(v, 0x1_0000_0000, -1, v + 0x1_0000_0000);
    DivUnique(v, 0x1_0000, (v + 0x1_0000_0000) / 0x1_0000 - 0x1_0000, (v + 0x1_0000_0000) % 0x1_0000);
  }

  /** What narrowing to 32 and then to 16 bits keeps of a small result. */
  lemma Narrow(v: int)
    requires -0x1_0000_0000 < v < 0x1_0000_0000
    ensures v >= 0 ==> ToLong(v) == v
    ensures ToLong(v) % 0x1_0000 == Low(v, WordSize)
    ensures ToLong(v) == 0 <==> v == 0
    ensures Msb(ToLong(v), WordSize) <==> Low(v, WordSize) >= 0x8000
  {
    MsbMeaning(ToLong(v), WordSize);
    if v < 0 {
      WrapLow(v);
    }
    hide ToLong, Msb;
  }

  lemma UnsignedDivision(src: Word, dst: Long)
    requires src != 0
    ensures var q, r := Quotient(false, src, dst), Remainder(false, src, dst);
            && q == dst / src && r == dst % src
            && 0 <= q < 0x1_0000_0000 && 0 <= r < 0x1_0000
  {
    TruncFacts(dst, src);
  }

  lemma SignedDivision(src: Word, dst: Long)
    requires src != 0
    ensures var q, r := Quotient(true, src, dst), Remainder(true, src, dst);
            && Signed(src, WordSize) != 0
            && q == TruncDiv(Signed(dst, LongSize), Signed(src, WordSize))
            && r == TruncMod(Signed(dst, LongSize), Signed(src, WordSize))
            && -0x8000_0000 <= q <= 0x8000_0000 && -0x8000 < r < 0x8000
            && (q == Signed(q, WordSize) <==> QuotientFits(true, q))
  {
    OperandNonzero(true, src);
    hide TruncDiv;
    TruncFacts(Signed(dst, LongSize), Signed(src, WordSize));
  }

  /** DIVU and DIVS; a zero divisor takes the trap whose handler address is an input. */
  method ExecuteDivide(m: Machine, signed: bool, src: Word, dst: Long, handler: Long)
    returns (written: Option<Long>)
    requires m.Valid() && !Undefined(signed, src, dst)
    modifies m.regs`usp, m.regs`ssp, m.regs`pc, m.regs`sr, m.ram.data
    ensures m.Valid()
    ensures src == 0 ==>
              var t := Trapped(old(m.View()), handler);
              && written == None
              && m.View() == t.(sr := t.sr.(flags := Flags(false, false, false, false, t.sr.flags.extend)))
    ensures src != 0 ==>
              var q := Quotient(signed, src, dst);
              var f := old(m.regs.sr.flags);
              && written == (if QuotientFits(signed, q) then Some(Packed(q, Remainder(signed, src, dst))) else None)
              && m.View() == old(m.View()).(sr := old(m.regs.sr).(flags :=
                   if QuotientFits(signed, q) then Flags(false, false, q == 0, Low(q, WordSize) >= 0x8000, f.extend)
                   else f.(carry := false, overflow := true)))
  {
    if src == 0 {
      hide Trapped, Trap;
      m.ExecuteTrap(handler);
      var f := m.regs.sr.flags;
      m.regs.sr := m.regs.sr.(flags := Flags(false, false, false, false, f.extend));
      return None;
    }
    var Flags(carry, overflow, zero, negative, extend) := m.regs.sr.flags;
    hide Quotient, Remainder, Msb, Low;
    var isOverflow, quotient, remainder := DivideOperands(signed, src, dst);
    if isOverflow {
      overflow := true;
      written := None;
    } else {
      written := Some(remainder % 0x1_0000 * 0x1_0000 + quotient % 0x1_0000);
      overflow := false;
      negative := Msb(quotient, WordSize);
      zero := quotient == 0;
    }
    carry := false;
    m.regs.sr := m.regs.sr.(flags := Flags(carry, overflow, zero, negative, extend));
  }

  /** The division proper, on 32-bit values, by a non-zero divisor. */
  method DivideOperands(signed: bool, src: Word, dst: Long)
    returns (isOverflow: bool, quotient: Long, remainder: Long)
    requires src != 0 && !Undefined(signed, src, dst)
    ensures var q, r := Quotient(signed, src, dst), Remainder(signed, src, dst);
            && isOverflow == !QuotientFits(signed, q)
            && quotient % 0x1_0000 == Low(q, WordSize) && remainder % 0x1_0000 == Low(r, WordSize)
            && (quotient == 0 <==> q == 0)
            && (Msb(quotient, WordSize) <==> Low(q, WordSize) >= 0x8000)
  {
    hide *;
    if !signed {
      isOverflow, quotient, remainder := DivideUnsigned(src, dst);
    } else {
      isOverflow, quotient, remainder := DivideSigned(src, dst);
    }
  }

  method DivideUnsigned(src: Word, dst: Long) returns (isOverflow: bool, quotient: Long, remainder: Long)
    requires src != 0
    ensures var q, r := Quotient(false, src, dst), Remainder(false, src, dst);
            && isOverflow == !QuotientFits(false, q)
            && quotient % 0x1_0000 == Low(q, WordSize) && remainder % 0x1_0000 == Low(r, WordSize)
            && (quotient == 0 <==> q == 0)
            && (Msb(quotient, WordSize) <==> Low(q, WordSize) >= 0x8000)
  {
    hide Quotient, Remainder, Msb, Low, ToLong;
    UnsignedDivision(src, dst);
    quotient := dst / src;
    remainder := dst % src;
    isOverflow := quotient > 0xFFFF;
    Narrow(quotient);
    Narrow(remainder);
  }

  method DivideSigned(src: Word, dst: Long) returns (isOverflow: bool, quotient: Long, remainder: Long)
    requires src != 0 && !Undefined(true, src, dst)
    ensures var q, r := Quotient(true, src, dst), Remainder(true, src, dst);
            && isOverflow == !QuotientFits(true, q)
            && quotient % 0x1_0000 == Low(q, WordSize) && remainder % 0x1_0000 == Low(r, WordSize)
            && (quotient == 0 <==> q == 0)
            && (Msb(quotient, WordSize) <==> Low(q, WordSize) >= 0x8000)
  {
    hide TruncDiv, TruncMod, Quotient, Remainder, Msb, Low, Signed;
    SignedDivision(src, dst);
    var signedDst := Signed(dst, LongSize);
    var signedSrc := Signed(src, WordSize);
    var signedQuotient := TruncDiv(signedDst, signedSrc);
    isOverflow := signedQuotient != Signed(signedQuotient, WordSize);
    quotient := ToLong(signedQuotient);
    remainder := ToLong(TruncMod(signedDst, signedSrc));
    Narrow(signedQuotient);
    Narrow(TruncMod(signedDst, signedSrc));
  }

  /** The 32-bit product of two words and the flags it leaves. */
  function Product(signed: bool, src: Word, dst: Word): (p: int)
    ensures signed ==> -0x8000_0000 <= p < 0x8000_0000
    ensures !signed ==> 0 <= p < 0x1_0000_0000
  {
    ProductBounds(signed, src, dst);
    Operand(signed, src, WordSize) * Operand(signed, dst, WordSize)
  }

  lemma ProductBounds(signed: bool, src: Word, dst: Word)
    ensures var p := Operand(signed, src, WordSize) * Operand(signed, dst, WordSize);
            if signed then -0x8000_0000 <= p < 0x8000_0000 else 0 <= p < 0x1_0000_0000
  {
    var a, b := Operand(signed, src, WordSize), Operand(signed, dst, WordSize);
    if signed {
      Square(a, b, 0x8000);
    } else {
      Square(a, b, 0xFFFF);
      assert a * b >= 0;
    }
  }

  lemma Square(a: int, b: int, m: int)
    requires -m <= a <= m && -m <= b <= m
    ensures -(m * m) <= a * b <= m * m
  {
    assert (m - a) * (m + b) >= 0 && (m + a) * (m - b) >= 0;
    assert (m - a) * (m - b) >= 0 && (m + a) * (m + b) >= 0;
  }

  /** MULU and MULS. */
  method ExecuteMultiply(regs: Registers, signed: bool, src: Word, dst: Word) returns (written: Long)
    modifies regs`sr
    ensures Operand(signed, written, LongSize) == Product(signed, src, dst)
    ensures regs.sr == old(regs.sr).(flags := Flags(
              false, false, Product(signed, src, dst) == 0, written >= 0x8000_0000, old(regs.sr.flags.extend)))
  {
    if !signed {
      written := ToLong(src * dst);
    } else {
      written := ToLong(Signed(src, WordSize) * Signed(dst, WordSize));
    }
    ReadBack(Product(signed, src, dst), signed);
    MsbMeaning(written, LongSize);
    regs.sr := regs.sr.(flags := Flags(
      false, false, written == 0, Msb(written, LongSize), regs.sr.flags.extend));
  }

  lemma ReadBack(p: int, signed: bool)
    requires if signed then -0x8000_0000 <= p < 0x8000_0000 else 0 <= p < 0x1_0000_0000
    ensures Operand(signed, ToLong(p), LongSize) == p
    ensures ToLong(p) == 0 <==> p == 0
  {
  }

  // ---------------------------------------------------------------- what a program gets

  /** Quotient and remainder are those of truncating division, and when the quotient fits the
      packed register holds both. */
  lemma DivisionIsExact(signed: bool, src: Word, dst: Long)
    requires src != 0
    ensures var q, r := Quotient(signed, src, dst), Remainder(signed, src, dst);
            var a, b := Operand(signed, dst, LongSize), Operand(signed, src, WordSize);
            && a == q * b + r
            && (r < b || r < -b) && (-b < r || b < r)
            && (a >= 0 ==> r >= 0) && (a <= 0 ==> r <= 0)
            && (QuotientFits(signed, q) ==>
                 && Operand(signed, Packed(q, r) % 0x1_0000, WordSize) == q
                 && Operand(signed, Packed(q, r) / 0x1_0000, WordSize) == r)
  {
    OperandNonzero(signed, src);
    hide TruncDiv, Signed, Packed;
    TruncFacts(Operand(signed, dst, LongSize), Operand(signed, src, WordSize));
    if signed {
      SignedDivision(src, dst);
    } else {
      UnsignedDivision(src, dst);
    }
    var q, r := Quotient(signed, src, dst), Remainder(signed, src, dst);
    if QuotientFits(signed, q) {
      PackedHalves(signed, q, r);
    }
  }

  lemma PackedHalves(signed: bool, q: int, r: int)
    requires QuotientFits(signed, q) && QuotientFits(signed, r)
    ensures Operand(signed, Packed(q, r) % 0x1_0000, WordSize) == q
    ensures Operand(signed, Packed(q, r) / 0x1_0000, WordSize) == r
  {
  }

  /** Dividing a product by one factor gives the other one, exactly and without overflow; also
      for -32768 times -32768. */
  lemma MultiplyThenDivide(signed: bool, src: Word, dst: Word)
    requires src != 0
    ensures var p := ToLong(Product(signed, src, dst));
            && Quotient(signed, src, p) == Operand(signed, dst, WordSize)
            && Remainder(signed, src, p) == 0
            && QuotientFits(signed, Quotient(signed, src, p))
            && !Undefined(signed, src, p)
            && Packed(Quotient(signed, src, p), Remainder(signed, src, p)) == dst
  {
    var a, b := Operand(signed, dst, WordSize), Operand(signed, src, WordSize);
    OperandNonzero(signed, src);
    ReadBack(Product(signed, src, dst), signed);
    TruncUnique(a, b);
    hide TruncDiv;
    assert Product(signed, src, dst) == a * b;
  }
}

/** Fixed-width words.

    Every machine word is an integer with its range in the type; the operations that wrap
    in C++ are written with an explicit remainder.  Bitwise conjunction and exclusive or are
    defined bit by bit, so that the code's bit tricks can be stated as they are written.
 */
module Words {
  type Byte = x: int | 0 <= x < 0x100
  type Word = x: int | 0 <= x < 0x1_0000
  type Long = x: int | 0 <= x < 0x1_0000_0000
  type LongLong = x: int | 0 <= x < 0x1_0000_0000_0000_0000

  const LONGLONG_MODULUS := 0x1_0000_0000_0000_0000

  datatype Option<+T> = None | Some(value: T)

  function Pow2(k: nat): (p: nat)
    ensures p >= 1
  {
    if k == 0 then 1 else 2 * Pow2(k - 1)
  }

  lemma {:induction false} Pow2Add(i: nat, j: nat)
    ensures Pow2(i + j) == Pow2(i) * Pow2(j)
  {
    hide Pow2;
    Pow2Unfold(i);
    if i == 0 {
    } else {
      Pow2Add(i - 1, j);
      Pow2Unfold(i + j);
      DoubledProduct(Pow2(i - 1), Pow2(j));
    }
  }

  lemma Pow2Unfold(k: nat)
    ensures Pow2(k) == if k == 0 then 1 else 2 * Pow2(k - 1)
  {
  }

  lemma DoubledProduct(p: int, q: int)
    ensures 2 * (p * q) == (2 * p) * q
  {
  }

  lemma {:induction false} Pow2Monotonic(i: nat, j: nat)
    requires i <= j
    ensures Pow2(i) <= Pow2(j)
  {
    if i < j {
      Pow2Monotonic(i, j - 1);
    }
  }

  /** The operand sizes of an instruction. */
  datatype Size = ByteSize | WordSize | LongSize {
    function Bytes(): nat {
      match this
      case ByteSize => 1
      case WordSize => 2
      case LongSize => 4
    }

    function Bits(): nat {
      8 * Bytes()
    }

    /** Number of values of this size. */
    function Modulus(): int {
      match this
      case ByteSize => 0x100
      case WordSize => 0x1_0000
      case LongSize => 0x1_0000_0000
    }

    /** Weight of the sign bit. */
    function Half(): int {
      match this
      case ByteSize => 0x80
      case WordSize => 0x8000
      case LongSize => 0x8000_0000
    }
  }

  lemma Pow2OfAByte()
    ensures Pow2(7) == 0x80 && Pow2(8) == 0x100
  {
    assert Pow2(3) == 8;
  }

  lemma ModulusIsPow2(size: Size)
    ensures size.Modulus() == Pow2(size.Bits())
    ensures size.Half() == Pow2(size.Bits() - 1)
  {
    Pow2OfAByte();
    hide Pow2;
    Pow2Add(8, 8);
    Pow2Add(8, 7);
    Pow2Add(16, 16);
    Pow2Add(16, 15);
  }

  /** The low `size` bytes of a value. */
  function Low(v: int, size: Size): (r: Long)
    ensures 0 <= r < size.Modulus()
    ensures 0 <= v < size.Modulus() ==> r == v
  {
    match size
    case ByteSize => v % 0x100
    case WordSize => v % 0x1_0000
    case LongSize => v % 0x1_0000_0000
  }

  /** The two's complement reading of the low `size` bytes of a value. */
  function Signed(v: int, size: Size): (s: int)
    ensures -size.Half() <= s < size.Half()
  {
    var u := Low(v, size);
    if u < size.Half() then u else u - size.Modulus()
  }

  /** Conversion of a signed result back to an unsigned 32-bit value. */
  function ToLong(v: int): (r: Long) {
    v % 0x1_0000_0000
  }

  function ToLongLong(v: int): (r: LongLong) {
    v % LONGLONG_MODULUS
  }

  /** Division that truncates toward zero, as in C++. */
  function TruncDiv(a: int, b: int): int
    requires b != 0
  {
    if a >= 0 then a / b else -((-a) / b)
  }

  function TruncMod(a: int, b: int): int
    requires b != 0
  {
    a - b * TruncDiv(a, b)
  }

  function B2I(b: bool): (i: int)
    ensures i == 0 || i == 1
  {
    if b then 1 else 0
  }

  /** The weight of a carry or borrow out of a number with the given range. */
  function Weight(subtract: bool, carry: bool, range: int): int {
    if !carry then 0 else if subtract then -range else range
  }

  function Zeros(n: nat): (s: seq<Byte>)
    ensures |s| == n && forall i :: 0 <= i < n ==> s[i] == 0
  {
    seq(n, _ => 0)
  }

  // ---------------------------------------------------------------- bitwise operations

  function And(a: nat, b: nat): nat {
    if a == 0 || b == 0 then 0 else (if a % 2 == b % 2 == 1 then 1 else 0) + 2 * And(a / 2, b / 2)
  }

  function Xor(a: nat, b: nat): nat {
    if a == 0 && b == 0 then 0 else (if a % 2 == b % 2 then 0 else 1) + 2 * Xor(a / 2, b / 2)
  }

  lemma {:induction false} AndSelf(a: nat)
    ensures And(a, a) == a
  {
    if a > 0 {
      AndSelf(a / 2);
    }
  }

  lemma {:induction false} XorZero(a: nat)
    ensures Xor(a, 0) == a
  {
    if a > 0 {
      XorZero(a / 2);
    }
  }

  lemma MulBound(b: int, d: int)
    requires b > 0
    ensures d >= 1 ==> b * d >= b
    ensures d <= -1 ==> b * d <= -b
    ensures d == 0 ==> b * d == 0
  {
    if d >= 1 {
      assert b * d == b + b * (d - 1);
    } else if d <= -1 {
      assert b * d == -b - b * (-d - 1);
    }
  }

  /** Dividing twice is dividing by the product. */
  lemma DivTwice(v: nat, a: nat, b: nat)
    requires a > 0 && b > 0
    ensures a * b > 0 && v / (a * b) == v / a / b
  {
    var q := v / a;
    MulBound(a, b);
    MulBound(a, b - q % b - 1);
    assert a * (b - q % b - 1) == a * b - a * (q % b) - a;
    assert a * q == a * (q % b) + a * b * (q / b) by {
      assert q == b * (q / b) + q % b;
    }
    DivUnique(v, a * b, q / b, v % a + a * (q % b));
  }

  /** A number, its digit of weight a and base b, and the part above. */
  lemma DivSplit(v: nat, a: nat, b: nat)
    requires a > 0 && b > 0
    ensures a * b > 0 && v == v % a + a * (v / a % b) + a * b * (v / (a * b))
  {
    DivTwice(v, a, b);
    var q := v / a;
    assert a * q == a * (q % b) + a * b * (q / b) by {
      assert q == b * (q / b) + q % b;
    }
  }

  lemma EuclidUnique(b: int, q: int, r: int, q': int, r': int)
    requires 0 <= r < b && 0 <= r' < b
    requires b * q + r == b * q' + r'
    ensures q == q' && r == r'
  {
    MulBound(b, q - q');
    assert b * (q - q') == r' - r;
  }

  lemma DivUnique(a: int, b: int, q: int, r: int)
    requires 0 <= r < b
    requires a == b * q + r
    ensures a / b == q && a % b == r
  {
    EuclidUnique(b, q, r, a / b, a % b);
  }

  lemma HalveDivision(a: nat, k: nat)
    requires k > 0
    ensures (a / 2) / Pow2(k - 1) == a / Pow2(k)
    ensures a % Pow2(k) == 2 * ((a / 2) % Pow2(k - 1)) + a % 2
  {
    var p := Pow2(k - 1);
    var q := (a / 2) / p;
    var r := (a / 2) % p;
    assert a / 2 == p * q + r;
    assert a == (2 * p) * q + (2 * r + a % 2) by {
      assert (2 * p) * q == 2 * (p * q);
    }
    DivUnique(a, 2 * p, q, 2 * r + a % 2);
  }

  /** `v & (v ^ mask)`, with `mask` the low k bits set, keeps exactly the bits of v above
      position k. */
  lemma {:induction false} CarryTrick(v: nat, k: nat)
    ensures And(v, Xor(v, Pow2(k) - 1)) == v - v % Pow2(k)
  {
    hide And, Xor, Pow2;
    if k == 0 {
      CarryTrickNoMask(v);
    } else if v == 0 {
      CarryTrickOfZero(k);
    } else {
      CarryTrick(v / 2, k - 1);
      CarryTrickUp(v, k);
    }
  }

  lemma CarryTrickNoMask(v: nat)
    ensures And(v, Xor(v, Pow2(0) - 1)) == v - v % Pow2(0)
  {
    XorZero(v);
    AndSelf(v);
    hide And, Xor;
  }

  lemma CarryTrickUp(v: nat, k: nat)
    requires v > 0 && k > 0
    requires And(v / 2, Xor(v / 2, Pow2(k - 1) - 1)) == v / 2 - v / 2 % Pow2(k - 1)
    ensures And(v, Xor(v, Pow2(k) - 1)) == v - v % Pow2(k)
  {
    assert Pow2(k) == 2 * Pow2(k - 1);
    hide And, Xor, Pow2;
    HalveDivision(v, k);
    CarryTrickStep(v, Pow2(k - 1));
  }

  lemma CarryTrickOfZero(k: nat)
    ensures And(0, Xor(0, Pow2(k) - 1)) == 0 - 0 % Pow2(k)
  {
    hide Xor, Pow2;
    DivUnique(0, Pow2(k), 0, 0);
  }

  lemma CarryTrickStep(v: nat, p: nat)
    requires v > 0 && p > 0
    ensures And(v, Xor(v, 2 * p - 1)) == 2 * And(v / 2, Xor(v / 2, p - 1))
  {
    var x := Xor(v, 2 * p - 1);
    assert (2 * p - 1) / 2 == p - 1 && (2 * p - 1) % 2 == 1;
    assert x / 2 == Xor(v / 2, p - 1);
    assert v % 2 == 0 || x % 2 == 0;
  }

  lemma CarryTrickNonzero(v: nat, k: nat)
    ensures And(v, Xor(v, Pow2(k) - 1)) != 0 <==> v / Pow2(k) != 0
  {
    CarryTrick(v, k);
    QuotientNonzero(v, Pow2(k));
  }

  lemma QuotientNonzero(v: nat, p: nat)
    requires p > 0
    ensures v - v % p != 0 <==> v / p != 0
  {
    MulBound(p, v / p);
  }

  lemma QuotientPositive(v: nat, p: nat)
    requires p > 0
    ensures v / p != 0 <==> v >= p
  {
    MulBound(p, v / p);
    if v < p {
      DivUnique(v, p, 0, v);
    }
  }

  /** Right shift, one position at a time. */
  function Shr(a: nat, k: nat): nat {
    if k == 0 then a else Shr(a / 2, k - 1)
  }

  lemma {:induction false} ShrIsDivision(a: nat, k: nat)
    ensures Shr(a, k) == a / Pow2(k)
  {
    if k > 0 {
      ShrIsDivision(a / 2, k - 1);
      HalveDivision(a, k);
    }
  }

  lemma {:induction false} XorShr(a: nat, b: nat, k: nat)
    ensures Shr(Xor(a, b), k) == Xor(Shr(a, k), Shr(b, k))
  {
    if k > 0 {
      XorHalf(a, b);
      XorShr(a / 2, b / 2, k - 1);
    }
  }

  /** The bits of an exclusive or above position k are the exclusive or of those bits, so
      they are all clear exactly when the operands agree there. */
  lemma XorHighZero(a: nat, b: nat, k: nat)
    ensures Xor(a, b) / Pow2(k) == 0 <==> a / Pow2(k) == b / Pow2(k)
  {
    XorShr(a, b, k);
    ShrIsDivision(a, k);
    ShrIsDivision(b, k);
    ShrIsDivision(Xor(a, b), k);
    XorIsZero(Shr(a, k), Shr(b, k));
  }

  lemma XorHalf(a: nat, b: nat)
    ensures Xor(a, b) / 2 == Xor(a / 2, b / 2)
  {
  }

  lemma {:induction false} XorIsZero(a: nat, b: nat)
    ensures Xor(a, b) == 0 <==> a == b
  {
    if a > 0 || b > 0 {
      XorIsZero(a / 2, b / 2);
    }
  }
}

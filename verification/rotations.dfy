/** Shifts and rotations of numbers of a given width, in closed form. */
module Rotations {
  import opened Words

  predicate Bit(v: int, j: nat) {
    v / Pow2(j) % 2 == 1
  }

  /** One step to the left and one to the right of a w-bit number. */
  function RotL1(w: nat, v: nat): nat
    requires w >= 1
  {
    2 * v % Pow2(w) + v / Pow2(w - 1)
  }

  function RotR1(w: nat, v: nat): nat
    requires w >= 1
  {
    v / 2 + v % 2 * Pow2(w - 1)
  }

  /** The w-bit number v rotated left by k. */
  function Rotated(w: nat, v: nat, k: nat): nat
    requires w >= 1
  {
    var j := k % w;
    v * Pow2(j) % Pow2(w) + v / Pow2(w - j)
  }

  /** The w-bit number v rotated right by k. */
  function RotatedRight(w: nat, v: nat, k: nat): nat
    requires w >= 1
  {
    Rotated(w, v, w - k % w)
  }

  lemma ScaleParts(v: nat, p: nat, hi: nat, lo: nat, q: nat)
    requires p > 0 && q > 0 && lo < p && v == p * hi + lo
    ensures v / p == hi && v % p == lo
    ensures v * q == (p * q) * hi + lo * q
    ensures lo * q < p * q
  {
    DivUnique(v, p, hi, lo);
    assert (p * hi + lo) * q == (p * hi) * q + lo * q;
    assert (p * hi) * q == (p * q) * hi;
    MulBound(q, p - lo);
    assert (p - lo) * q == p * q - lo * q;
  }

  /** A rotation by j swaps the j bits above and the w - j bits below. */
  lemma RotatedParts(w: nat, hi: nat, lo: nat, k: nat)
    requires w >= 1
    requires lo < Pow2(w - k % w)
    ensures Rotated(w, Pow2(w - k % w) * hi + lo, k) == lo * Pow2(k % w) + hi
  {
    var j := k % w;
    var p, q := Pow2(w - j), Pow2(j);
    Pow2Add(w - j, j);
    ScaleParts(p * hi + lo, p, hi, lo, q);
    DivUnique((p * hi + lo) * q, p * q, hi, lo * q);
  }

  lemma Split(v: nat, p: nat) returns (hi: nat, lo: nat)
    requires p > 0
    ensures v == p * hi + lo && lo < p
    ensures hi == v / p && lo == v % p
  {
    hi, lo := v / p, v % p;
  }

  lemma RotL1Parts(w: nat, top: nat, rest: nat)
    requires w >= 1 && top < 2 && rest < Pow2(w - 1)
    ensures RotL1(w, Pow2(w - 1) * top + rest) == 2 * rest + top
  {
    var p := Pow2(w - 1);
    DivUnique(p * top + rest, p, top, rest);
    DivUnique(2 * (p * top + rest), 2 * p, top, 2 * rest);
  }

  lemma TopBound(v: nat, p: nat, q: nat)
    requires p > 0 && v < p * q
    ensures v / p < q
  {
    var hi, lo := Split(v, p);
    MulBound(p, hi - q);
    assert p * (hi - q) == p * hi - p * q;
  }

  /** v cut around the bit that the next step moves: hi above it, rest below it. */
  lemma Cut(w: nat, v: nat, j: nat) returns (hi: nat, top: nat, rest: nat)
    requires j < w && v < Pow2(w)
    ensures top < 2 && rest < Pow2(w - j - 1) && hi < Pow2(j)
    ensures v == Pow2(w - j - 1) * (2 * hi + top) + rest
    ensures v == Pow2(w - j) * hi + (Pow2(w - j - 1) * top + rest)
    ensures Pow2(w - j - 1) * top + rest < Pow2(w - j)
  {
    var r := Pow2(w - j - 1);
    var below;
    below, rest := Split(v, r);
    hi, top := below / 2, below % 2;
    assert r * below == (2 * r) * hi + r * top;
    Pow2Add(w - j, j);
    DivUnique(v, 2 * r, hi, r * top + rest);
    TopBound(v, 2 * r, Pow2(j));
  }

  /** Rotating by k + 1 is one step after rotating by k. */
  lemma RotatedStep(w: nat, v: nat, k: nat)
    requires w >= 1 && v < Pow2(w)
    ensures Rotated(w, v, k + 1) == RotL1(w, Rotated(w, v, k))
    ensures Rotated(w, v, k) < Pow2(w)
  {
    hide *;
    var hi, top, rest := Cut(w, v, k % w);
    var low := ThisRotated(w, v, k, hi, top, rest);
    RotL1Parts(w, top, low);
    NextRotated(w, v, k, hi, top, rest, low);
  }

  lemma ThisRotated(w: nat, v: nat, k: nat, hi: nat, top: nat, rest: nat) returns (low: nat)
    requires w >= 1
    requires top < 2 && rest < Pow2(w - k % w - 1) && hi < Pow2(k % w)
    requires v == Pow2(w - k % w) * hi + (Pow2(w - k % w - 1) * top + rest)
    requires Pow2(w - k % w - 1) * top + rest < Pow2(w - k % w)
    ensures low == rest * Pow2(k % w) + hi && low < Pow2(w - 1)
    ensures Rotated(w, v, k) == Pow2(w - 1) * top + low < Pow2(w)
  {
    hide *;
    var r := Pow2(w - k % w - 1);
    low := rest * Pow2(k % w) + hi;
    RotatedParts(w, hi, r * top + rest, k);
    Pow2Add(w - k % w - 1, k % w);
    LowPart(w, r, Pow2(k % w), top, rest, hi);
  }

  lemma NextRotated(w: nat, v: nat, k: nat, hi: nat, top: nat, rest: nat, low: nat)
    requires w >= 1 && v < Pow2(w)
    requires top < 2 && rest < Pow2(w - k % w - 1) && hi < Pow2(k % w)
    requires v == Pow2(w - k % w - 1) * (2 * hi + top) + rest
    requires low == rest * Pow2(k % w) + hi
    ensures Rotated(w, v, k + 1) == 2 * low + top
  {
    hide Rotated;
    NextIndex(w, k);
    var q := Pow2(k % w);
    if k % w + 1 < w {
      RotatedParts(w, 2 * hi + top, rest, k + 1);
      assert rest * (2 * q) == 2 * (rest * q);
    } else {
      assert rest * q == 0;
      RotatedZero(w, v, k + 1);
    }
  }

  lemma NextIndex(w: nat, k: nat)
    requires w >= 1
    ensures (k + 1) % w == if k % w + 1 < w then k % w + 1 else 0
  {
    var q := k / w;
    if k % w + 1 < w {
      DivUnique(k + 1, w, q, k % w + 1);
    } else {
      assert k + 1 == w * (q + 1);
      DivUnique(k + 1, w, q + 1, 0);
    }
  }

  lemma WholeTurns(w: nat)
    requires w >= 1
    ensures 0 % w == 0 && w % w == 0
  {
    DivUnique(0, w, 0, 0);
    DivUnique(w, w, 1, 0);
  }

  lemma RotatedZero(w: nat, v: nat, k: nat)
    requires w >= 1 && v < Pow2(w) && k % w == 0
    ensures Rotated(w, v, k) == v
  {
    DivUnique(v, Pow2(w), 0, v);
  }

  lemma LowPart(w: nat, r: nat, q: nat, top: nat, rest: nat, hi: nat)
    requires w >= 1 && r * q == Pow2(w - 1)
    requires top < 2 && rest < r && hi < q
    ensures (r * top + rest) * q + hi == Pow2(w - 1) * top + (rest * q + hi)
    ensures rest * q + hi < Pow2(w - 1)
    ensures Pow2(w - 1) * top + (rest * q + hi) < Pow2(w)
  {
    assert (r * top + rest) * q == (r * q) * top + rest * q by {
      assert (r * top) * q == (r * q) * top;
    }
    assert (rest + 1) * q <= r * q by {
      MulBound(q, r - rest);
      assert (r - rest) * q == r * q - rest * q;
      assert (rest + 1) * q == rest * q + q;
    }
  }

  /** A right step undoes a left step. */
  lemma RotR1Undoes(w: nat, v: nat)
    requires w >= 1 && v < Pow2(w)
    ensures RotR1(w, RotL1(w, v)) == v
  {
    hide *;
    PowHalves(w);
    var p := Pow2(w - 1);
    var top, rest := Split(v, p);
    TopBound(v, p, 2);
    RotL1Parts(w, top, rest);
    RotR1Parts(w, top, rest);
  }

  lemma PowHalves(w: nat)
    requires w >= 1
    ensures Pow2(w) == Pow2(w - 1) * 2
  {
  }

  lemma RotR1Parts(w: nat, top: nat, rest: nat)
    requires w >= 1 && top < 2
    ensures RotR1(w, 2 * rest + top) == Pow2(w - 1) * top + rest
  {
    hide Pow2;
    var v := 2 * rest + top;
    assert v / 2 == rest && v % 2 == top;
  }

  /** Rotating right by k + 1 is one step after rotating right by k. */
  lemma RotatedRightStep(w: nat, v: nat, k: nat)
    requires w >= 1 && v < Pow2(w)
    ensures RotatedRight(w, v, k + 1) == RotR1(w, RotatedRight(w, v, k))
    ensures RotatedRight(w, v, k) < Pow2(w)
  {
    hide Rotated, RotL1, RotR1, Pow2;
    var m := RightAsLeft(w, v, k);
    RotatedStep(w, v, m - 1);
    RotatedStep(w, v, m);
    RotR1Undoes(w, Rotated(w, v, m - 1));
  }

  /** Rotating right is rotating left by the rest of the width. */
  lemma RightAsLeft(w: nat, v: nat, k: nat) returns (m: nat)
    requires w >= 1 && v < Pow2(w)
    ensures m >= 1
    ensures RotatedRight(w, v, k) == Rotated(w, v, m)
    ensures RotatedRight(w, v, k + 1) == Rotated(w, v, m - 1)
  {
    hide Rotated, Pow2;
    m := w - k % w;
    NextIndex(w, k);
    if k % w + 1 == w {
      RotatedZero(w, v, 0);
      DivUnique(w, w, 1, 0);
      RotatedZero(w, v, w);
    }
  }

  /** Rotating right by j takes back j of the k steps to the left. */
  lemma {:induction false} RotatedBack(w: nat, v: nat, k: nat, j: nat)
    requires w >= 1 && v < Pow2(w) && j <= k
    ensures Rotated(w, v, k) < Pow2(w)
    ensures RotatedRight(w, Rotated(w, v, k), j) == Rotated(w, v, k - j)
  {
    RotatedStep(w, v, k);
    var u := Rotated(w, v, k);
    if j == 0 {
      assert w % w == 0 by { DivUnique(w, w, 1, 0); }
      RotatedZero(w, u, w);
    } else {
      RotatedBack(w, v, k, j - 1);
      RotatedRightStep(w, u, j - 1);
      RotatedStep(w, v, k - j);
      RotR1Undoes(w, Rotated(w, v, k - j));
    }
  }

  /** A rotation to the right by any amount undoes the rotation to the left by it. */
  lemma RotateRoundTrip(w: nat, v: nat, k: nat)
    requires w >= 1 && v < Pow2(w)
    ensures RotatedRight(w, Rotated(w, v, k), k) == v
  {
    RotatedBack(w, v, k, k);
    RotatedZero(w, v, 0);
  }

  lemma DivideAgain(v: int, k: nat)
    ensures v / Pow2(k + 1) == (v / Pow2(k)) / 2
  {
    var p := Pow2(k);
    var q, b := (v / p) / 2, (v / p) % 2;
    var r := v % p;
    assert v == p * (v / p) + r;
    assert p * (v / p) == (2 * p) * q + p * b;
    DivUnique(v, 2 * p, q, p * b + r);
  }
}

/** Bitwise operators of the source on unbounded naturals, and the facts used about them. */
module Bits {

  function Pow2(k: nat): (r: nat)
    ensures r > 0
  {
    if k == 0 then 1 else 2 * Pow2(k - 1)
  }

  function Or(a: nat, b: nat): nat
    decreases a + b
  {
    if a == 0 then b else if b == 0 then a
    else 2 * Or(a / 2, b / 2) + (if a % 2 == 1 || b % 2 == 1 then 1 else 0)
  }

  function Xor(a: nat, b: nat): nat
    decreases a + b
  {
    if a == 0 then b else if b == 0 then a
    else 2 * Xor(a / 2, b / 2) + (if a % 2 != b % 2 then 1 else 0)
  }

  /** q << k */
  function Shift(q: nat, k: nat): (r: nat)
    ensures r == 0 <==> q == 0
  {
    if k == 0 then q else 2 * Shift(q, k - 1)
  }

  lemma {:induction false} ShiftIs(q: nat, k: nat)
    ensures Shift(q, k) == q * Pow2(k)
  {
    if k > 0 {
      ShiftIs(q, k - 1);
      MulTwo(q, Pow2(k - 1));
    }
  }

  /** Setting bits from position `k` on leaves the bits below alone. */
  lemma {:induction false} OrShifted(r: nat, q: nat, b: nat, k: nat)
    requires r < Pow2(k)
    ensures Or(r + Shift(q, k), Shift(b, k)) == r + Shift(Or(q, b), k)
    decreases k
  {
    if k > 0 && b != 0 && r + q != 0 {
      OrShifted(r / 2, q, b, k - 1);
      assert r + Shift(q, k) == 2 * (r / 2 + Shift(q, k - 1)) + r % 2;
      OrDouble(r / 2 + Shift(q, k - 1), Shift(b, k - 1), r % 2);
    }
  }

  lemma OrSplit(r: nat, q: nat, b: nat, k: nat)
    requires r < Pow2(k)
    ensures Or(r + q * Pow2(k), b * Pow2(k)) == r + Or(q, b) * Pow2(k)
  {
    OrShifted(r, q, b, k);
    ShiftIs(q, k);
    ShiftIs(b, k);
    ShiftIs(Or(q, b), k);
  }

  lemma OrDouble(a: nat, h: nat, r: nat)
    requires r < 2 && h > 0 && 2 * a + r > 0
    ensures Or(2 * a + r, 2 * h) == 2 * Or(a, h) + r
  {
    assert (2 * a + r) / 2 == a && (2 * a + r) % 2 == r && (2 * h) / 2 == h && (2 * h) % 2 == 0;
  }

  lemma DivMod(a: nat, m: nat)
    requires m > 0
    ensures a == a % m + a / m * m
  {}

  /** Setting bits above the highest bit of `a` adds them. */
  lemma OrDisjoint(a: nat, b: nat, k: nat)
    requires a < Pow2(k)
    ensures Or(a, b * Pow2(k)) == a + b * Pow2(k)
  {
    OrShifted(a, 0, b, k);
    ShiftIs(b, k);
    ShiftIs(0, k);
  }

  /** Setting the lowest bit. */
  lemma OrOne(b: nat)
    ensures Or(1, b) == if b % 2 == 1 then b else b + 1
  {}

  // ---------- single bits ----------

  /** (n >> k) & 1 */
  predicate Bit(n: nat, k: nat) {
    if k == 0 then n % 2 == 1 else Bit(n / 2, k - 1)
  }

  lemma {:induction false} BitOfZero(k: nat)
    ensures !Bit(0, k)
  {
    if k > 0 { BitOfZero(k - 1); }
  }

  /** The exclusive or, bit by bit. */
  lemma {:induction false} XorBit(a: nat, b: nat, k: nat)
    ensures Bit(Xor(a, b), k) <==> Bit(a, k) != Bit(b, k)
    decreases k
  {
    BitOfZero(k);
    if k > 0 && a > 0 && b > 0 {
      XorHalf(a, b);
      XorBit(a / 2, b / 2, k - 1);
    }
  }

  lemma XorHalf(a: nat, b: nat)
    ensures Xor(a, b) / 2 == Xor(a / 2, b / 2) && Xor(a, b) % 2 == if a % 2 == b % 2 then 0 else 1
  {
    if a > 0 && b > 0 {
      var h := Xor(a / 2, b / 2);
      assert (2 * h + 1) / 2 == h && (2 * h) / 2 == h;
    }
  }

  lemma XorDigit(a: nat, b: nat, x: nat, y: nat)
    requires x < 2 && y < 2
    ensures Xor(2 * a + x, 2 * b + y) == 2 * Xor(a, b) + if x == y then 0 else 1
  {
    var c, d := 2 * a + x, 2 * b + y;
    assert c / 2 == a && d / 2 == b && c % 2 == x && d % 2 == y;
    XorHalf(c, d);
    assert Xor(c, d) == 2 * (Xor(c, d) / 2) + Xor(c, d) % 2;
  }

  lemma {:induction false} XorBound(a: nat, b: nat, k: nat)
    requires a < Pow2(k) && b < Pow2(k)
    ensures Xor(a, b) < Pow2(k)
    decreases k
  {
    if k > 0 {
      XorBound(a / 2, b / 2, k - 1);
      XorHalf(a, b);
    }
  }

  /** The exclusive or of numbers in two parts is taken part by part. */
  lemma {:induction false} XorShifted(r: nat, q: nat, s: nat, p: nat, k: nat)
    requires r < Pow2(k) && s < Pow2(k)
    ensures Xor(r + Shift(q, k), s + Shift(p, k)) == Xor(r, s) + Shift(Xor(q, p), k)
    decreases k
  {
    if k > 0 {
      Halve(r, q, k);
      Halve(s, p, k);
      XorShifted(r / 2, q, s / 2, p, k - 1);
      var c, d := r + Shift(q, k), s + Shift(p, k);
      assert Xor(c / 2, d / 2) == Xor(r / 2, s / 2) + Shift(Xor(q, p), k - 1);
      XorStep(c, d, r, s, Shift(Xor(q, p), k - 1));
    }
  }

  lemma Halve(r: nat, q: nat, k: nat)
    requires k > 0 && r < Pow2(k)
    ensures r / 2 < Pow2(k - 1)
    ensures (r + Shift(q, k)) / 2 == r / 2 + Shift(q, k - 1) && (r + Shift(q, k)) % 2 == r % 2
  {}

  lemma XorStep(a: nat, b: nat, r: nat, s: nat, t: nat)
    requires a % 2 == r % 2 && b % 2 == s % 2 && Xor(a / 2, b / 2) == Xor(r / 2, s / 2) + t
    ensures Xor(a, b) == Xor(r, s) + 2 * t
  {
    XorHalf(a, b);
    XorHalf(r, s);
  }

  lemma {:induction false} XorTwice(a: nat, b: nat)
    ensures Xor(Xor(a, b), b) == a
    decreases a + b
  {
    if a + b > 0 {
      XorTwice(a / 2, b / 2);
      XorHalf(a, b);
      XorHalf(Xor(a, b), b);
    }
  }

  lemma {:induction false} XorCommutes(a: nat, b: nat)
    ensures Xor(a, b) == Xor(b, a)
    decreases a + b
  {
    if a > 0 && b > 0 { XorCommutes(a / 2, b / 2); }
  }

  lemma XorUndone(a: nat, b: nat)
    ensures Xor(a, Xor(a, b)) == b
  {
    var c := Xor(b, a);
    XorTwice(b, a);
    XorCommutes(a, b);
    XorCommutes(a, c);
  }

  /** Bits from `m` on are those of what is shifted there, and bits below `m` those of the rest. */
  lemma {:induction false} BitAbove(r: nat, q: nat, m: nat, k: nat)
    requires r < Pow2(m)
    ensures Bit(r + Shift(q, m), k + m) == Bit(q, k)
    decreases m
  {
    if m > 0 {
      assert (r + Shift(q, m)) / 2 == r / 2 + Shift(q, m - 1);
      BitAbove(r / 2, q, m - 1, k);
    }
  }

  lemma {:induction false} BitBelow(r: nat, q: nat, m: nat, k: nat)
    requires r < Pow2(m) && k < m
    ensures Bit(r + Shift(q, m), k) == Bit(r, k)
    decreases m
  {
    if k > 0 {
      assert (r + Shift(q, m)) / 2 == r / 2 + Shift(q, m - 1);
      BitBelow(r / 2, q, m - 1, k - 1);
    }
  }

  lemma MulTwo(a: nat, b: nat)
    ensures a * (2 * b) == 2 * (a * b)
  {}

  lemma Powers()
    ensures Pow2(6) == 64 && Pow2(20) == 0x10_0000 && Pow2(29) == 0x2000_0000 && Pow2(32) == 0x1_0000_0000
  {
    assert Pow2(10) == 1024;
    assert Pow2(20) == 0x10_0000;
    assert Pow2(30) == 0x4000_0000;
  }
}

/** Optional results that can be used with `:-`. */
module Options {
  datatype Option<+T> = None | Some(value: T) {
    predicate IsFailure() { None? }
    function PropagateFailure<U>(): Option<U> requires None? { None }
    function Extract(): T requires Some? { value }
  }
}

/** Fixed-width integers as bytes, in network (big-endian) and host (little-endian) order. */
module Bytes {

  type byte = x: int | 0 <= x < 256

  function Pow256(n: nat): (r: nat)
    ensures r > 0
  {
    if n == 0 then 1 else 256 * Pow256(n - 1)
  }

  lemma Widths()
    ensures Pow256(1) == 0x100 && Pow256(4) == 0x1_0000_0000 && Pow256(8) == 0x1_0000_0000_0000_0000
  {
    assert Pow256(2) == 0x1_0000;
    assert Pow256(6) == 0x1_0000_0000_0000;
  }

  /** The low `n` bytes of `v`, most significant first. */
  function Be(v: nat, n: nat): (s: seq<byte>)
    ensures |s| == n
  {
    if n == 0 then [] else Be(v / 256, n - 1) + [v % 256]
  }

  function FromBe(s: seq<byte>): nat {
    if s == [] then 0 else 256 * FromBe(s[..|s| - 1]) + s[|s| - 1]
  }

  /** The low `n` bytes of `v`, least significant first. */
  function Le(v: nat, n: nat): (s: seq<byte>)
    ensures |s| == n
  {
    if n == 0 then [] else [v % 256] + Le(v / 256, n - 1)
  }

  function FromLe(s: seq<byte>): nat {
    if s == [] then 0 else s[0] + 256 * FromLe(s[1..])
  }

  /** The two orders, spelled out for words. */
  lemma ByteOrder(a: byte, b: byte, c: byte, d: byte)
    ensures Be(((a * 256 + b) * 256 + c) * 256 + d, 4) == [a, b, c, d]
    ensures Le(((a * 256 + b) * 256 + c) * 256 + d, 4) == [d, c, b, a]
  {
    Digit(a, b);
    Digit(a * 256 + b, c);
    Digit((a * 256 + b) * 256 + c, d);
    assert Be(a, 1) == [a] && Be(a * 256 + b, 2) == [a, b] && Be((a * 256 + b) * 256 + c, 3) == [a, b, c];
    assert Le(a, 1) == [a] && Le(a * 256 + b, 2) == [b, a] && Le((a * 256 + b) * 256 + c, 3) == [c, b, a];
  }

  lemma Digit(v: nat, d: byte)
    ensures (v * 256 + d) / 256 == v && (v * 256 + d) % 256 == d
  {}

  lemma {:induction false} BeRoundTrip(v: nat, n: nat)
    requires v < Pow256(n)
    ensures FromBe(Be(v, n)) == v
  {
    if n > 0 {
      BeRoundTrip(v / 256, n - 1);
      assert Be(v, n)[..n - 1] == Be(v / 256, n - 1);
    }
  }

  lemma {:induction false} LeRoundTrip(v: nat, n: nat)
    requires v < Pow256(n)
    ensures FromLe(Le(v, n)) == v
  {
    if n > 0 {
      LeRoundTrip(v / 256, n - 1);
      assert Le(v, n)[1..] == Le(v / 256, n - 1);
    }
  }

  lemma {:induction false} BeOnto(s: seq<byte>)
    ensures FromBe(s) < Pow256(|s|) && Be(FromBe(s), |s|) == s
  {
    if s != [] {
      var front, last := s[..|s| - 1], s[|s| - 1];
      BeOnto(front);
      assert FromBe(s) / 256 == FromBe(front) && FromBe(s) % 256 == last;
      assert s == front + [last];
    }
  }

  lemma {:induction false} LeOnto(s: seq<byte>)
    ensures FromLe(s) < Pow256(|s|) && Le(FromLe(s), |s|) == s
  {
    if s != [] {
      LeOnto(s[1..]);
      assert FromLe(s) / 256 == FromLe(s[1..]) && FromLe(s) % 256 == s[0];
    }
  }

  lemma {:induction false} FromLeConcat(a: seq<byte>, b: seq<byte>)
    ensures FromLe(a + b) == FromLe(a) + Pow256(|a|) * FromLe(b)
  {
    if a == [] {
      assert a + b == b;
    } else {
      assert (a + b)[1..] == a[1..] + b;
      FromLeConcat(a[1..], b);
      Scale(FromLe(a[1..]), Pow256(|a| - 1), FromLe(b));
    }
  }

  lemma Scale(f: nat, x: nat, y: nat)
    ensures 256 * (f + x * y) == 256 * f + (256 * x) * y
  {}

  /** Two's complement of an `n`-byte signed value, and back. */
  function Signed(v: int, n: nat): (r: nat)
    requires 0 <= 2 * v + Pow256(n) && 2 * v < Pow256(n)
    ensures r < Pow256(n) && FromSigned(r, n) == v
  {
    if v >= 0 then v else v + Pow256(n)
  }

  function FromSigned(r: nat, n: nat): int {
    if 2 * r < Pow256(n) then r else r - Pow256(n)
  }

  lemma Regroup(a: seq<byte>, b: seq<byte>, c: seq<byte>)
    ensures a + b + c == a + (b + c) && a + b + [] == a + b
  {}
}

/** More values than places: two of them coincide. */
module Pigeonhole {

  ghost function Image(f: nat -> nat, n: nat): set<nat> {
    set k | 0 <= k < n :: f(k)
  }

  ghost predicate DistinctTo(f: nat -> nat, n: nat) {
    forall a: nat, b: nat :: a < b < n ==> f(a) != f(b)
  }

  lemma {:induction false} ImageSize(f: nat -> nat, n: nat)
    requires DistinctTo(f, n)
    ensures |Image(f, n)| == n
  {
    if n > 0 {
      ImageSize(f, n - 1);
      assert Image(f, n) == Image(f, n - 1) + {f(n - 1)};
    } else {
      assert Image(f, 0) == {};
    }
  }

  lemma {:induction false} BoundedSize(s: set<nat>, n: nat)
    requires forall x :: x in s ==> x < n
    ensures |s| <= n
  {
    if n == 0 { assert s == {}; } else { BoundedSize(s - {n - 1}, n - 1); }
  }

  lemma TwoCoincide(f: nat -> nat, n: nat) returns (a: nat, b: nat)
    requires forall k: nat :: k <= n ==> f(k) < n
    ensures a < b <= n && f(a) == f(b)
  {
    if DistinctTo(f, n + 1) {
      ImageSize(f, n + 1);
      BoundedSize(Image(f, n + 1), n);
    }
    a, b :| a < b <= n && f(a) == f(b);
  }
}

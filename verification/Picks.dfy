/** Picking things that are not taken from a numbered supply without repetitions. */
module Picks {
  import opened Bytes

  type Supply = nat -> bytes

  ghost predicate Injective(f: Supply, bound: nat) {
    forall m: nat, n: nat :: m < n < bound ==> f(m) != f(n)
  }

  ghost predicate Numbered(f: Supply, x: bytes) {
    exists k: nat :: f(k) == x
  }

  predicate Distinct(q: seq<bytes>) {
    forall i, j :: 0 <= i < j < |q| ==> q[i] != q[j]
  }

  lemma {:induction false} SubsetSize(s: set<bytes>, t: set<bytes>)
    requires s <= t
    ensures |s| <= |t|
    decreases s
  {
    if s != {} {
      var x :| x in s;
      SubsetSize(s - {x}, t - {x});
    }
  }

  /** What the first `n` numbers supply and is not taken. */
  function Untaken(f: Supply, taken: set<bytes>, n: nat): seq<bytes> {
    if n == 0 then [] else Untaken(f, taken, n - 1) + if f(n - 1) in taken then [] else [f(n - 1)]
  }

  lemma {:induction false} UntakenExact(f: Supply, taken: set<bytes>, n: nat, x: bytes)
    ensures x in Untaken(f, taken, n) <==> x !in taken && exists i: nat :: i < n && f(i) == x
    decreases n
  {
    if n > 0 {
      UntakenExact(f, taken, n - 1, x);
      if i: nat :| i < n && f(i) == x { assert i < n - 1 || i == n - 1; }
    }
  }

  lemma {:induction false} UntakenDifferent(f: Supply, bound: nat, taken: set<bytes>, n: nat)
    requires Injective(f, bound) && n <= bound
    ensures Distinct(Untaken(f, taken, n))
    decreases n
  {
    if n > 0 {
      UntakenDifferent(f, bound, taken, n - 1);
      UntakenExact(f, taken, n - 1, f(n - 1));
    }
  }

  lemma {:induction false} OthersStay(f: Supply, bound: nat, taken: set<bytes>, n: nat, m: nat)
    requires Injective(f, bound) && m <= n < bound
    ensures Untaken(f, taken, m) == Untaken(f, taken - {f(n)}, m)
    decreases m
  {
    if m > 0 { OthersStay(f, bound, taken, n, m - 1); }
  }

  /** Each thing that is taken costs at most one. */
  lemma {:induction false} UntakenMany(f: Supply, bound: nat, taken: set<bytes>, n: nat)
    requires Injective(f, bound) && n <= bound
    ensures |Untaken(f, taken, n)| + |taken| >= n
    decreases n
  {
    if n > 0 {
      if f(n - 1) in taken {
        UntakenMany(f, bound, taken - {f(n - 1)}, n - 1);
        OthersStay(f, bound, taken, n - 1, n - 1);
      } else {
        UntakenMany(f, bound, taken, n - 1);
      }
    }
  }

  lemma Enough(f: Supply, bound: nat, taken: set<bytes>, count: nat) returns (q: seq<bytes>)
    requires Injective(f, bound) && |taken| + count <= bound
    ensures |q| == count && Distinct(q)
    ensures forall i :: 0 <= i < count ==> q[i] !in taken && Numbered(f, q[i])
  {
    var n := |taken| + count;
    var all := Untaken(f, taken, n);
    UntakenMany(f, bound, taken, n);
    UntakenDifferent(f, bound, taken, n);
    q := all[..count];
    forall i | 0 <= i < count ensures q[i] !in taken && Numbered(f, q[i]) {
      assert all[i] in all;
      UntakenExact(f, taken, n, all[i]);
    }
  }
}

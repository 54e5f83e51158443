/**
 Byte strings and their order. Keys, names, identifiers and encoded values are all
 byte sequences, compared as `bytes.Compare` does: by the first byte that differs,
 a proper prefix coming first.

 The order is defined on `seq<int>`, so that the same lemmas serve bytes and decimal digits.
 */
module Bytes {

  type byte = b: int | 0 <= b < 0x100

  type bytes = seq<byte>

  datatype Option<+T> = None | Some(value: T)

  /** `bytes.Compare(a, b) < 0` */
  predicate Less(a: seq<int>, b: seq<int>)
    decreases |a|
  {
    b != [] && (a == [] || a[0] < b[0] || (a[0] == b[0] && Less(a[1..], b[1..])))
  }

  /** `bytes.Compare(a, b) <= 0` */
  predicate AtMost(a: seq<int>, b: seq<int>) {
    !Less(b, a)
  }

  /** Neither sequence is a prefix of the other. */
  predicate Diverge(a: seq<int>, b: seq<int>) {
    !(a <= b) && !(b <= a)
  }

  lemma {:induction false} LessIrreflexive(a: seq<int>)
    ensures !Less(a, a)
    decreases |a|
  {
    if a != [] { LessIrreflexive(a[1..]); }
  }

  lemma {:induction false} LessTotal(a: seq<int>, b: seq<int>)
    ensures Less(a, b) || a == b || Less(b, a)
    decreases |a|
  {
    if a != [] && b != [] && a[0] == b[0] {
      LessTotal(a[1..], b[1..]);
      assert a == [a[0]] + a[1..] && b == [b[0]] + b[1..];
    }
  }

  lemma {:induction false} LessTransitive(a: seq<int>, b: seq<int>, c: seq<int>)
    requires Less(a, b) && Less(b, c)
    ensures Less(a, c)
    decreases |a|
  {
    if a != [] && a[0] == b[0] == c[0] {
      LessTransitive(a[1..], b[1..], c[1..]);
    }
  }

  lemma LessAsymmetric(a: seq<int>, b: seq<int>)
    requires Less(a, b)
    ensures !Less(b, a) && a != b
  {
    LessIrreflexive(a);
    if Less(b, a) { LessTransitive(a, b, a); }
  }

  /** `a < b <= c` gives `a < c`. */
  lemma LessAtMost(a: seq<int>, b: seq<int>, c: seq<int>)
    requires Less(a, b) && AtMost(b, c)
    ensures Less(a, c)
  {
    LessTotal(b, c);
    if b != c { LessTransitive(a, b, c); }
  }

  /** A common prefix does not matter. */
  lemma {:induction false} LessAfterPrefix(p: seq<int>, a: seq<int>, b: seq<int>)
    ensures Less(p + a, p + b) <==> Less(a, b)
    decreases |p|
  {
    if p == [] {
      assert p + a == a && p + b == b;
    } else {
      assert (p + a)[1..] == p[1..] + a && (p + b)[1..] == p[1..] + b;
      LessAfterPrefix(p[1..], a, b);
    }
  }

  /** A prefix comes no later than anything that starts with it. */
  lemma {:induction false} PrefixAtMost(p: seq<int>, k: seq<int>)
    requires p <= k
    ensures AtMost(p, k)
    decreases |p|
  {
    if p != [] { PrefixAtMost(p[1..], k[1..]); }
  }

  /** Once two sequences diverge, what follows them does not matter. */
  lemma {:induction false} DivergeOrder(a: seq<int>, b: seq<int>, s: seq<int>, t: seq<int>)
    requires Diverge(a, b)
    ensures Less(a + s, b + t) <==> Less(a, b)
    ensures Less(a, b) || Less(b, a)
    ensures Diverge(a + s, b + t)
    decreases |a|
  {
    assert a != [] && b != [];
    assert (a + s)[0] == a[0] && (b + t)[0] == b[0];
    if a[0] == b[0] {
      assert a == [a[0]] + a[1..] && b == [b[0]] + b[1..];
      DivergeOrder(a[1..], b[1..], s, t);
      assert (a + s)[1..] == a[1..] + s && (b + t)[1..] == b[1..] + t;
    }
  }

  lemma DivergeAfterPrefix(p: seq<int>, a: seq<int>, b: seq<int>)
    requires Diverge(a, b)
    ensures Diverge(p + a, p + b)
  {
    assert (p + a)[|p|..] == a && (p + b)[|p|..] == b;
  }

  /** Two prefixes of one sequence are prefixes of one another. */
  lemma PrefixesNest(a: seq<int>, b: seq<int>, k: seq<int>)
    requires a <= k && b <= k && |a| <= |b|
    ensures a <= b
  {
  }

  // ---------------------------------------------------------------------------
  // The end of a prefix

  /** The least key above every key that starts with `prefix`; none if there is no such key. */
  function PrefixEnd(prefix: bytes): (end: Option<bytes>)
    decreases |prefix|
  {
    if prefix == [] then None
    else
      var last := |prefix| - 1;
      if prefix[last] == 0xff then PrefixEnd(prefix[..last])
      else Some(prefix[..last] + [prefix[last] + 1])
  }

  /** `lower <= k < upper`, with no upper limit when `upper` is absent. */
  predicate Within(k: bytes, lower: bytes, upper: Option<bytes>) {
    AtMost(lower, k) && (upper.Some? ==> Less(k, upper.value))
  }

  /** The keys from a prefix up to its end are exactly the keys that start with it. */
  lemma {:induction false} PrefixEndExact(prefix: bytes, k: bytes)
    ensures Within(k, prefix, PrefixEnd(prefix)) <==> prefix <= k
    decreases |prefix|
  {
    if prefix != [] {
      var last := |prefix| - 1;
      var p := prefix[..last];
      assert prefix == p + [prefix[last]];
      PrefixEndExact(p, k);
      if p <= k {
        var rest := k[last..];
        assert k == p + rest;
        LessAfterPrefix(p, rest, [prefix[last]]);
        if prefix[last] < 0xff {
          LessAfterPrefix(p, rest, [prefix[last] + 1]);
          LessIrreflexive([]);
        }
      } else {
        PrefixOutside(p, k, [prefix[last]]);
        if prefix[last] < 0xff { PrefixOutside(p, k, [prefix[last] + 1]); }
        LessIrreflexive(p);
        if Within(k, prefix, PrefixEnd(prefix)) {
          PrefixAtMost(p, prefix);
          BelowPrefix(p, prefix, k);
        }
      }
    } else {
      PrefixAtMost(prefix, k);
    }
  }

  lemma BelowPrefix(p: seq<int>, q: seq<int>, k: seq<int>)
    requires AtMost(p, q) && AtMost(q, k)
    ensures AtMost(p, k)
  {
    if Less(k, p) { LessAtMost(k, p, q); }
  }

  /** A key that does not start with `p` lies on the same side of `p` and of `p` extended. */
  lemma {:induction false} PrefixOutside(p: seq<int>, k: seq<int>, t: seq<int>)
    requires !(p <= k)
    ensures Less(k, p + t) <==> Less(k, p)
    ensures k != p && k != p + t
    decreases |p|
  {
    if k != [] {
      assert (p + t)[0] == p[0] && (p + t)[1..] == p[1..] + t;
      if k[0] == p[0] {
        assert p == [p[0]] + p[1..] && k == [k[0]] + k[1..];
        PrefixOutside(p[1..], k[1..], t);
      }
    }
  }

  /** The loop that edits a copy of the prefix. */
  method ComputePrefixEnd(prefix: bytes) returns (end: Option<bytes>)
    ensures end == PrefixEnd(prefix)
    ensures forall k: bytes :: Within(k, prefix, end) <==> prefix <= k
  {
    forall k: bytes ensures Within(k, prefix, PrefixEnd(prefix)) <==> prefix <= k {
      PrefixEndExact(prefix, k);
    }
    var copy := new byte[|prefix|](i requires 0 <= i < |prefix| => prefix[i]);
    var i := |prefix| - 1;
    assert prefix[..i + 1] == prefix;
    while i >= 0
      invariant -1 <= i < |prefix|
      invariant copy[..] == prefix
      invariant PrefixEnd(prefix) == PrefixEnd(prefix[..i + 1])
    {
      if copy[i] != 0xff {
        copy[i] := copy[i] + 1;
        assert prefix[..i + 1][..i] == prefix[..i];
        assert copy[..i + 1] == prefix[..i] + [prefix[i] + 1];
        return Some(copy[..i + 1]);
      }
      assert prefix[..i + 1][..i] == prefix[..i];
      i := i - 1;
    }
    return None;
  }
}

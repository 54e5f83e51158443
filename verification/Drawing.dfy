/**
 What the store draws at random: revisions, and the identifiers of an import. What the generator yields is
 handed in as a list; a list that runs out stands for a generator that fails.
 */
module Drawing {
  import opened Bytes
  import opened Picks
  import opened Catalog

  // ---------------------------------------------------------------------------
  // Revisions

  predicate Differs(rev: Revision, previous: Option<Revision>) {
    previous.Some? ==> rev != previous.value
  }

  /** `rev` is the first of the draws that differs from `previous`, and `rest` is what comes after it. */
  predicate FirstNew(drawn: seq<Revision>, previous: Option<Revision>, rev: Revision, rest: seq<Revision>) {
    var n := |drawn| - |rest| - 1;
    && 0 <= n && drawn[n] == rev && drawn[n + 1..] == rest
    && Differs(rev, previous) && forall i :: 0 <= i < n ==> !Differs(drawn[i], previous)
  }

  /** `makeRevision`: draws until a revision is not the previous one. */
  method MakeRevision(previous: Option<Revision>, drawn: seq<Revision>) returns (rev: Option<Revision>, rest: seq<Revision>)
    ensures rev.None? <==> forall r :: r in drawn ==> previous == Some(r)
    ensures rev.Some? ==> FirstNew(drawn, previous, rev.value, rest)
  {
    var n := 0;
    while n < |drawn|
      invariant 0 <= n <= |drawn|
      invariant forall i :: 0 <= i < n ==> !Differs(drawn[i], previous)
    {
      if Differs(drawn[n], previous) {
        assert drawn[n] in drawn;
        return Some(drawn[n]), drawn[n + 1..];
      }
      n := n + 1;
    }
    return None, [];
  }

  // ---------------------------------------------------------------------------
  // The identifiers of an import

  /** What a list yields, without repetitions. */
  function Values(q: seq<bytes>): set<bytes> {
    if q == [] then {} else Values(q[..|q| - 1]) + {q[|q| - 1]}
  }

  lemma {:induction false} InValues(q: seq<bytes>, x: bytes)
    ensures x in Values(q) <==> x in q
  {
    if q != [] {
      InValues(q[..|q| - 1], x);
      assert q == q[..|q| - 1] + [q[|q| - 1]];
    }
  }

  lemma {:induction false} DistinctSize(q: seq<bytes>)
    requires Distinct(q)
    ensures |Values(q)| == |q|
  {
    if q != [] {
      var n := |q| - 1;
      DistinctSize(q[..n]);
      InValues(q[..n], q[n]);
    }
  }

  lemma {:induction false} MoreValues(q: seq<bytes>, n: nat)
    requires n <= |q|
    ensures |Values(q[..n])| <= |Values(q)|
    decreases |q| - n
  {
    if n < |q| {
      OneMore(q, n);
      GrowsOrStays(Values(q[..n]), q[n]);
      MoreValues(q, n + 1);
    } else {
      assert q[..n] == q;
    }
  }

  lemma GrowsOrStays(s: set<bytes>, x: bytes)
    ensures |s| <= |s + {x}|
  {
    if x in s { assert s + {x} == s; }
  }

  lemma OneMore(drawn: seq<bytes>, n: nat)
    requires n < |drawn|
    ensures Values(drawn[..n + 1]) == Values(drawn[..n]) + {drawn[n]}
  {
    assert drawn[..n + 1][..n] == drawn[..n];
  }

  /** The first `n` draws yield `count` different identifiers, and no fewer draws do. */
  predicate Attempt(drawn: seq<bytes>, count: nat, n: nat) {
    && n <= |drawn| && |Values(drawn[..n])| == count
    && (n > 0 ==> |Values(drawn[..n - 1])| < count)
  }

  lemma EarlierIsFewer(drawn: seq<bytes>, count: nat, n: nat, m: nat)
    requires Attempt(drawn, count, m) && n < m
    ensures |Values(drawn[..n])| < count
  {
    MoreValues(drawn[..m - 1], n);
    assert drawn[..m - 1][..n] == drawn[..n];
  }

  lemma OneAttempt(drawn: seq<bytes>, count: nat, n: nat, m: nat)
    requires Attempt(drawn, count, n) && Attempt(drawn, count, m)
    ensures n == m
  {
    if n < m { EarlierIsFewer(drawn, count, n, m); }
    if m < n { EarlierIsFewer(drawn, count, m, n); }
  }

  /** What `makeImportIDs` returns after `n` draws: each identifier once, and a revision for each. */
  predicate Made(drawn: seq<bytes>, revs: seq<Revision>, count: nat, n: nat, ids: seq<bytes>, made: seq<Revision>) {
    && Attempt(drawn, count, n) && count <= |revs|
    && Distinct(ids) && |ids| == count && Values(ids) == Values(drawn[..n])
    && made == revs[..count]
  }

  /** What has been made of the first `n` draws. */
  predicate Making(drawn: seq<bytes>, revs: seq<Revision>, count: nat, n: nat, ids: seq<bytes>, seen: set<bytes>,
                   made: seq<Revision>, rest: seq<Revision>) {
    && n <= |drawn| && |ids| == |made| <= count && made + rest == revs
    && Distinct(ids) && seen == Values(ids) == Values(drawn[..n])
    && (n > 0 ==> |Values(drawn[..n - 1])| <= |ids| && (|ids| == count ==> |Values(drawn[..n - 1])| < count))
  }

  lemma DrawnAgain(drawn: seq<bytes>, revs: seq<Revision>, count: nat, n: nat, ids: seq<bytes>, seen: set<bytes>,
                   made: seq<Revision>, rest: seq<Revision>)
    requires Making(drawn, revs, count, n, ids, seen, made, rest) && |ids| < count && n < |drawn| && drawn[n] in seen
    ensures Making(drawn, revs, count, n + 1, ids, seen, made, rest)
  {
    DistinctSize(ids);
    OneMore(drawn, n);
  }

  lemma DrawnNew(drawn: seq<bytes>, revs: seq<Revision>, count: nat, n: nat, ids: seq<bytes>, seen: set<bytes>,
                 made: seq<Revision>, rest: seq<Revision>)
    requires Making(drawn, revs, count, n, ids, seen, made, rest) && |ids| < count && n < |drawn| && drawn[n] !in seen && rest != []
    ensures Making(drawn, revs, count, n + 1, ids + [drawn[n]], seen + {drawn[n]}, made + [rest[0]], rest[1..])
  {
    DistinctSize(ids);
    OneMore(drawn, n);
    AddValue(ids, drawn[n]);
    assert (made + [rest[0]]) + rest[1..] == made + rest;
  }

  lemma AddValue(ids: seq<bytes>, id: bytes)
    ensures Values(ids + [id]) == Values(ids) + {id}
    ensures Distinct(ids) && id !in Values(ids) ==> Distinct(ids + [id])
  {
    assert (ids + [id])[..|ids|] == ids;
    InValues(ids, id);
  }

  lemma NothingLeft(drawn: seq<bytes>, revs: seq<Revision>, count: nat, ids: seq<bytes>, seen: set<bytes>,
                    made: seq<Revision>, rest: seq<Revision>)
    requires Making(drawn, revs, count, |drawn|, ids, seen, made, rest) && |ids| < count
    ensures |Values(drawn)| < count
  {
    DistinctSize(ids);
    assert drawn[..|drawn|] == drawn;
  }

  lemma MakingEnds(drawn: seq<bytes>, revs: seq<Revision>, count: nat, n: nat, ids: seq<bytes>, seen: set<bytes>,
                   made: seq<Revision>, rest: seq<Revision>)
    requires Making(drawn, revs, count, n, ids, seen, made, rest) && |ids| == count
    ensures Made(drawn, revs, count, n, ids, made) && |Values(drawn)| >= count && |revs| >= count
  {
    DistinctSize(ids);
    MoreValues(drawn, n);
  }

  /** Without a previous revision the first draw will do. */
  method FirstRevision(drawn: seq<Revision>) returns (rev: Option<Revision>, rest: seq<Revision>)
    ensures if drawn == [] then rev.None? else rev == Some(drawn[0]) && rest == drawn[1..]
  {
    rev, rest := MakeRevision(None, drawn);
    if drawn != [] { assert drawn[0] in drawn && Differs(drawn[0], None); }
  }

  /** `makeImportIDs`: different identifiers with a revision each; fails exactly if the generator runs out. */
  method MakeImportIds(count: nat, drawn: seq<bytes>, revs: seq<Revision>)
    returns (ok: bool, ids: seq<bytes>, made: seq<Revision>, n: nat)
    ensures ok <==> |Values(drawn)| >= count && |revs| >= count
    ensures ok ==> Made(drawn, revs, count, n, ids, made)
  {
    ids, made, n := [], [], 0;
    var seen: set<bytes> := {};
    var rest := revs;
    while |ids| < count
      invariant Making(drawn, revs, count, n, ids, seen, made, rest)
      decreases |drawn| - n
    {
      if n == |drawn| {
        NothingLeft(drawn, revs, count, ids, seen, made, rest);
        return false, [], [], 0;
      }
      if drawn[n] in seen {
        DrawnAgain(drawn, revs, count, n, ids, seen, made, rest);
        n := n + 1;
        continue;
      }
      var rev, left := FirstRevision(rest);
      if rev.None? {
        return false, [], [], 0;
      }
      DrawnNew(drawn, revs, count, n, ids, seen, made, rest);
      seen, ids, made, rest, n := seen + {drawn[n]}, ids + [drawn[n]], made + [rev.value], left, n + 1;
    }
    MakingEnds(drawn, revs, count, n, ids, seen, made, rest);
    ok := true;
  }

  // ---------------------------------------------------------------------------
  // Drawing again

  predicate Collides(stored: bytes -> bool, ids: seq<bytes>) {
    exists i :: 0 <= i < |ids| && stored(ids[i])
  }

  /** Every attempt meets an identifier that is in use, until the generator runs out. */
  ghost predicate RunsOut(stored: bytes -> bool, count: nat, drawn: seq<bytes>, revs: seq<Revision>)
    decreases |drawn|
  {
    || |Values(drawn)| < count || |revs| < count
    || exists n :: 0 < n && Attempt(drawn, count, n) && Collides(stored, drawn[..n])
                   && RunsOut(stored, count, drawn[n..], revs[count..])
  }

  lemma SameCollisions(stored: bytes -> bool, ids: seq<bytes>, drawn: seq<bytes>)
    requires Values(ids) == Values(drawn)
    ensures Collides(stored, ids) <==> Collides(stored, drawn)
  {
    forall x ensures x in ids <==> x in drawn {
      InValues(ids, x);
      InValues(drawn, x);
    }
    if i :| 0 <= i < |ids| && stored(ids[i]) { assert ids[i] in drawn; }
    if i :| 0 <= i < |drawn| && stored(drawn[i]) { assert drawn[i] in ids; }
  }

  /** An attempt that collides is as good as not made, and one that does not is the last. */
  lemma AttemptMade(stored: bytes -> bool, count: nat, drawn: seq<bytes>, revs: seq<Revision>, n: nat)
    requires Attempt(drawn, count, n) && |Values(drawn)| >= count && |revs| >= count
    ensures if Collides(stored, drawn[..n]) then n > 0 && (RunsOut(stored, count, drawn, revs) <==> RunsOut(stored, count, drawn[n..], revs[count..]))
            else !RunsOut(stored, count, drawn, revs)
  {
    forall m | Attempt(drawn, count, m) ensures m == n {
      OneAttempt(drawn, count, n, m);
    }
  }

  /** How many of the draws are in use. */
  function Hits(stored: bytes -> bool, drawn: seq<bytes>): nat {
    if drawn == [] then 0 else (if stored(drawn[0]) then 1 else 0) + Hits(stored, drawn[1..])
  }

  lemma {:induction false} HitsSplit(stored: bytes -> bool, drawn: seq<bytes>, n: nat)
    requires n <= |drawn|
    ensures Hits(stored, drawn) == Hits(stored, drawn[..n]) + Hits(stored, drawn[n..])
    ensures Collides(stored, drawn[..n]) ==> Hits(stored, drawn[..n]) > 0
    decreases n
  {
    if n == 0 {
      assert drawn[0..] == drawn;
    } else {
      HitsSplit(stored, drawn[1..], n - 1);
      assert drawn[..n][1..] == drawn[1..][..n - 1] && drawn[1..][n - 1..] == drawn[n..];
      if Collides(stored, drawn[..n]) && !stored(drawn[0]) {
        var i :| 0 <= i < n && stored(drawn[..n][i]);
        assert drawn[1..][..n - 1][i - 1] == drawn[..n][i];
      }
    }
  }

  /** Each draw in use costs one attempt at most: with different draws for one attempt more, none runs out. */
  lemma {:induction false} DrawsSuffice(stored: bytes -> bool, count: nat, drawn: seq<bytes>, revs: seq<Revision>, attempts: nat)
    requires Distinct(drawn) && Hits(stored, drawn) < attempts && |drawn| >= count * attempts && |revs| >= count * attempts
    ensures !RunsOut(stored, count, drawn, revs)
    decreases attempts
  {
    var left: nat := attempts - 1;
    OneLess(count, left, |drawn|);
    OneLess(count, left, |revs|);
    TryAgain(stored, count, drawn, revs);
    if Collides(stored, drawn[..count]) {
      DrawsSuffice(stored, count, drawn[count..], revs[count..], left);
    }
  }

  lemma TryAgain(stored: bytes -> bool, count: nat, drawn: seq<bytes>, revs: seq<Revision>)
    requires Distinct(drawn) && count <= |drawn| && count <= |revs|
    ensures Collides(stored, drawn[..count]) ==>
              && Distinct(drawn[count..]) && Hits(stored, drawn[count..]) < Hits(stored, drawn)
              && (RunsOut(stored, count, drawn, revs) <==> RunsOut(stored, count, drawn[count..], revs[count..]))
    ensures !Collides(stored, drawn[..count]) ==> !RunsOut(stored, count, drawn, revs)
  {
    StraightAttempt(drawn, count);
    AttemptMade(stored, count, drawn, revs, count);
    HitsSplit(stored, drawn, count);
  }

  lemma OneLess(count: nat, left: nat, size: nat)
    requires size >= count * (left + 1)
    ensures size >= count && size - count >= count * left
  {
    assert count * (left + 1) == count + count * left;
    assert count * left >= 0;
  }

  lemma StraightAttempt(drawn: seq<bytes>, count: nat)
    requires Distinct(drawn) && count <= |drawn|
    ensures Attempt(drawn, count, count) && |Values(drawn)| >= count
  {
    DistinctSize(drawn);
    DistinctSize(drawn[..count]);
    if count > 0 { DistinctSize(drawn[..count - 1]); }
  }
}

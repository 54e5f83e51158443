/**
 A scan that looks at a bounded number of records: it stops when the range ends, when it has looked at as many as
 it may, or when it has found one more than the page holds, and then goes back to the last one the page shows.
 */
module WorkScan {
  import opened Bytes
  import opened KeyValue
  import P = Paging

  /** A record looked at: whether it is one of those asked for, or why the scan fails on it. */
  datatype Look<E> = Hit(id: bytes) | Miss(id: bytes) | Bad(error: E)

  datatype ScanPage<E> = ScanPage(ids: seq<bytes>, lastId: bytes, more: bool) | ScanFailed(error: E)

  predicate AllGood<E>(looks: seq<Look<E>>) {
    forall i :: 0 <= i < |looks| ==> !looks[i].Bad?
  }

  function Hits<E>(looks: seq<Look<E>>): seq<bytes> {
    if looks == [] then []
    else
      var n := |looks| - 1;
      Hits(looks[..n]) + if looks[n].Hit? then [looks[n].id] else []
  }

  /** What is found under each key. */
  ghost function Looks<V, E>(kv: Kv<V>, keys: seq<bytes>, look: (bytes, V) -> Look<E>): (looks: seq<Look<E>>)
    requires forall k :: k in keys ==> k in kv
    ensures |looks| == |keys| && forall i :: 0 <= i < |keys| ==> keys[i] in kv && looks[i] == look(keys[i], kv[keys[i]])
  {
    seq(|keys|, i requires 0 <= i < |keys| => assert keys[i] in keys; look(keys[i], kv[keys[i]]))
  }

  /** The page after looking at the first `n` records. */
  ghost predicate Stopped<E>(looks: seq<Look<E>>, n: nat, limit: nat, maxWork: nat, page: ScanPage<E>)
  {
    && n <= |looks| && n <= maxWork && AllGood(looks[..n]) && page.ScanPage? && |page.ids| <= limit
    && if !page.more then n == |looks| && page.ids == Hits(looks)
       else || (n == maxWork < |looks| && page.ids == Hits(looks[..n]) && n > 0 && page.lastId == looks[n - 1].id)
            || (n > 0 && |page.ids| == limit > 0 && looks[n - 1].Hit?
                && Hits(looks[..n]) == page.ids + [looks[n - 1].id] && page.lastId == page.ids[limit - 1])
  }

  lemma HitsNext<E>(looks: seq<Look<E>>, n: nat)
    requires n < |looks|
    ensures Hits(looks[..n + 1]) == Hits(looks[..n]) + if looks[n].Hit? then [looks[n].id] else []
  {
    assert looks[..n + 1][..n] == looks[..n];
  }

  lemma CutBack<E>(looks: seq<Look<E>>, n: nat, limit: nat, maxWork: nat, ids: seq<bytes>)
    requires 0 < n <= |looks| && n <= maxWork && AllGood(looks[..n]) && looks[n - 1].Hit? && limit >= 1
    requires ids == Hits(looks[..n]) && |ids| == limit + 1 && ids[limit] == looks[n - 1].id
    ensures Stopped(looks, n, limit, maxWork, ScanPage(ids[..limit], ids[limit - 1], true))
  {
    assert ids == ids[..limit] + [ids[limit]];
  }

  /** Where a scan is after `n` records, not stopped yet. */
  ghost predicate Going<E>(looks: seq<Look<E>>, n: nat, limit: nat, maxWork: nat, ids: seq<bytes>, lastId: bytes) {
    && n <= |looks| && n <= maxWork && AllGood(looks[..n]) && ids == Hits(looks[..n]) && |ids| <= limit
    && (n > 0 ==> !looks[n - 1].Bad? && lastId == looks[n - 1].id)
  }

  /** The identifiers found, with that of the record just looked at. */
  function With<E>(ids: seq<bytes>, found: Look<E>): seq<bytes> {
    if found.Hit? then ids + [found.id] else ids
  }

  lemma GoOn<E>(looks: seq<Look<E>>, n: nat, limit: nat, maxWork: nat, ids: seq<bytes>, lastId: bytes)
    requires Going(looks, n, limit, maxWork, ids, lastId) && limit >= 1 && n < maxWork && n < |looks| && !looks[n].Bad?
    ensures var more := With(ids, looks[n]);
            if |more| > limit then Stopped(looks, n + 1, limit, maxWork, ScanPage(more[..limit], more[limit - 1], true))
            else Going(looks, n + 1, limit, maxWork, more, looks[n].id)
  {
    HitsNext(looks, n);
    GoodNext(looks, n);
    var more := With(ids, looks[n]);
    if |more| > limit { CutBack(looks, n + 1, limit, maxWork, more); }
  }

  lemma GoodNext<E>(looks: seq<Look<E>>, n: nat)
    requires n < |looks| && AllGood(looks[..n]) && !looks[n].Bad?
    ensures AllGood(looks[..n + 1])
  {
    assert looks[..n + 1] == looks[..n] + [looks[n]];
  }

  lemma StopAtWork<E>(looks: seq<Look<E>>, n: nat, limit: nat, ids: seq<bytes>, lastId: bytes)
    requires Going(looks, n, limit, n, ids, lastId) && 0 < n < |looks|
    ensures Stopped(looks, n, limit, n, ScanPage(ids, lastId, true))
  {
  }

  lemma StopAtEnd<E>(looks: seq<Look<E>>, n: nat, limit: nat, maxWork: nat, ids: seq<bytes>, lastId: bytes)
    requires Going(looks, n, limit, maxWork, ids, lastId) && n == |looks|
    ensures Stopped(looks, n, limit, maxWork, ScanPage(ids, lastId, false))
  {
    assert looks[..n] == looks;
  }

  /** The keys are those of the looks from the `n`th on. */
  ghost predicate Ahead<V, E>(kv: Kv<V>, keys: seq<bytes>, look: (bytes, V) -> Look<E>, looks: seq<Look<E>>, n: nat) {
    n + |keys| == |looks| && (forall k :: k in keys ==> k in kv) && looks[n..] == Looks(kv, keys, look)
  }

  lemma AheadNext<V, E>(kv: Kv<V>, keys: seq<bytes>, look: (bytes, V) -> Look<E>, looks: seq<Look<E>>, n: nat)
    requires Ahead(kv, keys, look, looks, n) && keys != []
    ensures n < |looks| && keys[0] in kv && looks[n] == look(keys[0], kv[keys[0]])
    ensures Ahead(kv, keys[1..], look, looks, n + 1)
  {
    var some := Looks(kv, keys, look);
    assert looks[n] == looks[n..][0] == some[0];
    assert looks[n + 1..] == looks[n..][1..] == some[1..];
    assert some[1..] == Looks(kv, keys[1..], look);
  }

  // ---------------------------------------------------------------------------
  // A scan as a page

  /** The order of identifiers. */
  predicate IdLess(x: bytes, y: bytes) {
    Less(x, y)
  }

  /** The records in the order of their identifiers, as far as they can be read. */
  ghost predicate InOrder<E>(ids: seq<bytes>, looks: seq<Look<E>>) {
    && |ids| == |looks| && StrictlySorted(ids)
    && forall i :: 0 <= i < |looks| ==> looks[i].Bad? || looks[i].id == ids[i]
  }

  lemma {:induction false} HitsExact<E>(looks: seq<Look<E>>, x: bytes)
    ensures x in Hits(looks) <==> exists i :: 0 <= i < |looks| && looks[i] == Hit(x)
    decreases |looks|
  {
    if looks != [] {
      var n := |looks| - 1;
      HitsExact(looks[..n], x);
      if x in Hits(looks[..n]) {
        var i :| 0 <= i < n && looks[..n][i] == Hit(x);
        assert looks[i] == Hit(x);
      }
      if i :| 0 <= i < |looks| && looks[i] == Hit(x) {
        if i < n { assert looks[..n][i] == Hit(x); }
      }
    }
  }

  lemma {:induction false} HitsSorted<E>(ids: seq<bytes>, looks: seq<Look<E>>)
    requires InOrder(ids, looks)
    ensures StrictlySorted(Hits(looks))
    decreases |looks|
  {
    if looks != [] {
      var n := |looks| - 1;
      forall i, j | 0 <= i < j < n ensures Less(ids[..n][i], ids[..n][j]) {
        assert Less(ids[i], ids[j]);
      }
      HitsSorted(ids[..n], looks[..n]);
      var before := Hits(looks[..n]);
      if looks[n].Hit? {
        forall x | x in before ensures Less(x, looks[n].id) {
          HitsExact(looks[..n], x);
          var i :| 0 <= i < n && looks[..n][i] == Hit(x);
          assert Less(ids[i], ids[n]);
        }
        SortedAppend(before, looks[n].id);
      }
    }
  }

  lemma SortedAppend(q: seq<bytes>, x: bytes)
    requires StrictlySorted(q) && forall y :: y in q ==> Less(y, x)
    ensures StrictlySorted(q + [x])
  {
    var r := q + [x];
    forall i, j | 0 <= i < j < |r| ensures Less(r[i], r[j]) {
      if j < |q| { assert Less(q[i], q[j]); } else { assert r[i] in q; }
    }
  }

  /** The records behind a cursor, and those of them asked for. */
  ghost predicate Covers<E>(ids: seq<bytes>, looks: seq<Look<E>>, after: Option<bytes>, s: iset<bytes>) {
    && InOrder(ids, looks)
    && (forall i :: 0 <= i < |ids| ==> P.Behind(IdLess, after, ids[i]))
    && (forall x :: x in s && P.Behind(IdLess, after, x) ==> x in ids)
    && (forall i :: 0 <= i < |looks| && !looks[i].Bad? ==> (looks[i].Hit? <==> ids[i] in s))
  }

  function NextOf<E>(page: ScanPage<E>): Option<bytes>
    requires page.ScanPage?
  {
    if page.more then Some(page.lastId) else None
  }

  function AsPage<E>(page: ScanPage<E>, after: Option<bytes>): P.Page<bytes>
    requires page.ScanPage?
  {
    P.Page(after, page.ids, NextOf(page))
  }

  lemma InOrderPrefix<E>(ids: seq<bytes>, looks: seq<Look<E>>, n: nat)
    requires InOrder(ids, looks) && n <= |looks|
    ensures InOrder(ids[..n], looks[..n])
  {
    forall i, j | 0 <= i < j < n ensures Less(ids[..n][i], ids[..n][j]) {
      assert Less(ids[i], ids[j]);
    }
  }

  /** Among the first `n` records the hits are those asked for. */
  lemma HitIsWanted<E>(ids: seq<bytes>, looks: seq<Look<E>>, after: Option<bytes>, s: iset<bytes>, n: nat, x: bytes)
    requires Covers(ids, looks, after, s) && n <= |looks| && AllGood(looks[..n])
    ensures x in Hits(looks[..n]) <==> x in s && x in ids[..n]
  {
    HitsExact(looks[..n], x);
    if x in Hits(looks[..n]) {
      var i :| 0 <= i < n && looks[..n][i] == Hit(x);
      assert looks[i] == Hit(x) && ids[..n][i] == x;
    }
    if x in s && x in ids[..n] {
      var i :| 0 <= i < n && ids[..n][i] == x;
      assert !looks[..n][i].Bad?;
      assert looks[i].id == ids[i] == x;
      assert looks[..n][i] == Hit(x);
    }
  }

  /** Everything from the `n`th record on comes after everything before it. */
  lemma LaterIsGreater(ids: seq<bytes>, n: nat, x: bytes)
    requires StrictlySorted(ids) && 0 < n <= |ids| && x in ids
    ensures x in ids[..n] <==> !Less(ids[n - 1], x)
  {
    var i :| 0 <= i < |ids| && ids[i] == x;
    LessIrreflexive(x);
    if i < n - 1 {
      assert ids[..n][i] == x;
      assert Less(ids[i], ids[n - 1]);
      LessAsymmetric(x, ids[n - 1]);
    } else if i == n - 1 {
      assert ids[..n][i] == x;
    } else {
      assert Less(ids[n - 1], ids[i]);
      assert forall j :: 0 <= j < n ==> Less(ids[j], ids[i]);
    }
  }

  /** What a page that stopped at the work bound shows. */
  lemma WorkPageMembers<E>(ids: seq<bytes>, looks: seq<Look<E>>, after: Option<bytes>, s: iset<bytes>, n: nat, x: bytes)
    requires Covers(ids, looks, after, s) && 0 < n <= |looks| && AllGood(looks[..n])
    ensures x in Hits(looks[..n]) <==> x in s && P.Behind(IdLess, after, x) && !Less(ids[n - 1], x)
  {
    HitIsWanted(ids, looks, after, s, n, x);
    if x in ids {
      LaterIsGreater(ids, n, x);
      var i :| 0 <= i < |ids| && ids[i] == x;
      assert P.Behind(IdLess, after, ids[i]);
    }
  }

  /** What a page that was cut back shows. */
  lemma CutPageMembers(hits: seq<bytes>, limit: nat, x: bytes)
    requires StrictlySorted(hits) && |hits| == limit + 1 && limit >= 1
    ensures x in hits[..limit] <==> x in hits && !Less(hits[limit - 1], x)
    ensures Less(hits[limit - 1], hits[limit])
  {
    assert Less(hits[limit - 1], hits[limit]);
    if x in hits {
      LaterIsGreater(hits, limit, x);
    }
  }

  lemma PrefixSorted(q: seq<bytes>, n: nat)
    requires StrictlySorted(q) && n <= |q|
    ensures P.Sorted(IdLess, q[..n])
  {
    forall i, j | 0 <= i < j < n ensures IdLess(q[..n][i], q[..n][j]) {
      assert Less(q[i], q[j]);
    }
  }

  lemma CutShows<E>(ids: seq<bytes>, looks: seq<Look<E>>, after: Option<bytes>, s: iset<bytes>, n: nat, page: ScanPage<E>)
    requires Covers(ids, looks, after, s) && 0 < n <= |looks| && AllGood(looks[..n]) && looks[n - 1].Hit?
    requires page.ScanPage? && page.more && page.ids != [] && page.lastId == page.ids[|page.ids| - 1]
    requires Hits(looks[..n]) == page.ids + [looks[n - 1].id]
    ensures P.Shows(IdLess, AsPage(page, after), s)
  {
    var hits, limit := Hits(looks[..n]), |page.ids|;
    InOrderPrefix(ids, looks, n);
    HitsSorted(ids[..n], looks[..n]);
    assert page.ids == hits[..limit] && hits[limit] == ids[n - 1];
    PrefixSorted(hits, limit);
    CutPageMembers(hits, limit, page.lastId);
    assert page.lastId in page.ids;
    WorkPageMembers(ids, looks, after, s, n, page.lastId);
    forall x: bytes ensures x in page.ids <==> x in s && P.Behind(IdLess, after, x) && !Less(page.lastId, x) {
      CutPageMembers(hits, limit, x);
      WorkPageMembers(ids, looks, after, s, n, x);
      if Less(ids[n - 1], x) { LessTransitive(page.lastId, ids[n - 1], x); }
    }
  }

  lemma WorkShows<E>(ids: seq<bytes>, looks: seq<Look<E>>, after: Option<bytes>, s: iset<bytes>, n: nat, page: ScanPage<E>)
    requires Covers(ids, looks, after, s) && 0 < n <= |looks| && AllGood(looks[..n])
    requires page.ScanPage? && page.more && page.ids == Hits(looks[..n]) && page.lastId == ids[n - 1]
    ensures P.Shows(IdLess, AsPage(page, after), s)
  {
    InOrderPrefix(ids, looks, n);
    HitsSorted(ids[..n], looks[..n]);
    PrefixSorted(page.ids, |page.ids|);
    assert page.ids[..|page.ids|] == page.ids;
    forall x: bytes ensures x in page.ids <==> x in s && P.Behind(IdLess, after, x) && !Less(page.lastId, x) {
      WorkPageMembers(ids, looks, after, s, n, x);
    }
  }

  lemma EndShows<E>(ids: seq<bytes>, looks: seq<Look<E>>, after: Option<bytes>, s: iset<bytes>, page: ScanPage<E>)
    requires Covers(ids, looks, after, s) && AllGood(looks) && page.ScanPage? && !page.more && page.ids == Hits(looks)
    ensures P.Shows(IdLess, AsPage(page, after), s)
  {
    var n := |looks|;
    assert looks[..n] == looks && ids[..n] == ids;
    HitsSorted(ids, looks);
    PrefixSorted(page.ids, |page.ids|);
    assert page.ids[..|page.ids|] == page.ids;
    forall x: bytes ensures x in page.ids <==> x in s && P.Behind(IdLess, after, x) {
      HitIsWanted(ids, looks, after, s, n, x);
      if x in ids {
        var i :| 0 <= i < |ids| && ids[i] == x;
        assert P.Behind(IdLess, after, ids[i]);
      }
    }
  }

  /** Wherever the scan stops, its page shows what was asked for up to there. */
  lemma StoppedShows<E>(ids: seq<bytes>, looks: seq<Look<E>>, after: Option<bytes>, s: iset<bytes>,
                        n: nat, limit: nat, maxWork: nat, page: ScanPage<E>)
    requires Covers(ids, looks, after, s) && Stopped(looks, n, limit, maxWork, page)
    ensures P.Shows(IdLess, AsPage(page, after), s)
    ensures page.more ==> page.lastId in ids
  {
    if !page.more {
      assert looks[..n] == looks;
      EndShows(ids, looks, after, s, page);
    } else {
      assert !looks[..n][n - 1].Bad?;
      if n == maxWork < |looks| && page.ids == Hits(looks[..n]) && page.lastId == looks[n - 1].id {
        WorkShows(ids, looks, after, s, n, page);
      } else {
        CutShows(ids, looks, after, s, n, page);
        assert page.lastId in page.ids;
        HitsExact(looks[..n], page.lastId);
        var i :| 0 <= i < n && looks[..n][i] == Hit(page.lastId);
        assert ids[i] == page.lastId;
      }
    }
  }
}

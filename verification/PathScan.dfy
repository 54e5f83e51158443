/**
 The scan of a path query: documents in the order of their identifiers, a bounded number of them for each page.
 */
module PathScan {
  import opened Bytes
  import opened Picks
  import opened Json
  import opened KeyValue
  import opened Names
  import opened Catalog
  import opened Engine
  import opened Bounds
  import opened QueryIndex
  import opened QueryNodes
  import opened Scan
  import opened WorkScan
  import opened PathQuery
  import JsonPath
  import Keys
  import P = Paging
  import V = IndexValue

  /** What to look for, and the key documents open with. */
  datatype Search = Search(db: bytes, key: SecretKey, path: JsonPath.Path, op: CmpOp, expected: bytes)

  /** What a record of the document space turns out to be. */
  ghost function LookAt(q: Search, key: bytes, record: Record): Look<QueryError> {
    var prefix := Keys.DocsPrefix(q.db);
    if |key| < |prefix| || !ValidId(key[|prefix|..]) then Bad(Corrupted)
    else
      match OpenDoc(key, q.key, record)
      case None => Bad(Corrupted)
      case Some(doc) =>
        if Size(doc.json) > JsonPath.MAX_QUERY_NODES then Bad(OverLimit)
        else if JsonPath.Matches(q.path, doc.json, q.op, q.expected) then Hit(key[|prefix|..])
        else Miss(key[|prefix|..])
  }

  ghost function Looker(q: Search): (bytes, Record) -> Look<QueryError> {
    (key: bytes, record: Record) => LookAt(q, key, record)
  }

  method LookRecord(q: Search, key: bytes, record: Record) returns (l: Look<QueryError>)
    requires q.expected != []
    ensures l == Looker(q)(key, record)
  {
    var prefix := Keys.DocsPrefix(q.db);
    if |key| < |prefix| || !ValidId(key[|prefix|..]) {
      return Bad(Corrupted);
    }
    var id := key[|prefix|..];
    var doc := OpenDoc(key, q.key, record);
    if doc.None? {
      return Bad(Corrupted);
    }
    var matches := JsonPath.PathMatches(q.path, doc.value.json, q.op, q.expected, JsonPath.MAX_QUERY_NODES);
    if matches.None? {
      return Bad(OverLimit);
    }
    return if matches.value then Hit(id) else Miss(id);
  }

  function After(db: bytes, afterId: bytes): Option<bytes> {
    if afterId != [] then Some(Keys.Encode(Keys.DocKey(db, afterId))) else None
  }

  function DocKeysBehind(kv: Kv<Record>, db: bytes, afterId: bytes): seq<bytes> {
    KeysBehind(kv, Keys.DocsPrefix(db), PrefixEnd(Keys.DocsPrefix(db)), After(db, afterId))
  }

  ghost function DocLooks(kv: Kv<Record>, q: Search, afterId: bytes): seq<Look<QueryError>> {
    KeysBehindExact(kv, Keys.DocsPrefix(q.db), PrefixEnd(Keys.DocsPrefix(q.db)), After(q.db, afterId));
    Looks(kv, DocKeysBehind(kv, q.db, afterId), Looker(q))
  }

  /** The scan of `queryPathDocs`. */
  method ScanDocs(kv: Kv<Record>, q: Search, limit: nat, maxWork: nat, afterId: bytes)
    returns (page: ScanPage<QueryError>)
    requires limit >= 1 && maxWork >= 1 && q.expected != []
    ensures exists n :: Ends(DocLooks(kv, q, afterId), n, limit, maxWork, page)
  {
    var prefix := Keys.DocsPrefix(q.db);
    var upper := ComputePrefixEnd(prefix);
    var iter := new Iterator(kv, prefix, upper);
    var valid := iter.StartAfter(After(q.db, afterId));
    LooksAhead(kv, q, afterId, iter.Rest());
    ghost var n;
    page, n := ScanFrom(iter, valid, q, limit, maxWork, DocLooks(kv, q, afterId));
  }

  /** Its loop, from where the iterator stands. */
  method ScanFrom(iter: Iterator<Record>, start: bool, q: Search, limit: nat, maxWork: nat, ghost looks: seq<Look<QueryError>>)
    returns (page: ScanPage<QueryError>, ghost n: nat)
    requires limit >= 1 && maxWork >= 1 && q.expected != []
    requires iter.Valid() && start == iter.AtKey() && Ahead(iter.kv, iter.Rest(), Looker(q), looks, 0)
    modifies iter
    ensures Ends(looks, n, limit, maxWork, page)
  {
    var valid := start;
    ghost var keys := iter.Rest();
    n := 0;
    var ids: seq<bytes> := [];
    var lastId: bytes := [];
    var work := 0;
    while valid
      invariant iter.Valid() && valid == iter.AtKey() && n == work
      invariant keys == iter.Rest() && Ahead(iter.kv, keys, Looker(q), looks, n)
      invariant Going(looks, n, limit, maxWork, ids, lastId)
      decreases |iter.keys| - iter.position
    {
      if work >= maxWork {
        StopAtWork(looks, n, limit, ids, lastId);
        return ScanPage(ids, lastId, true), n;
      }
      var found := LookRecord(q, iter.Key(), iter.CurrentValue());
      AheadNext(iter.kv, keys, Looker(q), looks, n);
      if found.Bad? {
        return ScanFailed(found.error), n;
      }
      GoOn(looks, n, limit, maxWork, ids, lastId);
      n := n + 1;
      lastId := found.id;
      if found.Hit? {
        ids := ids + [found.id];
      }
      if |ids| > limit {
        return ScanPage(ids[..limit], ids[limit - 1], true), n;
      }
      keys := keys[1..];
      valid := iter.Next();
      work := work + 1;
    }
    StopAtEnd(looks, n, limit, maxWork, ids, lastId);
    return ScanPage(ids, lastId, false), n;
  }

  /** The scan ends after `n` records, with a page or on one that cannot be read or is too large. */
  ghost predicate Ends(looks: seq<Look<QueryError>>, n: nat, limit: nat, maxWork: nat, page: ScanPage<QueryError>) {
    if page.ScanFailed? then
      && n < |looks| && looks[n] == Bad(page.error)
      && n < maxWork && AllGood(looks[..n]) && |Hits(looks[..n])| <= limit
    else Stopped(looks, n, limit, maxWork, page)
  }

  lemma LooksAhead(kv: Kv<Record>, q: Search, afterId: bytes, keys: seq<bytes>)
    requires keys == DocKeysBehind(kv, q.db, afterId)
    ensures Ahead(kv, keys, Looker(q), DocLooks(kv, q, afterId), 0)
  {
    KeysBehindExact(kv, Keys.DocsPrefix(q.db), PrefixEnd(Keys.DocsPrefix(q.db)), After(q.db, afterId));
    assert DocLooks(kv, q, afterId)[0..] == DocLooks(kv, q, afterId);
  }

  // ---------------------------------------------------------------------------
  // On a represented store

  /** The documents of a search. */
  ghost function Wanted(a: Store, db: bytes, path: JsonPath.Path, op: CmpOp, expected: bytes): iset<bytes> {
    iset id | PathMatching(a, db, path, op, expected, id)
  }

  function AfterId(afterId: bytes): Option<bytes> {
    if afterId != [] then Some(afterId) else None
  }

  /** The identifier in the key of a document. */
  function IdIn(db: bytes, key: bytes): bytes {
    if Keys.DocsPrefix(db) <= key then key[|Keys.DocsPrefix(db)|..] else []
  }

  lemma IdInKey(db: bytes, id: bytes)
    ensures IdIn(db, Keys.Encode(Keys.DocKey(db, id))) == id
  {
  }

  /** The identifiers in the keys behind a cursor. */
  ghost function IdsBehind(kv: Kv<Record>, db: bytes, afterId: bytes): (ids: seq<bytes>)
    ensures |ids| == |DocKeysBehind(kv, db, afterId)|
    ensures forall i :: 0 <= i < |ids| ==> ids[i] == IdIn(db, DocKeysBehind(kv, db, afterId)[i])
  {
    var keys := DocKeysBehind(kv, db, afterId);
    seq(|keys|, i requires 0 <= i < |keys| => IdIn(db, keys[i]))
  }

  /** A key of the document space is that of a document of the database. */
  lemma DocKeyThere(kv: Kv<Record>, a: Store, db: bytes, b: bytes)
    requires Represents(kv, a) && ValidName(db) && b in kv && Keys.DocsPrefix(db) <= b
    ensures var id := IdIn(db, b);
            ValidId(id) && Find(a, db, id).Some? && kv[b] == DocRecord(a[db].key, b, Find(a, db, id).value)
  {
    assert IsKey(b);
    var k :| Keys.Valid(k) && b == Keys.Encode(k);
    Keys.DocsRange(db, k);
    assert Get(kv, Keys.Encode(k)) == Expected(a, k);
    IdInKey(db, k.id);
  }

  lemma DocThere(kv: Kv<Record>, a: Store, db: bytes, id: bytes)
    requires Represents(kv, a) && db in a && id in a[db].docs
    ensures ValidName(db) && ValidId(id) && Keys.Encode(Keys.DocKey(db, id)) in kv
    ensures Within(Keys.Encode(Keys.DocKey(db, id)), Keys.DocsPrefix(db), PrefixEnd(Keys.DocsPrefix(db)))
  {
    assert ValidName(db) && ValidDatabase(a[db]) && ValidDoc(id, a[db].docs[id], a[db].defs);
    var k := Keys.DocKey(db, id);
    assert Keys.Valid(k);
    assert Get(kv, Keys.Encode(k)) == Expected(a, k);
    PrefixEndExact(Keys.DocsPrefix(db), Keys.Encode(k));
  }

  lemma DocKeyOrder(db: bytes, x: bytes, y: bytes)
    ensures Less(Keys.Encode(Keys.DocKey(db, x)), Keys.Encode(Keys.DocKey(db, y))) <==> Less(x, y)
  {
    LessAfterPrefix(Keys.DocsPrefix(db), x, y);
  }

  /** The keys behind a cursor are those of the documents behind it. */
  lemma KeysOfDocs(kv: Kv<Record>, a: Store, db: bytes, afterId: bytes, b: bytes)
    requires Represents(kv, a) && db in a && ValidName(db) && b in DocKeysBehind(kv, db, afterId)
    ensures Keys.DocsPrefix(db) <= b && b in kv
    ensures var id := IdIn(db, b);
            && b == Keys.Encode(Keys.DocKey(db, id)) && ValidId(id) && id in a[db].docs && P.Behind(IdLess, AfterId(afterId), id)
            && kv[b] == DocRecord(a[db].key, b, a[db].docs[id])
  {
    KeysBehindExact(kv, Keys.DocsPrefix(db), PrefixEnd(Keys.DocsPrefix(db)), After(db, afterId));
    PrefixEndExact(Keys.DocsPrefix(db), b);
    DocKeyThere(kv, a, db, b);
    BehindCursor(db, afterId, b);
  }

  lemma BehindCursor(db: bytes, afterId: bytes, b: bytes)
    requires Keys.DocsPrefix(db) <= b && (After(db, afterId).Some? ==> Less(After(db, afterId).value, b))
    ensures var id := IdIn(db, b); b == Keys.Encode(Keys.DocKey(db, id)) && P.Behind(IdLess, AfterId(afterId), id)
  {
    var id := IdIn(db, b);
    assert b == Keys.DocsPrefix(db) + id;
    DocKeyOrder(db, afterId, id);
  }

  lemma DocsHaveKeys(kv: Kv<Record>, a: Store, db: bytes, afterId: bytes, id: bytes)
    requires Represents(kv, a) && db in a && id in a[db].docs && P.Behind(IdLess, AfterId(afterId), id)
    ensures Keys.Encode(Keys.DocKey(db, id)) in DocKeysBehind(kv, db, afterId)
  {
    DocThere(kv, a, db, id);
    DocKeyOrder(db, afterId, id);
    KeysBehindExact(kv, Keys.DocsPrefix(db), PrefixEnd(Keys.DocsPrefix(db)), After(db, afterId));
  }

  /** Bad are exactly the documents that are too large. */
  ghost predicate LooksRight(a: Store, db: bytes, id: bytes, l: Look<QueryError>)
    requires db in a
  {
    && id in a[db].docs && (l.Bad? ==> l.error == OverLimit)
    && (l.Bad? <==> Size(a[db].docs[id].json) > JsonPath.MAX_QUERY_NODES)
  }

  /** What looking at a stored document tells. */
  lemma LookTells(a: Store, q: Search, b: bytes, record: Record)
    requires q.db in a && q.key == a[q.db].key && Keys.DocsPrefix(q.db) <= b
    requires var id := IdIn(q.db, b);
             ValidId(id) && id in a[q.db].docs && record == DocRecord(a[q.db].key, b, a[q.db].docs[id])
    ensures var id, l := IdIn(q.db, b), Looker(q)(b, record);
            && LooksRight(a, q.db, id, l)
            && (!l.Bad? ==> l.id == id && (l.Hit? <==> id in Wanted(a, q.db, q.path, q.op, q.expected)))
  {
  }

  lemma LookAtEach(kv: Kv<Record>, a: Store, q: Search, afterId: bytes, i: nat)
    requires Represents(kv, a) && q.db in a && ValidName(q.db) && q.key == a[q.db].key && i < |IdsBehind(kv, q.db, afterId)|
    ensures var id, l := IdsBehind(kv, q.db, afterId)[i], DocLooks(kv, q, afterId)[i];
            && DocKeysBehind(kv, q.db, afterId)[i] == Keys.Encode(Keys.DocKey(q.db, id))
            && P.Behind(IdLess, AfterId(afterId), id) && LooksRight(a, q.db, id, l)
            && (!l.Bad? ==> l.id == id && (l.Hit? <==> id in Wanted(a, q.db, q.path, q.op, q.expected)))
  {
    var b := DocKeysBehind(kv, q.db, afterId)[i];
    assert b in DocKeysBehind(kv, q.db, afterId);
    KeysOfDocs(kv, a, q.db, afterId, b);
    LookTells(a, q, b, kv[b]);
  }

  lemma KeyAt(kv: Kv<Record>, a: Store, db: bytes, afterId: bytes, i: nat)
    requires Represents(kv, a) && db in a && ValidName(db) && i < |IdsBehind(kv, db, afterId)|
    ensures DocKeysBehind(kv, db, afterId)[i] == Keys.Encode(Keys.DocKey(db, IdsBehind(kv, db, afterId)[i]))
    ensures IdsBehind(kv, db, afterId)[i] in a[db].docs && P.Behind(IdLess, AfterId(afterId), IdsBehind(kv, db, afterId)[i])
  {
    var b := DocKeysBehind(kv, db, afterId)[i];
    assert b in DocKeysBehind(kv, db, afterId);
    KeysOfDocs(kv, a, db, afterId, b);
  }

  lemma IdsSorted(kv: Kv<Record>, a: Store, db: bytes, afterId: bytes)
    requires Represents(kv, a) && db in a && ValidName(db)
    ensures StrictlySorted(IdsBehind(kv, db, afterId))
  {
    var keys, ids := DocKeysBehind(kv, db, afterId), IdsBehind(kv, db, afterId);
    KeysBehindExact(kv, Keys.DocsPrefix(db), PrefixEnd(Keys.DocsPrefix(db)), After(db, afterId));
    forall i, j | 0 <= i < j < |ids| ensures Less(ids[i], ids[j]) {
      assert Less(keys[i], keys[j]);
      KeyAt(kv, a, db, afterId, i);
      KeyAt(kv, a, db, afterId, j);
      DocKeyOrder(db, ids[i], ids[j]);
    }
  }

  /** The identifiers behind a cursor are those of the documents there. */
  lemma IdsAreDocs(kv: Kv<Record>, a: Store, db: bytes, afterId: bytes, x: bytes)
    requires Represents(kv, a) && db in a && ValidName(db)
    ensures x in IdsBehind(kv, db, afterId) <==> x in a[db].docs && P.Behind(IdLess, AfterId(afterId), x)
  {
    var ids := IdsBehind(kv, db, afterId);
    if x in ids {
      var i :| 0 <= i < |ids| && ids[i] == x;
      KeyAt(kv, a, db, afterId, i);
    }
    if x in a[db].docs && P.Behind(IdLess, AfterId(afterId), x) {
      DocsHaveKeys(kv, a, db, afterId, x);
      KeyHasId(kv, db, afterId, x);
    }
  }

  lemma KeyHasId(kv: Kv<Record>, db: bytes, afterId: bytes, x: bytes)
    requires Keys.Encode(Keys.DocKey(db, x)) in DocKeysBehind(kv, db, afterId)
    ensures x in IdsBehind(kv, db, afterId)
  {
    var keys := DocKeysBehind(kv, db, afterId);
    var i :| 0 <= i < |keys| && keys[i] == Keys.Encode(Keys.DocKey(db, x));
    IdInKey(db, x);
    assert IdsBehind(kv, db, afterId)[i] == x;
  }

  /** The identifiers behind a cursor and what a scan finds under them. */
  ghost predicate ScanOf(a: Store, q: Search, afterId: bytes, ids: seq<bytes>, looks: seq<Look<QueryError>>) {
    && q.db in a
    && Covers(ids, looks, AfterId(afterId), Wanted(a, q.db, q.path, q.op, q.expected))
    && (forall x :: x in ids <==> x in a[q.db].docs && P.Behind(IdLess, AfterId(afterId), x))
    && (forall i :: 0 <= i < |looks| ==> LooksRight(a, q.db, ids[i], looks[i]))
  }

  lemma DocsScan(kv: Kv<Record>, a: Store, q: Search, afterId: bytes)
    requires Represents(kv, a) && q.db in a && ValidName(q.db) && q.key == a[q.db].key
    ensures ScanOf(a, q, afterId, IdsBehind(kv, q.db, afterId), DocLooks(kv, q, afterId))
  {
    var ids, looks, s := IdsBehind(kv, q.db, afterId), DocLooks(kv, q, afterId), Wanted(a, q.db, q.path, q.op, q.expected);
    IdsSorted(kv, a, q.db, afterId);
    forall x ensures x in ids <==> x in a[q.db].docs && P.Behind(IdLess, AfterId(afterId), x) {
      IdsAreDocs(kv, a, q.db, afterId, x);
    }
    forall i | 0 <= i < |looks|
      ensures LooksRight(a, q.db, ids[i], looks[i]) && P.Behind(IdLess, AfterId(afterId), ids[i])
      ensures looks[i].Bad? || (looks[i].id == ids[i] && (looks[i].Hit? <==> ids[i] in s))
    {
      LookAtEach(kv, a, q, afterId, i);
    }
    CoversFrom(ids, looks, AfterId(afterId), s);
  }

  lemma CoversFrom(ids: seq<bytes>, looks: seq<Look<QueryError>>, after: Option<bytes>, s: iset<bytes>)
    requires |ids| == |looks| && StrictlySorted(ids)
    requires forall x :: x in s && P.Behind(IdLess, after, x) ==> x in ids
    requires forall i :: 0 <= i < |looks| ==> P.Behind(IdLess, after, ids[i])
    requires forall i :: 0 <= i < |looks| ==> looks[i].Bad? || (looks[i].id == ids[i] && (looks[i].Hit? <==> ids[i] in s))
    ensures Covers(ids, looks, after, s)
  {
  }

  // ---------------------------------------------------------------------------
  // The query

  const MAX_SCAN_DOCS: nat := 10_000

  /** The documents behind a cursor up to another. */
  function Between(a: Store, db: bytes, after: Option<bytes>, last: bytes): set<bytes>
    requires db in a
  {
    set id | id in a[db].docs && P.Behind(IdLess, after, id) && !Less(last, id)
  }

  /**
   What a page of a scan says: it fails exactly if the scan comes to a document that is too large. Otherwise it has
   the documents asked for up to where it stopped, and it stops short of the end only when full or after
   looking at as many documents as it may.
   */
  ghost predicate ScanAnswers(a: Store, db: bytes, path: JsonPath.Path, op: CmpOp, expected: bytes, afterId: bytes,
                              limit: nat, maxWork: nat, page: ScanPage<QueryError>)
    requires db in a
  {
    if page.ScanFailed? then page.error == OverLimit && exists id :: Stumbles(a, db, path, op, expected, afterId, limit, maxWork, id)
    else
      && ScanShows(a, db, path, op, expected, afterId, limit, maxWork, page)
      && forall id :: !Stumbles(a, db, path, op, expected, afterId, limit, maxWork, id)
  }

  ghost predicate ScanShows(a: Store, db: bytes, path: JsonPath.Path, op: CmpOp, expected: bytes, afterId: bytes,
                            limit: nat, maxWork: nat, page: ScanPage<QueryError>)
    requires db in a && page.ScanPage?
  {
    && P.Shows(IdLess, AsPage(page, AfterId(afterId)), Wanted(a, db, path, op, expected)) && |page.ids| <= limit
    && (page.more ==> page.lastId in a[db].docs
                      && (|page.ids| == limit || |Between(a, db, AfterId(afterId), page.lastId)| == maxWork))
  }

  /** The documents behind a cursor and before another. */
  function Earlier(a: Store, db: bytes, after: Option<bytes>, id: bytes): set<bytes>
    requires db in a
  {
    set x | x in a[db].docs && P.Behind(IdLess, after, x) && Less(x, id)
  }

  function EarlierHits(a: Store, db: bytes, path: JsonPath.Path, op: CmpOp, expected: bytes, after: Option<bytes>, id: bytes): set<bytes>
    requires db in a
  {
    set x | x in Earlier(a, db, after, id) && PathMatching(a, db, path, op, expected, x)
  }

  /** A document that is too large, with few enough documents before it for the scan to come to it. */
  ghost predicate Stumbles(a: Store, db: bytes, path: JsonPath.Path, op: CmpOp, expected: bytes, afterId: bytes,
                           limit: nat, maxWork: nat, id: bytes)
    requires db in a
  {
    && TooLarge(a, db, afterId, id)
    && |Earlier(a, db, AfterId(afterId), id)| < maxWork
    && |EarlierHits(a, db, path, op, expected, AfterId(afterId), id)| <= limit
  }

  ghost predicate TooLarge(a: Store, db: bytes, afterId: bytes, id: bytes)
    requires db in a
  {
    id in a[db].docs && P.Behind(IdLess, AfterId(afterId), id) && Size(a[db].docs[id].json) > JsonPath.MAX_QUERY_NODES
  }

  lemma {:induction false} SortedSize(q: seq<bytes>, s: set<bytes>)
    requires StrictlySorted(q) && forall x :: x in s <==> x in q
    ensures |s| == |q|
    decreases |q|
  {
    if q == [] {
      assert s == {};
    } else {
      var n := |q| - 1;
      var x := q[n];
      forall i | 0 <= i < n ensures q[i] != x {
        assert Less(q[i], q[n]);
        LessIrreflexive(x);
      }
      forall i, j | 0 <= i < j < n ensures Less(q[..n][i], q[..n][j]) {
        assert Less(q[i], q[j]);
      }
      forall y ensures y in s - {x} <==> y in q[..n] {
        LastOff(q, y);
      }
      SortedSize(q[..n], s - {x});
      assert x in s;
    }
  }

  lemma LastOff(q: seq<bytes>, y: bytes)
    requires q != [] && forall i :: 0 <= i < |q| - 1 ==> q[i] != q[|q| - 1]
    ensures y in q && y != q[|q| - 1] <==> y in q[..|q| - 1]
  {
    if y in q && y != q[|q| - 1] {
      var i :| 0 <= i < |q| && q[i] == y;
      assert q[..|q| - 1][i] == y;
    }
  }

  lemma PrefixSortedToo(q: seq<bytes>, n: nat)
    requires StrictlySorted(q) && n <= |q|
    ensures StrictlySorted(q[..n])
  {
    forall i, j | 0 <= i < j < n ensures Less(q[..n][i], q[..n][j]) {
      assert Less(q[i], q[j]);
    }
  }

  // ---------------------------------------------------------------------------
  // Where a scan stops

  /** After `n` records the scan has passed exactly `n` documents. */
  lemma PassedCount(a: Store, q: Search, afterId: bytes, ids: seq<bytes>, looks: seq<Look<QueryError>>, n: nat)
    requires ScanOf(a, q, afterId, ids, looks) && 0 < n <= |ids|
    ensures |Between(a, q.db, AfterId(afterId), ids[n - 1])| == n
  {
    var passed := Between(a, q.db, AfterId(afterId), ids[n - 1]);
    PrefixSortedToo(ids, n);
    forall x ensures x in passed <==> x in ids[..n] {
      if x in ids { LaterIsGreater(ids, n, x); }
    }
    SortedSize(ids[..n], passed);
  }

  lemma StoppedWhere(ids: seq<bytes>, looks: seq<Look<QueryError>>, n: nat, limit: nat, maxWork: nat, page: ScanPage<QueryError>)
    requires InOrder(ids, looks) && Stopped(looks, n, limit, maxWork, page) && page.more
    ensures 0 < n <= |ids|
    ensures |page.ids| == limit || (n == maxWork && page.lastId == ids[n - 1])
  {
    assert !looks[..n][n - 1].Bad?;
  }

  lemma PageAnswers(a: Store, q: Search, afterId: bytes, ids: seq<bytes>, looks: seq<Look<QueryError>>,
                    limit: nat, maxWork: nat, page: ScanPage<QueryError>, n: nat)
    requires ScanOf(a, q, afterId, ids, looks) && Stopped(looks, n, limit, maxWork, page)
    ensures ScanShows(a, q.db, q.path, q.op, q.expected, afterId, limit, maxWork, page)
  {
    StoppedShows(ids, looks, AfterId(afterId), Wanted(a, q.db, q.path, q.op, q.expected), n, limit, maxWork, page);
    if page.more {
      StoppedWhere(ids, looks, n, limit, maxWork, page);
      PassedCount(a, q, afterId, ids, looks, n);
    }
  }

  /** The records before the `n`th are the documents before it. */
  lemma EarlierIsPrefix(ids: seq<bytes>, n: nat, x: bytes)
    requires StrictlySorted(ids) && n < |ids|
    ensures x in ids[..n] <==> x in ids && Less(x, ids[n])
  {
    LessIrreflexive(ids[n]);
    assert forall j :: n < j < |ids| ==> Less(ids[n], ids[j]);
    if x in ids[..n] {
      var i :| 0 <= i < n && ids[..n][i] == x;
      assert ids[i] == x && Less(ids[i], ids[n]);
    }
    if x in ids && Less(x, ids[n]) {
      var i :| 0 <= i < |ids| && ids[i] == x;
      LessAsymmetric(x, ids[n]);
      assert ids[..n][i] == x;
    }
  }

  lemma EarlierExact(a: Store, q: Search, afterId: bytes, ids: seq<bytes>, looks: seq<Look<QueryError>>, n: nat)
    requires ScanOf(a, q, afterId, ids, looks) && n < |ids|
    ensures |Earlier(a, q.db, AfterId(afterId), ids[n])| == n
    ensures forall x :: x in Earlier(a, q.db, AfterId(afterId), ids[n]) <==> x in ids[..n]
  {
    var earlier := Earlier(a, q.db, AfterId(afterId), ids[n]);
    PrefixSortedToo(ids, n);
    forall x ensures x in earlier <==> x in ids[..n] {
      EarlierIsPrefix(ids, n, x);
    }
    SortedSize(ids[..n], earlier);
  }

  /** Among the documents before the `i`th, those matching are at least the hits of the first `n`, and no others if that is all. */
  lemma HitsEarlier(a: Store, q: Search, afterId: bytes, ids: seq<bytes>, looks: seq<Look<QueryError>>, n: nat, i: nat)
    requires ScanOf(a, q, afterId, ids, looks) && n <= i < |ids| && AllGood(looks[..n])
    ensures var found := EarlierHits(a, q.db, q.path, q.op, q.expected, AfterId(afterId), ids[i]);
            |Hits(looks[..n])| <= |found| && (n == i ==> |found| == |Hits(looks[..n])|)
  {
    var found := EarlierHits(a, q.db, q.path, q.op, q.expected, AfterId(afterId), ids[i]);
    var hits := set x | x in Hits(looks[..n]);
    EarlierExact(a, q, afterId, ids, looks, i);
    InOrderPrefix(ids, looks, n);
    HitsSorted(ids[..n], looks[..n]);
    SortedSize(Hits(looks[..n]), hits);
    forall x ensures x in hits ==> x in found
             ensures n == i && x in found ==> x in hits
    {
      HitIsWanted(ids, looks, AfterId(afterId), Wanted(a, q.db, q.path, q.op, q.expected), n, x);
      if x in ids[..n] { LongerPrefix(ids, n, i, x); }
    }
    SubsetSize(hits, found);
    if n == i { SubsetSize(found, hits); }
  }

  lemma LongerPrefix(ids: seq<bytes>, n: nat, i: nat, x: bytes)
    requires n <= i <= |ids| && x in ids[..n]
    ensures x in ids[..i]
  {
    var j :| 0 <= j < n && ids[..n][j] == x;
    assert ids[..i][j] == x;
  }

  lemma FailureAnswers(a: Store, q: Search, afterId: bytes, ids: seq<bytes>, looks: seq<Look<QueryError>>,
                       limit: nat, maxWork: nat, n: nat, error: QueryError)
    requires ScanOf(a, q, afterId, ids, looks) && Ends(looks, n, limit, maxWork, ScanFailed(error))
    ensures error == OverLimit && exists id :: Stumbles(a, q.db, q.path, q.op, q.expected, afterId, limit, maxWork, id)
  {
    assert LooksRight(a, q.db, ids[n], looks[n]) && ids[n] in ids;
    EarlierExact(a, q, afterId, ids, looks, n);
    HitsEarlier(a, q, afterId, ids, looks, n, n);
    assert Stumbles(a, q.db, q.path, q.op, q.expected, afterId, limit, maxWork, ids[n]);
  }

  /** A scan that has stopped has not passed a document that is too large, and had reason to stop before it. */
  lemma StoppedBefore(looks: seq<Look<QueryError>>, n: nat, limit: nat, maxWork: nat, page: ScanPage<QueryError>, i: nat)
    requires Stopped(looks, n, limit, maxWork, page) && i < |looks| && looks[i].Bad? && i < maxWork
    ensures n <= i && AllGood(looks[..n]) && |Hits(looks[..n])| == limit + 1
  {
    assert forall j :: 0 <= j < n ==> looks[..n][j] == looks[j];
  }

  lemma NoStumble(a: Store, q: Search, afterId: bytes, ids: seq<bytes>, looks: seq<Look<QueryError>>,
                  limit: nat, maxWork: nat, page: ScanPage<QueryError>, n: nat, id: bytes)
    requires ScanOf(a, q, afterId, ids, looks) && Stopped(looks, n, limit, maxWork, page) && TooLarge(a, q.db, afterId, id)
    ensures |Earlier(a, q.db, AfterId(afterId), id)| >= maxWork
         || |EarlierHits(a, q.db, q.path, q.op, q.expected, AfterId(afterId), id)| > limit
  {
    assert id in ids;
    var i :| 0 <= i < |ids| && ids[i] == id;
    assert LooksRight(a, q.db, ids[i], looks[i]);
    EarlierExact(a, q, afterId, ids, looks, i);
    if i < maxWork {
      StoppedBefore(looks, n, limit, maxWork, page, i);
      HitsEarlier(a, q, afterId, ids, looks, n, i);
    }
  }

  /** What the end of a scan comes to. */
  lemma EndAnswers(a: Store, q: Search, afterId: bytes, ids: seq<bytes>, looks: seq<Look<QueryError>>,
                   limit: nat, maxWork: nat, page: ScanPage<QueryError>, n: nat)
    requires ScanOf(a, q, afterId, ids, looks) && Ends(looks, n, limit, maxWork, page)
    ensures ScanAnswers(a, q.db, q.path, q.op, q.expected, afterId, limit, maxWork, page)
  {
    if page.ScanFailed? {
      FailureAnswers(a, q, afterId, ids, looks, limit, maxWork, n, page.error);
    } else {
      PageAnswers(a, q, afterId, ids, looks, limit, maxWork, page, n);
      forall id ensures !Stumbles(a, q.db, q.path, q.op, q.expected, afterId, limit, maxWork, id) {
        if TooLarge(a, q.db, afterId, id) { NoStumble(a, q, afterId, ids, looks, limit, maxWork, page, n, id); }
      }
    }
  }

  /** What a scan wants are the documents sought. */
  lemma WantedMeans(a: Store, db: bytes, path: JsonPath.Path, op: CmpOp, value: Json)
    requires V.Encode(value).Value? && (op == Eq || value.Number? || value.Str?)
    ensures Wanted(a, db, path, op, V.Encode(value).bytes) == iset id | Sought(a, db, path, op, value, id)
  {
    forall id ensures id in Wanted(a, db, path, op, V.Encode(value).bytes) <==> Sought(a, db, path, op, value, id) {
      PathMatchingMeans(a, db, path, op, value, id);
    }
  }

  /** `queryPathDocs` */
  method QueryPathDocs(kv: Kv<Record>, db: bytes, path: JsonPath.Path, op: CmpOp, value: Json, limit: nat, maxWork: nat,
                       afterId: bytes, ghost a: Store)
    returns (page: ScanPage<QueryError>)
    requires ValidName(db) && limit >= 1 && maxWork >= 1
    ensures Represents(kv, a) ==>
              if db !in a then page == ScanFailed(NoDatabase)
              else if V.Encode(value).Failed? then page == ScanFailed(BadValue)
              else ScanAnswers(a, db, path, op, V.Encode(value).bytes, afterId, limit, maxWork, page)
    ensures Represents(kv, a) && page.ScanPage? && (op == Eq || value.Number? || value.Str?) ==>
              P.Shows(IdLess, AsPage(page, AfterId(afterId)), iset id | Sought(a, db, path, op, value, id))
  {
    if Represents(kv, a) { ReadsDbKey(kv, a, db); }
    var key := ReadDbKey(kv, db);
    if !key.Found? {
      return ScanFailed(if key.Missing? then NoDatabase else Corrupted);
    }
    var encoded := V.Encode(value);
    if encoded.Failed? {
      return ScanFailed(BadValue);
    }
    V.EncodedValid(value);
    var q := Search(db, key.value, path, op, encoded.bytes);
    page := ScanDocs(kv, q, limit, maxWork, afterId);
    if Represents(kv, a) {
      ghost var n :| Ends(DocLooks(kv, q, afterId), n, limit, maxWork, page);
      DocsScan(kv, a, q, afterId);
      EndAnswers(a, q, afterId, IdsBehind(kv, db, afterId), DocLooks(kv, q, afterId), limit, maxWork, page, n);
      if op == Eq || value.Number? || value.Str? { WantedMeans(a, db, path, op, value); }
    }
  }
}

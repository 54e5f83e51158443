/**
 Index queries as the store runs them: one page from a cursor on. On a store that represents something they
 return the answer, page by page, and never report corruption.
 */
module QueryIndex {
  import opened Bytes
  import opened KeyValue
  import opened Names
  import opened Catalog
  import opened Definitions
  import opened Engine
  import opened Bounds
  import opened IndexEntry
  import opened Answers
  import opened Scan
  import Keys
  import V = IndexValue

  datatype QueryError = NoDatabase | NoIndex | BadValue | BadCursor | Corrupted | OverLimit

  datatype Result = Page(ids: seq<bytes>, lastValue: bytes, more: bool) | Failed(error: QueryError)

  function Ids(entries: seq<Entry>): (ids: seq<bytes>)
    ensures |ids| == |entries| && forall i :: 0 <= i < |entries| ==> ids[i] == entries[i].id
  {
    seq(|entries|, i requires 0 <= i < |entries| => entries[i].id)
  }

  /** The first `limit` entries as a page. */
  function PageOf(entries: seq<Entry>, limit: nat): Result
    requires limit >= 1
  {
    if |entries| > limit then Page(Ids(entries[..limit]), entries[limit - 1].value, true)
    else Page(Ids(entries), [], false)
  }

  /** The same without the value of the last entry, which an exact query does not need. */
  function IdPage(entries: seq<Entry>, limit: nat): Result
    requires limit >= 1
  {
    if |entries| > limit then Page(Ids(entries[..limit]), [], true) else Page(Ids(entries), [], false)
  }

  /** `findIndex` */
  method FindIndex(defs: seq<IndexDef>, index: bytes) returns (found: bool)
    ensures found <==> exists i :: 0 <= i < |defs| && defs[i].name == index
  {
    var i := 0;
    while i < |defs|
      invariant 0 <= i <= |defs|
      invariant forall j :: 0 <= j < i ==> defs[j].name != index
    {
      if defs[i].name == index {
        return true;
      }
      i := i + 1;
    }
    return false;
  }

  lemma ListingHas(defs: Defs, index: bytes)
    ensures index in defs <==> exists i :: 0 <= i < |Listing(defs)| && Listing(defs)[i].name == index
  {
    var names := Ascending(defs.Keys);
    if index in defs {
      assert index in names;
      var i :| 0 <= i < |names| && names[i] == index;
      assert Listing(defs)[i].name == index;
    }
    forall i | 0 <= i < |Listing(defs)| ensures Listing(defs)[i].name in defs {
      assert names[i] in names;
    }
  }

  /** The database and the index must exist. */
  method CheckIndex(kv: Kv<Record>, db: bytes, index: bytes, ghost a: Store) returns (e: Option<QueryError>)
    requires ValidName(db)
    ensures Represents(kv, a) ==> e == if db !in a then Some(NoDatabase) else if index !in a[db].defs then Some(NoIndex) else None
  {
    if Represents(kv, a) { ReadsDbKey(kv, a, db); }
    var key := ReadDbKey(kv, db);
    if key.Broken? {
      return Some(Corrupted);
    }
    if key.Missing? {
      return Some(NoDatabase);
    }
    var defs := Indexes(kv, db, a);
    if defs.Corrupt? {
      return Some(Corrupted);
    }
    if Represents(kv, a) { ListingHas(a[db].defs, index); }
    var found := FindIndex(defs.defs, index);
    if !found {
      return Some(NoIndex);
    }
    return None;
  }

  /** Why a query is refused on the store. */
  function Refusal(a: Store, q: Query): Option<QueryError> {
    if q.db !in a then Some(NoDatabase)
    else if q.index !in a[q.db].defs then Some(NoIndex)
    else if !V.Valid(q.value) || (q.op != Eq && q.value[0] != V.NUMBER && q.value[0] != V.STRING) then Some(BadValue)
    else None
  }

  // ---------------------------------------------------------------------------
  // Reading entries

  /** The entry under a key, unless the key cannot be cut, the record has content or the identifier is no identifier. */
  function ReadEntry(q: Query, key: bytes, record: Record): Option<Entry>
    requires q.value != []
  {
    if q.op == Eq && !(Boundary(q) <= key) then None
    else if q.op != Eq && SplitIndexEntry(TypePrefix(q), key).None? then None
    else if record != Marker || !ValidId(EntryAt(q, key).id) then None
    else Some(EntryAt(q, key))
  }

  function Reading(q: Query): Reader<Record, Entry>
    requires q.value != []
  {
    (key: bytes, record: Record) => ReadEntry(q, key, record)
  }

  /** Whether the document of an entry is there. */
  function Present(kv: Kv<Record>, db: bytes): Entry -> bool {
    (e: Entry) => Keys.Encode(Keys.DocKey(db, e.id)) in kv
  }

  lemma SelectedReads(kv: Kv<Record>, a: Store, q: Query, b: bytes)
    requires Represents(kv, a) && Answerable(q) && b in QueryKeys(kv, q)
    ensures b in kv && Reading(q)(b, kv[b]) == Some(EntryAt(q, b)) && Present(kv, q.db)(EntryAt(q, b))
  {
    SelectedKey(kv, a, q, b);
    DocumentThere(kv, a, q, EntryAt(q, b));
    FitReads(kv, q, b);
  }

  lemma FitReads(kv: Kv<Record>, q: Query, b: bytes)
    requires q.value != [] && b in kv && kv[b] == Marker && ValidId(EntryAt(q, b).id)
    requires if q.op == Eq then Boundary(q) <= b else SplitIndexEntry(TypePrefix(q), b).Some?
    requires Keys.Encode(Keys.DocKey(q.db, EntryAt(q, b).id)) in kv
    ensures Reading(q)(b, kv[b]) == Some(EntryAt(q, b)) && Present(kv, q.db)(EntryAt(q, b))
  {
  }

  /** Every key can be read, and together they give the entries. */
  ghost predicate ReadsAs(kv: Kv<Record>, q: Query, after: Option<Entry>, entries: seq<Entry>)
    requires q.value != []
  {
    var keys := KeysAfter(kv, q, after);
    Readable(kv, keys, Reading(q), Present(kv, q.db)) && Items(kv, keys, Reading(q), Present(kv, q.db)) == entries
  }

  lemma ReadAt(kv: Kv<Record>, a: Store, q: Query, after: Option<Entry>, i: nat)
    requires Represents(kv, a) && Answerable(q) && i < |KeysAfter(kv, q, after)|
    ensures ItemAt(kv, KeysAfter(kv, q, after)[i], Reading(q), Present(kv, q.db), EntriesAt(q, KeysAfter(kv, q, after))[i])
  {
    KeysAfterExact(kv, q, after);
    assert KeysAfter(kv, q, after)[i] in KeysAfter(kv, q, after);
    SelectedReads(kv, a, q, KeysAfter(kv, q, after)[i]);
  }

  lemma ReadsEntries(kv: Kv<Record>, a: Store, q: Query, after: Option<Entry>)
    requires Represents(kv, a) && Answerable(q)
    ensures ReadsAs(kv, q, after, EntriesAt(q, KeysAfter(kv, q, after)))
  {
    var keys := KeysAfter(kv, q, after);
    var entries := EntriesAt(q, keys);
    forall i | 0 <= i < |keys| ensures ItemAt(kv, keys[i], Reading(q), Present(kv, q.db), entries[i]) {
      ReadAt(kv, a, q, after, i);
    }
    LeftItems(kv, keys, Reading(q), Present(kv, q.db), entries);
  }

  /** On a represented store a query meets no bad entry, and reads its answer. */
  lemma ReadsAnswer(kv: Kv<Record>, a: Store, q: Query, after: Option<Entry>)
    requires Represents(kv, a) && Answerable(q) && (after.Some? ==> V.Valid(after.value.value))
    ensures ReadsAs(kv, q, after, AnswerTo(a, q, after)) && Listed(AnswerTo(a, q, after), a, q, after)
  {
    ReadsEntries(kv, a, q, after);
    Answered(kv, a, q, after);
  }

  lemma RefusalNone(a: Store, q: Query)
    requires Valid(a) && Refusal(a, q).None?
    ensures Answerable(q)
  {
    assert ValidName(q.db) && ValidDatabase(a[q.db]);
  }

  /**
   On any key space, represented or not: the entries for a page, and the one behind it, can be cut, have no content,
   end in an identifier and have their document. Without that there is no page.
   */
  ghost predicate Intact(kv: Kv<Record>, q: Query, after: Option<Entry>, limit: nat)
    requires q.value != []
  {
    forall b :: b in UpTo(KeysAfter(kv, q, after), limit + 1) ==> IntactAt(kv, q, b)
  }

  predicate IntactAt(kv: Kv<Record>, q: Query, b: bytes)
    requires q.value != []
  {
    && b in kv && kv[b] == Marker && ValidId(EntryAt(q, b).id)
    && (q.op != Eq ==> SplitIndexEntry(TypePrefix(q), b).Some?)
    && Keys.Encode(Keys.DocKey(q.db, EntryAt(q, b).id)) in kv
  }

  predicate ReadableAt(kv: Kv<Record>, q: Query, b: bytes)
    requires q.value != []
  {
    b in kv && Reading(q)(b, kv[b]).Some? && Present(kv, q.db)(Reading(q)(b, kv[b]).value)
  }

  lemma IntactIsReadableAt(kv: Kv<Record>, q: Query, after: Option<Entry>, i: nat)
    requires q.value != [] && i < |KeysAfter(kv, q, after)|
    ensures IntactAt(kv, q, KeysAfter(kv, q, after)[i]) <==> ReadableAt(kv, q, KeysAfter(kv, q, after)[i])
  {
    var b := KeysAfter(kv, q, after)[i];
    KeysAfterExact(kv, q, after);
    assert b in KeysAfter(kv, q, after);
    if q.op == Eq { PrefixEndExact(Boundary(q), b); }
  }

  lemma IntactIsReadable(kv: Kv<Record>, q: Query, after: Option<Entry>, limit: nat)
    requires q.value != []
    ensures Intact(kv, q, after, limit) <==> Readable(kv, UpTo(KeysAfter(kv, q, after), limit + 1), Reading(q), Present(kv, q.db))
  {
    var keys, front := KeysAfter(kv, q, after), UpTo(KeysAfter(kv, q, after), limit + 1);
    forall i | 0 <= i < |front| ensures IntactAt(kv, q, front[i]) <==> ReadableAt(kv, q, front[i]) {
      IntactIsReadableAt(kv, q, after, i);
    }
    EachOf(front, (b: bytes) => IntactAt(kv, q, b));
    assert Readable(kv, front, Reading(q), Present(kv, q.db)) <==> forall i :: 0 <= i < |front| ==> ReadableAt(kv, q, front[i]);
  }

  lemma EachOf(front: seq<bytes>, good: bytes -> bool)
    ensures (forall b :: b in front ==> good(b)) <==> forall i :: 0 <= i < |front| ==> good(front[i])
  {
  }

  // ---------------------------------------------------------------------------
  // Exact queries

  /** Where an exact query starts. */
  function EqAfter(q: Query, cursor: bytes): Option<Entry> {
    if cursor != [] then Some(Entry(q.value, cursor)) else None
  }

  /** One entry more than the page holds is enough to make it. */
  lemma OneMore(entries: seq<Entry>, limit: nat)
    requires limit >= 1
    ensures PageOf(UpTo(entries, limit + 1), limit) == PageOf(entries, limit)
    ensures IdPage(UpTo(entries, limit + 1), limit) == IdPage(entries, limit)
  {
    if |entries| > limit + 1 { assert entries[..limit + 1][..limit] == entries[..limit]; }
  }

  /** `queryDocsCtx`: documents with exactly the value, by identifier. */
  method QueryDocs(kv: Kv<Record>, db: bytes, index: bytes, encoded: bytes, limit: nat, cursor: bytes, ghost a: Store)
    returns (r: Result)
    requires ValidName(db) && limit >= 1
    ensures Represents(kv, a) ==>
              var q := Query(db, index, Eq, encoded);
              match Refusal(a, q)
              case Some(e) => r == Failed(e)
              case None =>
                && Listed(AnswerTo(a, q, EqAfter(q, cursor)), a, q, EqAfter(q, cursor))
                && r == IdPage(AnswerTo(a, q, EqAfter(q, cursor)), limit)
    ensures r.Page? ==> encoded != [] && Intact(kv, Query(db, index, Eq, encoded), EqAfter(Query(db, index, Eq, encoded), cursor), limit)
  {
    var q := Query(db, index, Eq, encoded);
    var e := CheckIndex(kv, db, index, a);
    if e.Some? {
      return Failed(e.value);
    }
    if !V.Valid(encoded) {
      return Failed(BadValue);
    }
    ghost var entries := AnswerTo(a, q, EqAfter(q, cursor));
    if Represents(kv, a) {
      RefusalNone(a, q);
      ReadsAnswer(kv, a, q, EqAfter(q, cursor));
    }
    r := EqPage(kv, q, limit, cursor, entries);
  }

  /** The keys behind the cursor of an exact query. */
  lemma EqKeys(kv: Kv<Record>, q: Query, cursor: bytes)
    requires q.op == Eq && q.value != []
    ensures KeysBehind(kv, Boundary(q), PrefixEnd(Boundary(q)), if cursor != [] then Some(Boundary(q) + cursor) else None)
         == KeysAfter(kv, q, EqAfter(q, cursor))
  {
  }

  /** The iteration of an exact query. */
  method EqPage(kv: Kv<Record>, q: Query, limit: nat, cursor: bytes, ghost entries: seq<Entry>) returns (r: Result)
    requires q.op == Eq && limit >= 1 && q.value != []
    ensures ReadsAs(kv, q, EqAfter(q, cursor), entries) ==> r == IdPage(entries, limit)
    ensures r.Page? <==> Intact(kv, q, EqAfter(q, cursor), limit)
  {
    var prefix := Boundary(q);
    var upper := ComputePrefixEnd(prefix);
    EqKeys(kv, q, cursor);
    IntactIsReadable(kv, q, EqAfter(q, cursor), limit);
    var found := Collect(kv, prefix, upper, if cursor != [] then Some(prefix + cursor) else None, limit,
                         Reading(q), Present(kv, q.db), true, _ => false);
    if found.None? {
      return Failed(Corrupted);
    }
    OneMore(entries, limit);
    var page := found.value;
    if |page| > limit {
      return Page(Ids(page[..limit]), [], true);
    }
    return Page(Ids(page), [], false);
  }

  // ---------------------------------------------------------------------------
  // Range queries

  /** The bounds of the iterator, set as the operator asks. */
  method ComputeBounds(q: Query) returns (lower: bytes, upper: Option<bytes>)
    requires q.op != Eq && q.value != []
    ensures lower == Lower(q) && upper == Upper(q)
  {
    var typePrefix := TypePrefix(q);
    lower := typePrefix;
    upper := ComputePrefixEnd(typePrefix);
    var boundary := Boundary(q);
    match q.op {
      case Lt => upper := Some(boundary);
      case Le => upper := ComputePrefixEnd(boundary);
      case Gt =>
        var end := ComputePrefixEnd(boundary);
        lower := if end.Some? then end.value else [];
      case Ge => lower := boundary;
    }
  }

  /** Where a range query starts: at a value and an identifier, or at the beginning. */
  function RangeAfter(afterValue: bytes, afterId: bytes): Option<Entry> {
    if afterValue != [] then Some(Entry(afterValue, afterId)) else None
  }

  /** With an identifier alone, entries are skipped up to the first one of that document. */
  function RangePart(entries: seq<Entry>, afterValue: bytes, afterId: bytes): seq<Entry> {
    Wanted(entries, afterId == [] || afterValue != [], AtId(afterId))
  }

  function AtId(id: bytes): Entry -> bool {
    (e: Entry) => e.id == id
  }

  /** `queryRangePage`: documents whose value compares as asked, by value and then by identifier. */
  method QueryRange(kv: Kv<Record>, q: Query, limit: nat, afterValue: bytes, afterId: bytes, ghost a: Store)
    returns (r: Result)
    requires ValidName(q.db) && limit >= 1
    ensures Represents(kv, a) ==>
              if q.db !in a then r == Failed(NoDatabase)
              else if q.index !in a[q.db].defs then r == Failed(NoIndex)
              else if q.op == Eq || Refusal(a, q).Some? then r == Failed(BadValue)
              else if afterValue != [] && !(V.Valid(afterValue) && afterValue[0] == q.value[0] && ValidId(afterId)) then
                r == Failed(BadCursor)
              else
                && Listed(AnswerTo(a, q, RangeAfter(afterValue, afterId)), a, q, RangeAfter(afterValue, afterId))
                && r == PageOf(RangePart(AnswerTo(a, q, RangeAfter(afterValue, afterId)), afterValue, afterId), limit)
    ensures r.Page? && (afterId == [] || afterValue != []) ==> q.value != [] && Intact(kv, q, RangeAfter(afterValue, afterId), limit)
  {
    var e := CheckIndex(kv, q.db, q.index, a);
    if e.Some? {
      return Failed(e.value);
    }
    if q.op == Eq || !V.Valid(q.value) || (q.value[0] != V.NUMBER && q.value[0] != V.STRING) {
      return Failed(BadValue);
    }
    if |afterValue| > 0 && (!V.Valid(afterValue) || afterValue[0] != q.value[0] || !ValidId(afterId)) {
      return Failed(BadCursor);
    }
    ghost var entries := AnswerTo(a, q, RangeAfter(afterValue, afterId));
    if Represents(kv, a) {
      RefusalNone(a, q);
      ReadsAnswer(kv, a, q, RangeAfter(afterValue, afterId));
    }
    r := RangePage(kv, q, limit, afterValue, afterId, entries);
  }

  /** The iteration of a range query. */
  method RangePage(kv: Kv<Record>, q: Query, limit: nat, afterValue: bytes, afterId: bytes, ghost entries: seq<Entry>)
    returns (r: Result)
    requires q.op != Eq && limit >= 1 && q.value != []
    ensures ReadsAs(kv, q, RangeAfter(afterValue, afterId), entries) ==> r == PageOf(RangePart(entries, afterValue, afterId), limit)
    ensures afterId == [] || afterValue != [] ==> (r.Page? <==> Intact(kv, q, RangeAfter(afterValue, afterId), limit))
  {
    var lower, upper := ComputeBounds(q);
    var after := if |afterValue| > 0 then Some(Keys.Encode(Keys.EntryKey(q.db, q.index, afterValue, afterId))) else None;
    IntactIsReadable(kv, q, RangeAfter(afterValue, afterId), limit);
    var found := Collect(kv, lower, upper, after, limit, Reading(q), Present(kv, q.db),
                         afterId == [] || |afterValue| > 0, AtId(afterId));
    if found.None? {
      return Failed(Corrupted);
    }
    OneMore(RangePart(entries, afterValue, afterId), limit);
    var page := found.value;
    if |page| > limit {
      return Page(Ids(page[..limit]), page[limit - 1].value, true);
    }
    return Page(Ids(page), [], false);
  }

  // ---------------------------------------------------------------------------
  // Refusals

  /** When each error is the answer to a query, of whatever kind. */
  lemma RefusedExactly(a: Store, q: Query)
    ensures Refusal(a, q) == Some(NoDatabase) <==> q.db !in a
    ensures Refusal(a, q) == Some(NoIndex) <==> q.db in a && FindDef(a, q.db, q.index).None?
    ensures Refusal(a, q) == Some(BadValue) <==>
            && FindDef(a, q.db, q.index).Some?
            && (!V.Valid(q.value) || (q.op != Eq && q.value[0] !in {V.NUMBER, V.STRING}))
    ensures Refusal(a, q).None? || Refusal(a, q).value in {NoDatabase, NoIndex, BadValue}
  {
  }
}

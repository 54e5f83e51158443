/**
 What an index query should answer, and how the keys between its bounds give it: the entries of the index whose
 values compare as asked, by value and then by identifier, from a cursor on.
 */
module Answers {
  import opened Bytes
  import opened Json
  import opened KeyValue
  import opened Names
  import opened Catalog
  import opened Bounds
  import opened IndexEntry
  import Keys
  import Pointer
  import V = IndexValue

  function KeyOf(q: Query, e: Entry): Keys.Key {
    Keys.EntryKey(q.db, q.index, e.value, e.id)
  }

  /** The document has an indexed value of the query's type that compares as asked. */
  predicate Matching(a: Store, q: Query, e: Entry)
    requires q.value != []
  {
    && HasEntry(a, q.db, q.index, e.value, e.id)
    && e.value != [] && e.value[0] == q.value[0] && Compare(q.op, e.value, q.value)
  }

  predicate Before(e: Entry, f: Entry) {
    Keys.EntryLess(e.value, e.id, f.value, f.id)
  }

  predicate SortedEntries(entries: seq<Entry>) {
    forall i, j :: 0 <= i < j < |entries| ==> Before(entries[i], entries[j])
  }

  /** Exactly the matching entries behind the cursor, in order. */
  ghost predicate Listed(entries: seq<Entry>, a: Store, q: Query, after: Option<Entry>)
    requires q.value != []
  {
    && SortedEntries(entries)
    && forall e :: e in entries <==> Matching(a, q, e) && (after.Some? ==> Before(after.value, e))
  }

  /** A query that the range code accepts, or an exact one. */
  predicate Answerable(q: Query) {
    ValidQuery(q) && (q.op == Eq || q.value[0] == V.NUMBER || q.value[0] == V.STRING)
  }

  // ---------------------------------------------------------------------------
  // Keys and entries

  lemma HasEntryValid(a: Store, db: bytes, index: bytes, value: bytes, id: bytes)
    requires Valid(a) && HasEntry(a, db, index, value, id)
    ensures Keys.Valid(Keys.EntryKey(db, index, value, id))
  {
    assert ValidDatabase(a[db]) && ValidDoc(id, a[db].docs[id], a[db].defs);
    V.EncodedValid(Pointer.Select(a[db].docs[id].json, a[db].defs[index]).value);
  }

  /** The bytes of the keys a query's iterator runs over. */
  function QueryKeys(kv: Kv<Record>, q: Query): set<bytes>
    requires q.value != []
  {
    KeysWithin(kv, Lower(q), Upper(q))
  }

  lemma MatchingKey(kv: Kv<Record>, a: Store, q: Query, e: Entry)
    requires Represents(kv, a) && ValidQuery(q) && Matching(a, q, e)
    ensures Keys.Valid(KeyOf(q, e)) && Keys.Encode(KeyOf(q, e)) in QueryKeys(kv, q)
  {
    HasEntryValid(a, q.db, q.index, e.value, e.id);
    var k := KeyOf(q, e);
    assert Get(kv, Keys.Encode(k)) == Expected(a, k);
    BoundsExact(q, k);
  }

  /** The entry a key stands for, as the query code cuts it out. */
  function EntryAt(q: Query, key: bytes): Entry
    requires q.value != []
  {
    if q.op == Eq then Entry(q.value, if |Boundary(q)| <= |key| then key[|Boundary(q)|..] else [])
    else
      var split := SplitIndexEntry(TypePrefix(q), key);
      if split.Some? then split.value else Entry([], [])
  }

  lemma EntryAtKey(q: Query, k: Keys.Key)
    requires Answerable(q) && Keys.Valid(k) && Selects(q, k)
    ensures KeyOf(q, EntryAt(q, Keys.Encode(k))) == k
    ensures q.op != Eq ==> SplitIndexEntry(TypePrefix(q), Keys.Encode(k)).Some?
    ensures q.op == Eq ==> Boundary(q) <= Keys.Encode(k)
  {
    if q.op == Eq {
      assert Keys.Encode(k) == Boundary(q) + k.id;
    } else {
      SplitIndexKey(k);
    }
  }

  /** Every key between the bounds is that of a matching entry, is empty of content and names a stored document. */
  lemma SelectedKey(kv: Kv<Record>, a: Store, q: Query, b: bytes)
    requires Represents(kv, a) && Answerable(q) && b in QueryKeys(kv, q)
    ensures var e := EntryAt(q, b);
            Matching(a, q, e) && Keys.Valid(KeyOf(q, e)) && Keys.Encode(KeyOf(q, e)) == b && kv[b] == Marker
    ensures q.op != Eq ==> SplitIndexEntry(TypePrefix(q), b).Some?
    ensures q.op == Eq ==> Boundary(q) <= b
  {
    assert IsKey(b);
    var k :| Keys.Valid(k) && b == Keys.Encode(k);
    BoundsExact(q, k);
    assert Get(kv, Keys.Encode(k)) == Expected(a, k);
    EntryAtKey(q, k);
  }

  /** The document of a matching entry is there. */
  lemma DocumentThere(kv: Kv<Record>, a: Store, q: Query, e: Entry)
    requires Represents(kv, a) && ValidQuery(q) && Matching(a, q, e)
    ensures ValidId(e.id) && Keys.Encode(Keys.DocKey(q.db, e.id)) in kv
  {
    HasEntryValid(a, q.db, q.index, e.value, e.id);
    StoredDoc(kv, a, q.db, e.id);
  }

  lemma StoredDoc(kv: Kv<Record>, a: Store, db: bytes, id: bytes)
    requires Represents(kv, a) && ValidName(db) && ValidId(id) && Find(a, db, id).Some?
    ensures Keys.Encode(Keys.DocKey(db, id)) in kv
  {
    var k := Keys.DocKey(db, id);
    assert Keys.Valid(k);
    assert Get(kv, Keys.Encode(k)) == Expected(a, k);
  }

  // ---------------------------------------------------------------------------
  // Lists of keys and lists of entries

  function EntriesAt(q: Query, keys: seq<bytes>): (entries: seq<Entry>)
    requires q.value != []
    ensures |entries| == |keys| && forall i :: 0 <= i < |keys| ==> entries[i] == EntryAt(q, keys[i])
  {
    seq(|keys|, i requires 0 <= i < |keys| => EntryAt(q, keys[i]))
  }

  function CursorKey(q: Query, after: Option<Entry>): Option<bytes> {
    if after.Some? then Some(Keys.Encode(KeyOf(q, after.value))) else None
  }

  lemma KeyOrder(q: Query, e: Entry, f: Entry)
    requires V.Valid(e.value) && V.Valid(f.value)
    ensures Less(Keys.Encode(KeyOf(q, e)), Keys.Encode(KeyOf(q, f))) <==> Before(e, f)
  {
    Keys.EntryOrder(q.db, q.index, e.value, e.id, f.value, f.id);
  }

  /** The keys a query runs over from a cursor on. */
  function KeysAfter(kv: Kv<Record>, q: Query, after: Option<Entry>): seq<bytes>
    requires q.value != []
  {
    Above(Ascending(QueryKeys(kv, q)), CursorKey(q, after))
  }

  lemma KeysAfterExact(kv: Kv<Record>, q: Query, after: Option<Entry>)
    requires q.value != []
    ensures StrictlySorted(KeysAfter(kv, q, after))
    ensures forall b :: b in KeysAfter(kv, q, after) <==>
                          b in QueryKeys(kv, q) && (after.Some? ==> Less(CursorKey(q, after).value, b))
  {
    AboveExact(Ascending(QueryKeys(kv, q)), CursorKey(q, after));
  }

  lemma EntryIsListed(kv: Kv<Record>, a: Store, q: Query, after: Option<Entry>, i: nat)
    requires Represents(kv, a) && Answerable(q) && (after.Some? ==> V.Valid(after.value.value))
    requires i < |KeysAfter(kv, q, after)|
    ensures var e := EntryAt(q, KeysAfter(kv, q, after)[i]);
            && Matching(a, q, e) && V.Valid(e.value) && (after.Some? ==> Before(after.value, e))
            && Keys.Encode(KeyOf(q, e)) == KeysAfter(kv, q, after)[i]
  {
    KeysAfterExact(kv, q, after);
    var b := KeysAfter(kv, q, after)[i];
    assert b in KeysAfter(kv, q, after);
    SelectedKey(kv, a, q, b);
    if after.Some? { KeyOrder(q, after.value, EntryAt(q, b)); }
  }

  lemma ListedIsEntry(kv: Kv<Record>, a: Store, q: Query, after: Option<Entry>, e: Entry)
    requires Represents(kv, a) && Answerable(q) && (after.Some? ==> V.Valid(after.value.value))
    requires Matching(a, q, e) && (after.Some? ==> Before(after.value, e))
    ensures e in EntriesAt(q, KeysAfter(kv, q, after))
  {
    MatchingKey(kv, a, q, e);
    KeysAfterExact(kv, q, after);
    if after.Some? { KeyOrder(q, after.value, e); }
    var b := Keys.Encode(KeyOf(q, e));
    var keys := KeysAfter(kv, q, after);
    assert b in keys;
    var i :| 0 <= i < |keys| && keys[i] == b;
    BoundsExact(q, KeyOf(q, e));
    EntryAtKey(q, KeyOf(q, e));
    assert EntriesAt(q, keys)[i] == e;
  }

  lemma EntriesSorted(kv: Kv<Record>, a: Store, q: Query, after: Option<Entry>, i: nat, j: nat)
    requires Represents(kv, a) && Answerable(q) && (after.Some? ==> V.Valid(after.value.value))
    requires i < j < |KeysAfter(kv, q, after)|
    ensures Before(EntryAt(q, KeysAfter(kv, q, after)[i]), EntryAt(q, KeysAfter(kv, q, after)[j]))
  {
    KeysAfterExact(kv, q, after);
    EntryIsListed(kv, a, q, after, i);
    EntryIsListed(kv, a, q, after, j);
    KeyOrder(q, EntryAt(q, KeysAfter(kv, q, after)[i]), EntryAt(q, KeysAfter(kv, q, after)[j]));
  }

  /** The iterator of a query yields the answer, in order. */
  lemma KeysGiveAnswer(kv: Kv<Record>, a: Store, q: Query, after: Option<Entry>)
    requires Represents(kv, a) && Answerable(q) && (after.Some? ==> V.Valid(after.value.value))
    ensures Listed(EntriesAt(q, KeysAfter(kv, q, after)), a, q, after)
  {
    var keys := KeysAfter(kv, q, after);
    var entries := EntriesAt(q, keys);
    forall i, j | 0 <= i < j < |entries| ensures Before(entries[i], entries[j]) {
      EntriesSorted(kv, a, q, after, i, j);
    }
    forall e ensures e in entries <==> Matching(a, q, e) && (after.Some? ==> Before(after.value, e)) {
      EntryMember(kv, a, q, after, e);
    }
  }

  lemma EntryMember(kv: Kv<Record>, a: Store, q: Query, after: Option<Entry>, e: Entry)
    requires Represents(kv, a) && Answerable(q) && (after.Some? ==> V.Valid(after.value.value))
    ensures e in EntriesAt(q, KeysAfter(kv, q, after)) <==> Matching(a, q, e) && (after.Some? ==> Before(after.value, e))
  {
    var entries := EntriesAt(q, KeysAfter(kv, q, after));
    if e in entries {
      var i :| 0 <= i < |entries| && entries[i] == e;
      EntryIsListed(kv, a, q, after, i);
    }
    if Matching(a, q, e) && (after.Some? ==> Before(after.value, e)) { ListedIsEntry(kv, a, q, after, e); }
  }

  // ---------------------------------------------------------------------------
  // One answer

  lemma BeforeStrict(e: Entry, f: Entry)
    requires Before(e, f)
    ensures !Before(f, e) && e != f
  {
    LessIrreflexive(e.value);
    if Less(e.value, f.value) { LessAsymmetric(e.value, f.value); } else { LessAsymmetric(e.id, f.id); }
  }

  lemma BeforeTransitive(e: Entry, f: Entry, g: Entry)
    requires Before(e, f) && Before(f, g)
    ensures Before(e, g)
  {
    LessIrreflexive(e.value);
    if Less(e.value, f.value) && Less(f.value, g.value) { LessTransitive(e.value, f.value, g.value); }
    if e.value == f.value == g.value { LessTransitive(e.id, f.id, g.id); }
  }

  lemma SortedHead(x: seq<Entry>, y: seq<Entry>)
    requires SortedEntries(x) && SortedEntries(y) && x != [] && y != [] && x[0] in y && y[0] in x
    ensures x[0] == y[0]
  {
    var i :| 0 <= i < |y| && y[i] == x[0];
    var j :| 0 <= j < |x| && x[j] == y[0];
    if i > 0 && j > 0 {
      assert Before(y[0], y[i]) && Before(x[0], x[j]);
      BeforeStrict(y[0], y[i]);
    }
  }

  lemma SortedTail(x: seq<Entry>, e: Entry)
    requires SortedEntries(x) && x != []
    ensures e in x[1..] <==> e in x && e != x[0]
  {
    if e in x[1..] {
      var i :| 0 <= i < |x[1..]| && x[1..][i] == e;
      assert Before(x[0], x[i + 1]);
      BeforeStrict(x[0], e);
    }
  }

  lemma {:induction false} SortedEntriesUnique(x: seq<Entry>, y: seq<Entry>)
    requires SortedEntries(x) && SortedEntries(y) && forall e :: e in x <==> e in y
    ensures x == y
    decreases |x|
  {
    assert forall i :: 0 <= i < |x| ==> x[i] in y;
    assert forall i :: 0 <= i < |y| ==> y[i] in x;
    if x != [] && y != [] {
      assert x[0] in x && y[0] in y;
      SortedHead(x, y);
      forall e ensures e in x[1..] <==> e in y[1..] {
        SortedTail(x, e);
        SortedTail(y, e);
      }
      SortedEntriesUnique(x[1..], y[1..]);
      assert x == [x[0]] + x[1..] && y == [y[0]] + y[1..];
    }
  }

  /** The answer to a query is determined. */
  lemma AnswerUnique(x: seq<Entry>, y: seq<Entry>, a: Store, q: Query, after: Option<Entry>)
    requires q.value != [] && Listed(x, a, q, after) && Listed(y, a, q, after)
    ensures x == y
  {
    forall e ensures e in x <==> e in y {
      assert e in x <==> Matching(a, q, e) && (after.Some? ==> Before(after.value, e));
    }
    SortedEntriesUnique(x, y);
  }

  /** The answer to a query from a cursor on. */
  ghost function AnswerTo(a: Store, q: Query, after: Option<Entry>): seq<Entry>
    requires q.value != []
  {
    if exists entries :: Listed(entries, a, q, after) then var entries :| Listed(entries, a, q, after); entries else []
  }

  lemma AnswerIs(entries: seq<Entry>, a: Store, q: Query, after: Option<Entry>)
    requires q.value != [] && Listed(entries, a, q, after)
    ensures AnswerTo(a, q, after) == entries
  {
    AnswerUnique(entries, AnswerTo(a, q, after), a, q, after);
  }

  /** On every represented store there is one. */
  lemma Answered(kv: Kv<Record>, a: Store, q: Query, after: Option<Entry>)
    requires Represents(kv, a) && Answerable(q) && (after.Some? ==> V.Valid(after.value.value))
    ensures Listed(AnswerTo(a, q, after), a, q, after)
    ensures AnswerTo(a, q, after) == EntriesAt(q, KeysAfter(kv, q, after))
  {
    KeysGiveAnswer(kv, a, q, after);
    AnswerIs(EntriesAt(q, KeysAfter(kv, q, after)), a, q, after);
  }

  // ---------------------------------------------------------------------------
  // What the answer means

  /** The scalar an index finds in a document, if it has an entry for it. */
  function ScalarAt(a: Store, db: bytes, index: bytes, id: bytes): Option<Json> {
    if db in a && index in a[db].defs && id in a[db].docs && a[db].defs[index] != [] then
      var found := Pointer.Select(a[db].docs[id].json, a[db].defs[index]);
      if found.Some? && V.Encode(found.value).Value? then found else None
    else None
  }

  /** A document is in the answer exactly if the scalar under the index path compares as asked. */
  lemma MatchingMeans(a: Store, q: Query, y: Json, id: bytes)
    requires V.Encode(y) == V.Value(q.value) && q.value != [] && (q.op == Eq || y.Number? || y.Str?)
    ensures (exists v :: Matching(a, q, Entry(v, id))) <==>
            (var x := ScalarAt(a, q.db, q.index, id); x.Some? && ScalarCompare(q.op, x.value, y))
  {
    var x := ScalarAt(a, q.db, q.index, id);
    if x.Some? {
      CompareMeans(q.op, x.value, y);
      var v := V.Encode(x.value).bytes;
      assert HasEntry(a, q.db, q.index, v, id);
      V.EncodedValid(x.value);
      assert Matching(a, q, Entry(v, id)) <==> ScalarCompare(q.op, x.value, y);
      assert forall w :: HasEntry(a, q.db, q.index, w, id) ==> w == v;
    } else {
      assert forall w :: !HasEntry(a, q.db, q.index, w, id);
    }
  }

  /** The order of an answer is that of the scalars, and of the identifiers where those are the same. */
  lemma BeforeMeans(a: Store, q: Query, e: Entry, f: Entry)
    requires q.value != [] && Matching(a, q, e) && Matching(a, q, f) && (q.value[0] == V.NUMBER || q.value[0] == V.STRING)
    ensures var x, y := ScalarAt(a, q.db, q.index, e.id), ScalarAt(a, q.db, q.index, f.id);
            && x.Some? && y.Some?
            && (Before(e, f) <==> V.ScalarLess(x.value, y.value) || (V.SameScalar(x.value, y.value) && Less(e.id, f.id)))
  {
    var x, y := ScalarAt(a, q.db, q.index, e.id).value, ScalarAt(a, q.db, q.index, f.id).value;
    V.EncodedValid(x);
    V.EncodedValid(y);
    V.TagIsType(x, y);
    V.ScalarOrder(x, y);
  }
}

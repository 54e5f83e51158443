/**
 What the store holds, free of bytes: databases with a key, index definitions and documents.
 `Represents` ties it to the key space: a database record, a document record, a definition
 and an index entry for exactly the databases, documents, definitions and indexed values
 there are. The index is thereby always what recomputing it from the documents gives.
 */
module Catalog {
  import opened Bytes
  import opened Json
  import opened KeyValue
  import opened Names
  import Pointer
  import Keys
  import V = IndexValue

  type Revision = nat

  type SecretKey = nat

  datatype Doc = Doc(json: Json, rev: Revision)

  /** Index definitions map the name of an index to its JSON Pointer. */
  type Defs = map<bytes, bytes>

  datatype Database = Database(key: SecretKey, defs: Defs, docs: map<bytes, Doc>)

  type Store = map<bytes, Database>

  /** The records of the key space. A document is sealed under its database's key and bound to its place. */
  datatype Record =
    | DbRecord(key: SecretKey)
    | DefRecord(path: bytes)
    | DocRecord(key: SecretKey, place: bytes, doc: Doc)
    | Marker

  const MAX_INDEXES: nat := 16

  // ---------------------------------------------------------------------------
  // Indexed values

  /** What an index makes of a document: no entry, an entry, or the refusal of the document. */
  datatype Indexed = Absent | Present(value: bytes) | Rejected(error: V.IndexError)

  function IndexedValue(json: Json, path: bytes): Indexed {
    if path == [] then Absent
    else
      match Pointer.Select(json, path)
      case None => Absent
      case Some(value) => IndexedScalar(value)
  }

  function IndexedScalar(value: Json): Indexed {
    match V.Encode(value)
    case Value(encoded) => Present(encoded)
    case Failed(error) => if error.Unsupported? then Absent else Rejected(error)
  }

  predicate ValidDefs(defs: Defs) {
    |defs| <= MAX_INDEXES && forall name :: name in defs ==> ValidName(name) && Pointer.Valid(defs[name])
  }

  /** Every index takes the document, with or without an entry. */
  predicate Accepts(json: Json, defs: Defs) {
    forall name :: name in defs ==> !IndexedValue(json, defs[name]).Rejected?
  }

  /** What the indexes make of a document. */
  function IndexAll(json: Json, defs: Defs): (all: map<bytes, Indexed>)
    ensures all.Keys == defs.Keys
    ensures forall name :: name in defs ==> all[name] == IndexedValue(json, defs[name])
  {
    map name | name in defs :: IndexedValue(json, defs[name])
  }

  function PresentOnes(all: map<bytes, Indexed>): (values: map<bytes, bytes>)
    ensures forall name :: name in values <==> name in all && all[name].Present?
    ensures forall name :: name in values ==> Present(values[name]) == all[name]
  {
    map name | name in all && all[name].Present? :: all[name].value
  }

  /** The entries of a document, by index. */
  function Entries(json: Json, defs: Defs): (values: map<bytes, bytes>)
    ensures forall name :: name in values <==> name in defs && IndexedValue(json, defs[name]).Present?
    ensures forall name :: name in values ==> Present(values[name]) == IndexedValue(json, defs[name])
  {
    PresentOnes(IndexAll(json, defs))
  }

  lemma EntriesValid(json: Json, defs: Defs)
    requires ValidDefs(defs)
    ensures forall name :: name in Entries(json, defs) ==> ValidName(name) && V.Valid(Entries(json, defs)[name])
  {
    forall name | name in Entries(json, defs) ensures V.Valid(Entries(json, defs)[name]) {
      V.EncodedValid(Pointer.Select(json, defs[name]).value);
    }
  }

  /** A number or a string that the path of some index selects and that cannot be indexed. */
  predicate Unfit(json: Json, defs: Defs) {
    exists name :: name in defs && defs[name] != [] && UnfitAt(json, defs[name])
  }

  predicate UnfitAt(json: Json, path: bytes)
    requires path != []
  {
    var found := Pointer.Select(json, path);
    found.Some? && (found.value.Number? || found.value.Str?) && V.Encode(found.value).Failed?
  }

  /** A document is refused exactly if it has such a value, and has an entry for every other scalar an index finds. */
  lemma IndexedMeans(json: Json, defs: Defs)
    ensures Accepts(json, defs) <==> !Unfit(json, defs)
    ensures forall name :: name in Entries(json, defs) <==>
                             name in defs && defs[name] != [] && Pointer.Select(json, defs[name]).Some?
                             && V.Encode(Pointer.Select(json, defs[name]).value).Value?
    ensures forall name :: name in Entries(json, defs) ==>
                             V.Encode(Pointer.Select(json, defs[name]).value) == V.Value(Entries(json, defs)[name])
  {
    forall name | name in defs
      ensures IndexedValue(json, defs[name]).Rejected? <==> defs[name] != [] && UnfitAt(json, defs[name])
      ensures IndexedValue(json, defs[name]).Present? <==> defs[name] != [] && FitAt(json, defs[name])
    {
      IndexedAt(json, defs[name]);
    }
  }

  predicate FitAt(json: Json, path: bytes)
    requires path != []
  {
    Pointer.Select(json, path).Some? && V.Encode(Pointer.Select(json, path).value).Value?
  }

  lemma IndexedAt(json: Json, path: bytes)
    ensures IndexedValue(json, path).Rejected? <==> path != [] && UnfitAt(json, path)
    ensures IndexedValue(json, path).Present? <==> path != [] && FitAt(json, path)
    ensures path != [] && FitAt(json, path) ==> V.Value(IndexedValue(json, path).value) == V.Encode(Pointer.Select(json, path).value)
  {
    if path != [] && Pointer.Select(json, path).Some? { V.ScalarsFail(Pointer.Select(json, path).value); }
  }

  // ---------------------------------------------------------------------------
  // The store and its representation

  predicate ValidDatabase(d: Database) {
    && ValidDefs(d.defs)
    && forall id :: id in d.docs ==> ValidDoc(id, d.docs[id], d.defs)
  }

  predicate ValidDoc(id: bytes, doc: Doc, defs: Defs) {
    ValidId(id) && doc.json.Obj? && Accepts(doc.json, defs)
  }

  predicate Valid(a: Store) {
    forall db :: db in a ==> ValidName(db) && ValidDatabase(a[db])
  }

  predicate HasEntry(a: Store, db: bytes, index: bytes, value: bytes, id: bytes) {
    && db in a && index in a[db].defs && id in a[db].docs
    && IndexedValue(a[db].docs[id].json, a[db].defs[index]) == Present(value)
  }

  /** The record the key space should hold under a key. */
  function Expected(a: Store, k: Keys.Key): Option<Record> {
    match k
    case DbKey(db) => if db in a then Some(DbRecord(a[db].key)) else None
    case DocKey(db, id) =>
      if Find(a, db, id).Some? then Some(DocRecord(a[db].key, Keys.Encode(k), Find(a, db, id).value)) else None
    case DefKey(db, index) =>
      if FindDef(a, db, index).Some? then Some(DefRecord(FindDef(a, db, index).value)) else None
    case EntryKey(db, index, value, id) => if HasEntry(a, db, index, value, id) then Some(Marker) else None
  }

  ghost predicate IsKey(b: bytes) {
    exists k :: Keys.Valid(k) && b == Keys.Encode(k)
  }

  ghost predicate Represents(kv: Kv<Record>, a: Store) {
    && Valid(a)
    && (forall b :: b in kv ==> IsKey(b))
    && forall k :: Keys.Valid(k) ==> Get(kv, Keys.Encode(k)) == Expected(a, k)
  }

  lemma EmptyStore()
    ensures Represents(map[], map[])
  {
  }

  /** The key space determines the store. */
  lemma RepresentsUnique(kv: Kv<Record>, a: Store, b: Store)
    requires Represents(kv, a) && Represents(kv, b)
    ensures a == b
  {
    forall k | Keys.Valid(k) ensures Expected(a, k) == Expected(b, k) {
      assert Get(kv, Keys.Encode(k)) == Expected(a, k);
    }
    ExpectedUnique(a, b);
  }

  lemma ExpectedUnique(a: Store, b: Store)
    requires Valid(a) && Valid(b) && forall k :: Keys.Valid(k) ==> Expected(a, k) == Expected(b, k)
    ensures a == b
  {
    forall db: bytes ensures db in a <==> db in b {
      if db in a || db in b {
        assert Keys.Valid(Keys.DbKey(db));
        assert Expected(a, Keys.DbKey(db)) == Expected(b, Keys.DbKey(db));
      }
    }
    forall db | db in a ensures a[db] == b[db] {
      assert db in b;
      SameDatabase(a, b, db);
    }
  }

  lemma SameDatabase(a: Store, b: Store, db: bytes)
    requires Valid(a) && Valid(b) && forall k :: Keys.Valid(k) ==> Expected(a, k) == Expected(b, k)
    requires db in a && db in b
    ensures a[db] == b[db]
  {
    assert Keys.Valid(Keys.DbKey(db));
    assert Expected(a, Keys.DbKey(db)) == Expected(b, Keys.DbKey(db));
    forall index: bytes ensures FindDef(a, db, index) == FindDef(b, db, index) {
      if index in a[db].defs || index in b[db].defs {
        assert Keys.Valid(Keys.DefKey(db, index));
        assert Expected(a, Keys.DefKey(db, index)) == Expected(b, Keys.DefKey(db, index));
      }
    }
    forall id: bytes ensures Find(a, db, id) == Find(b, db, id) {
      if id in a[db].docs || id in b[db].docs {
        assert Keys.Valid(Keys.DocKey(db, id));
        assert Expected(a, Keys.DocKey(db, id)) == Expected(b, Keys.DocKey(db, id));
      }
    }
    SameContents(a, b, db);
  }

  lemma SameContents(a: Store, b: Store, db: bytes)
    requires db in a && db in b
    requires forall index :: FindDef(a, db, index) == FindDef(b, db, index)
    requires forall id :: Find(a, db, id) == Find(b, db, id)
    ensures a[db].defs == b[db].defs && a[db].docs == b[db].docs
  {
    assert forall index :: index in a[db].defs <==> FindDef(a, db, index).Some?;
    assert forall index :: index in b[db].defs <==> FindDef(b, db, index).Some?;
    assert forall id :: id in a[db].docs <==> Find(a, db, id).Some?;
    assert forall id :: id in b[db].docs <==> Find(b, db, id).Some?;
  }

  // ---------------------------------------------------------------------------
  // Batches that move the representation along

  type Batch = seq<Write<Record>>

  /** The batch writes only keys of the layout. */
  ghost predicate WritesKeys(batch: Batch) {
    forall b :: Effect(batch, b).Some? && Effect(batch, b).value.Some? ==> IsKey(b)
  }

  /** What the batch makes of a key of the layout. */
  function EffectOn(batch: Batch, k: Keys.Key): Option<Option<Record>> {
    Effect(batch, Keys.Encode(k))
  }

  /** A batch takes the representation of `a` to that of `b` if it corrects every key. */
  lemma BatchRepresents(kv: Kv<Record>, a: Store, batch: Batch, b: Store)
    requires Represents(kv, a) && Valid(b) && WritesKeys(batch)
    requires forall k :: Keys.Valid(k) ==>
                           Expected(b, k) == (if EffectOn(batch, k).Some? then EffectOn(batch, k).value else Expected(a, k))
    ensures Represents(Apply(kv, batch), b)
  {
    var next := Apply(kv, batch);
    forall x | x in next ensures IsKey(x) {
      ApplyEffect(kv, batch, x);
      assert Get(next, x).Some?;
      assert Get(kv, x).Some? ==> x in kv;
    }
    forall k | Keys.Valid(k) ensures Get(next, Keys.Encode(k)) == Expected(b, k) {
      ApplyEffect(kv, batch, Keys.Encode(k));
    }
  }

  /** One document put, replaced or removed. */
  function WithDoc(a: Store, db: bytes, id: bytes, doc: Option<Doc>): Store
    requires db in a
  {
    var docs := if doc.Some? then a[db].docs[id := doc.value] else a[db].docs - {id};
    a[db := a[db].(docs := docs)]
  }

  /** The document at a place, if there is one. */
  function Find(a: Store, db: bytes, id: bytes): Option<Doc> {
    if db in a && id in a[db].docs then Some(a[db].docs[id]) else None
  }

  function FindDef(a: Store, db: bytes, index: bytes): Option<bytes> {
    if db in a && index in a[db].defs then Some(a[db].defs[index]) else None
  }

  function EntriesOf(doc: Option<Doc>, defs: Defs): map<bytes, bytes> {
    if doc.Some? then Entries(doc.value.json, defs) else map[]
  }

  predicate Maps(values: map<bytes, bytes>, name: bytes, value: bytes) {
    name in values && values[name] == value
  }

  /** What replacing one document by another means for each key. */
  function UpdateEffect(db: bytes, id: bytes, key: SecretKey, prev: map<bytes, bytes>, next: map<bytes, bytes>,
                        doc: Option<Doc>, k: Keys.Key): Option<Option<Record>>
  {
    if k == Keys.DocKey(db, id) then
      Some(if doc.Some? then Some(DocRecord(key, Keys.Encode(k), doc.value)) else None)
    else if k.EntryKey? && k.db == db && k.id == id && Maps(prev, k.index, k.value) != Maps(next, k.index, k.value) then
      Some(if Maps(next, k.index, k.value) then Some(Marker) else None)
    else None
  }

  ghost predicate UpdatesDoc(batch: Batch, db: bytes, id: bytes, key: SecretKey,
                             prev: map<bytes, bytes>, next: map<bytes, bytes>, doc: Option<Doc>)
  {
    && WritesKeys(batch)
    && forall k :: Keys.Valid(k) ==> EffectOn(batch, k) == UpdateEffect(db, id, key, prev, next, doc, k)
  }

  predicate Storable(doc: Option<Doc>, defs: Defs) {
    doc.Some? ==> doc.value.json.Obj? && Accepts(doc.value.json, defs)
  }

  lemma UpdateValid(a: Store, db: bytes, id: bytes, doc: Option<Doc>)
    requires Valid(a) && db in a && ValidId(id) && Storable(doc, a[db].defs)
    ensures Valid(WithDoc(a, db, id, doc))
  {
    var b := WithDoc(a, db, id, doc);
    assert b[db].defs == a[db].defs;
    forall i | i in b[db].docs ensures ValidDoc(i, b[db].docs[i], b[db].defs) {
      if i == id && doc.Some? {
        assert b[db].docs[i] == doc.value;
      } else {
        assert i in a[db].docs && b[db].docs[i] == a[db].docs[i];
      }
    }
    assert ValidDatabase(b[db]);
    forall x | x in b ensures ValidName(x) && ValidDatabase(b[x]) {
      assert x != db ==> b[x] == a[x];
    }
  }

  /** How the update shows in each key. */
  lemma UpdateExpected(a: Store, db: bytes, id: bytes, doc: Option<Doc>, k: Keys.Key)
    requires db in a
    ensures var e := UpdateEffect(db, id, a[db].key, EntriesOf(Find(a, db, id), a[db].defs), EntriesOf(doc, a[db].defs), doc, k);
            Expected(WithDoc(a, db, id, doc), k) == (if e.Some? then e.value else Expected(a, k))
  {
    if k.EntryKey? {
      UpdateExpectedEntry(a, db, id, doc, k);
    } else {
      UpdateExpectedRecord(a, db, id, doc, k);
    }
  }

  lemma UpdateExpectedRecord(a: Store, db: bytes, id: bytes, doc: Option<Doc>, k: Keys.Key)
    requires db in a && !k.EntryKey?
    ensures Expected(WithDoc(a, db, id, doc), k) ==
            (if k != Keys.DocKey(db, id) then Expected(a, k)
             else if doc.Some? then Some(DocRecord(a[db].key, Keys.Encode(k), doc.value)) else None)
  {
    SameDefs(a, db, id, doc, k.db);
    if k.DocKey? {
      FindUpdated(a, db, id, doc, k.db, k.id);
    }
  }

  lemma SameDefs(a: Store, db: bytes, id: bytes, doc: Option<Doc>, x: bytes)
    requires db in a
    ensures x in WithDoc(a, db, id, doc) <==> x in a
    ensures x in a ==> WithDoc(a, db, id, doc)[x].defs == a[x].defs && WithDoc(a, db, id, doc)[x].key == a[x].key
  {
  }

  lemma FindUpdated(a: Store, db: bytes, id: bytes, doc: Option<Doc>, x: bytes, i: bytes)
    requires db in a
    ensures Find(WithDoc(a, db, id, doc), x, i) == if x == db && i == id then doc else Find(a, x, i)
  {
  }

  lemma UpdateExpectedEntry(a: Store, db: bytes, id: bytes, doc: Option<Doc>, k: Keys.Key)
    requires db in a && k.EntryKey?
    ensures k.db == db && k.id == id ==>
              && (Expected(a, k) == if Maps(EntriesOf(Find(a, db, id), a[db].defs), k.index, k.value) then Some(Marker) else None)
              && (Expected(WithDoc(a, db, id, doc), k) == if Maps(EntriesOf(doc, a[db].defs), k.index, k.value) then Some(Marker) else None)
    ensures !(k.db == db && k.id == id) ==> Expected(WithDoc(a, db, id, doc), k) == Expected(a, k)
  {
    if k.db == db && k.id == id {
      UpdateEntry(a, db, id, doc, k.index, k.value);
    } else {
      SameDefs(a, db, id, doc, k.db);
      FindUpdated(a, db, id, doc, k.db, k.id);
      SameEntry(a, WithDoc(a, db, id, doc), k.db, k.index, k.value, k.id);
    }
  }

  lemma UpdateEntry(a: Store, db: bytes, id: bytes, doc: Option<Doc>, index: bytes, value: bytes)
    requires db in a
    ensures HasEntry(a, db, index, value, id) <==> Maps(EntriesOf(Find(a, db, id), a[db].defs), index, value)
    ensures HasEntry(WithDoc(a, db, id, doc), db, index, value, id) <==> Maps(EntriesOf(doc, a[db].defs), index, value)
  {
  }

  lemma SameEntry(a: Store, b: Store, x: bytes, index: bytes, value: bytes, i: bytes)
    requires Find(a, x, i) == Find(b, x, i) && (x in a <==> x in b)
    requires x in a ==> a[x].defs == b[x].defs
    ensures HasEntry(a, x, index, value, i) <==> HasEntry(b, x, index, value, i)
  {
  }

  lemma UpdateRepresents(kv: Kv<Record>, a: Store, db: bytes, id: bytes, doc: Option<Doc>, batch: Batch)
    requires Represents(kv, a) && db in a && ValidId(id) && Storable(doc, a[db].defs)
    requires UpdatesDoc(batch, db, id, a[db].key, EntriesOf(Find(a, db, id), a[db].defs), EntriesOf(doc, a[db].defs), doc)
    ensures Represents(Apply(kv, batch), WithDoc(a, db, id, doc))
  {
    UpdateValid(a, db, id, doc);
    forall k | Keys.Valid(k)
      ensures Expected(WithDoc(a, db, id, doc), k) ==
              (if EffectOn(batch, k).Some? then EffectOn(batch, k).value else Expected(a, k))
    {
      UpdateExpected(a, db, id, doc, k);
    }
    BatchRepresents(kv, a, batch, WithDoc(a, db, id, doc));
  }

  /** A new database without documents. */
  ghost predicate CreatesDb(batch: Batch, db: bytes, key: SecretKey, defs: Defs) {
    && WritesKeys(batch)
    && forall k :: Keys.Valid(k) ==> EffectOn(batch, k) == CreateEffect(db, key, defs, k)
  }

  function CreateEffect(db: bytes, key: SecretKey, defs: Defs, k: Keys.Key): Option<Option<Record>> {
    if k == Keys.DbKey(db) then Some(Some(DbRecord(key)))
    else if k.DefKey? && k.db == db && k.index in defs then Some(Some(DefRecord(defs[k.index])))
    else None
  }

  lemma CreateRepresents(kv: Kv<Record>, a: Store, db: bytes, key: SecretKey, defs: Defs, batch: Batch)
    requires Represents(kv, a) && db !in a && ValidName(db) && ValidDefs(defs) && CreatesDb(batch, db, key, defs)
    ensures Represents(Apply(kv, batch), a[db := Database(key, defs, map[])])
  {
    var b := a[db := Database(key, defs, map[])];
    assert ValidDatabase(b[db]);
    forall k | Keys.Valid(k)
      ensures Expected(b, k) == (if EffectOn(batch, k).Some? then EffectOn(batch, k).value else Expected(a, k))
    {
      CreateExpected(a, db, key, defs, k);
    }
    BatchRepresents(kv, a, batch, b);
  }

  lemma CreateExpected(a: Store, db: bytes, key: SecretKey, defs: Defs, k: Keys.Key)
    requires db !in a
    ensures var e := CreateEffect(db, key, defs, k);
            Expected(a[db := Database(key, defs, map[])], k) == (if e.Some? then e.value else Expected(a, k))
  {
  }

  /** A database removed with all that belongs to it. */
  ghost predicate DeletesDb(batch: Batch, db: bytes) {
    && WritesKeys(batch)
    && forall k :: Keys.Valid(k) ==> EffectOn(batch, k) == (if k.db == db then Some(None) else None)
  }

  lemma DeleteRepresents(kv: Kv<Record>, a: Store, db: bytes, batch: Batch)
    requires Represents(kv, a) && DeletesDb(batch, db)
    ensures Represents(Apply(kv, batch), a - {db})
  {
    forall k | Keys.Valid(k)
      ensures Expected(a - {db}, k) == (if EffectOn(batch, k).Some? then EffectOn(batch, k).value else Expected(a, k))
    {
      DeleteExpected(a, db, k);
    }
    BatchRepresents(kv, a, batch, a - {db});
  }

  lemma DeleteExpected(a: Store, db: bytes, k: Keys.Key)
    ensures Expected(a - {db}, k) == if k.db == db then None else Expected(a, k)
  {
  }

}

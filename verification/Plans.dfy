/**
 Plans that outlive the store they were made on. A path query reads the definitions, gives up its lock, and takes it
 again to run; in between the database can have been deleted and made anew. The index is then checked by name only,
 so the answer is that of the path exactly if the name still stands for it.
 */
module Plans {
  import opened Bytes
  import opened Json
  import opened KeyValue
  import opened Names
  import opened Catalog
  import opened Definitions
  import opened Operations
  import opened Bounds
  import opened IndexEntry
  import opened Answers
  import opened QueryIndex
  import opened PathQuery
  import G = Ids
  import JsonPath
  import Pointer

  /** The query by index finds the document. */
  ghost predicate Found(a: Store, q: Query, id: bytes)
    requires q.value != []
  {
    exists v :: Matching(a, q, Entry(v, id))
  }

  // ---------------------------------------------------------------------------
  // A document that one pointer sees and no other

  /** An object in an object, along the names, with null at the end. */
  function Nest(names: seq<bytes>): Json {
    if names == [] then Null else Obj(map[names[0] := Nest(names[1..])])
  }

  lemma {:induction false} WalkNest(names: seq<bytes>, others: seq<bytes>)
    ensures names == others ==> Pointer.Walk(Nest(names), others) == Some(Null)
    ensures names != others ==> Pointer.Walk(Nest(names), others).None? || Pointer.Walk(Nest(names), others).value.Obj?
    decreases |names|
  {
    if names != [] && others != [] && names[0] == others[0] {
      WalkNest(names[1..], others[1..]);
      assert names == [names[0]] + names[1..] && others == [others[0]] + others[1..];
    }
  }

  /** Of all pointers only that of the names makes an entry of it. */
  lemma NestIndexed(names: seq<bytes>, path: bytes)
    requires names != [] && path != [] && Pointer.FromNames(Pointer.ToNames(path)) == path
    ensures IndexedValue(Nest(names), path) == if path == Pointer.FromNames(names) then Present([0x00]) else Absent
  {
    Pointer.NamesRoundTrip(names);
    WalkNest(names, Pointer.ToNames(path));
  }

  lemma NestAccepted(names: seq<bytes>, defs: Defs)
    requires names != [] && ValidDefs(defs)
    ensures Nest(names).Obj? && Accepts(Nest(names), defs)
  {
    forall name | name in defs ensures !IndexedValue(Nest(names), defs[name]).Rejected? {
      Pointer.PathRoundTrip(defs[name]);
      NestIndexed(names, defs[name]);
    }
  }

  /** The path finds it, and an index on another pointer does not. */
  lemma NestMissed(a: Store, db: bytes, path: JsonPath.Path, index: bytes, id: bytes)
    requires path != [] && JsonPath.Plain(path) && db in a && id in a[db].docs && a[db].docs[id].json == Nest(JsonPath.NamesOf(path))
    requires index in a[db].defs && Pointer.Valid(a[db].defs[index]) && !StandsFor(a[db].defs, index, path)
    ensures PathMatching(a, db, path, Eq, [0x00], id) && !Found(a, Query(db, index, Eq, [0x00]), id)
  {
    var names := JsonPath.NamesOf(path);
    IndexSeesPath(path, Nest(names), Eq, [0x00]);
    Pointer.NamesRoundTrip(names);
    NestIndexed(names, Pointer.FromNames(names));
    Pointer.PathRoundTrip(a[db].defs[index]);
    NestIndexed(names, a[db].defs[index]);
  }

  // ---------------------------------------------------------------------------
  // Exactly when a plan is right

  /** With these definitions the index finds what the path matches, whatever is stored and asked. */
  ghost predicate Serviceable(defs: Defs, db: bytes, index: bytes, path: JsonPath.Path) {
    forall a: Store, op: CmpOp, expected: bytes, id: bytes ::
      Valid(a) && db in a && a[db].defs == defs && expected != [] ==>
        (Found(a, Query(db, index, op, expected), id) <==> PathMatching(a, db, path, op, expected, id))
  }

  /** An index that is there when the query runs is right for a path exactly if its definition then is that of the path. */
  lemma PlanExact(defs: Defs, db: bytes, index: bytes, path: JsonPath.Path)
    requires ValidName(db) && ValidDefs(defs) && index in defs && path != [] && JsonPath.Plain(path)
    ensures Serviceable(defs, db, index, path) <==> StandsFor(defs, index, path)
  {
    if StandsFor(defs, index, path) {
      forall a: Store, op: CmpOp, expected: bytes, id: bytes | Valid(a) && db in a && a[db].defs == defs && expected != []
        ensures Found(a, Query(db, index, op, expected), id) <==> PathMatching(a, db, path, op, expected, id)
      {
        PlanSound(a, db, path, index, op, expected, id);
      }
    } else {
      var a, id := Counterexample(defs, db, index, path);
    }
  }

  /** With another definition there is a store that gives a wrong answer. */
  lemma Counterexample(defs: Defs, db: bytes, index: bytes, path: JsonPath.Path) returns (a: Store, id: bytes)
    requires ValidName(db) && ValidDefs(defs) && index in defs && path != [] && JsonPath.Plain(path)
    requires !StandsFor(defs, index, path)
    ensures Valid(a) && db in a && a[db].defs == defs
    ensures PathMatching(a, db, path, Eq, [0x00], id) && !Found(a, Query(db, index, Eq, [0x00]), id)
  {
    var ids := G.EnoughIds({}, 1);
    id := ids[0];
    a := OneDocument(db, defs, id, Nest(JsonPath.NamesOf(path)));
    NestAccepted(JsonPath.NamesOf(path), defs);
    NestMissed(a, db, path, index, id);
  }

  function OneDocument(db: bytes, defs: Defs, id: bytes, json: Json): Store {
    map[db := Database(0, defs, map[id := Doc(json, 0)])]
  }

  /**
   How a plan goes stale: delete the database, make it anew with an index of that name on another pointer, add a document.
   The path then matches the document and the planned index does not find it.
   */
  lemma PlanGoesStale(a: Store, db: bytes, path: JsonPath.Path, index: bytes, other: bytes, id: bytes) returns (b: Store, c: Store, d: Store)
    requires Valid(a) && db in a && StandsFor(a[db].defs, index, path)
    requires Pointer.Valid(other) && other != a[db].defs[index] && ValidId(id)
    ensures Atomic(Op.DeleteDb(db), a, Choice(0, 0, [], []), b)
    ensures Atomic(Op.CreateDb(db, [IndexDef(index, other)]), b, Choice(0, 0, [], []), c)
    ensures Atomic(Op.CreateDoc(db, id, Nest(JsonPath.NamesOf(path))), c, Choice(0, 0, [], []), d)
    ensures PathMatching(d, db, path, Eq, [0x00], id) && !Found(d, Query(db, index, Eq, [0x00]), id)
  {
    var names := JsonPath.NamesOf(path);
    b := Deleted(a, db);
    c := MadeAnew(a, b, db, index, other);
    d := WithDoc(c, db, id, Some(Doc(Nest(names), 0)));
    NestAccepted(names, map[index := other]);
    DocumentAdded(c, db, path, id, d);
    NestMissed(d, db, path, index, id);
  }

  lemma DocumentAdded(c: Store, db: bytes, path: JsonPath.Path, id: bytes, d: Store)
    requires JsonPath.Plain(path) && db in c && id !in c[db].docs && Accepts(Nest(JsonPath.NamesOf(path)), c[db].defs)
    requires d == WithDoc(c, db, id, Some(Doc(Nest(JsonPath.NamesOf(path)), 0)))
    ensures Atomic(Op.CreateDoc(db, id, Nest(JsonPath.NamesOf(path))), c, Choice(0, 0, [], []), d)
    ensures db in d && d[db].defs == c[db].defs && id in d[db].docs && d[db].docs[id].json == Nest(JsonPath.NamesOf(path))
  {
  }

  lemma Deleted(a: Store, db: bytes) returns (b: Store)
    requires db in a
    ensures Atomic(Op.DeleteDb(db), a, Choice(0, 0, [], []), b) && db !in b
  {
    b := a - {db};
  }

  lemma MadeAnew(a: Store, b: Store, db: bytes, index: bytes, other: bytes) returns (c: Store)
    requires Valid(a) && db in a && index in a[db].defs && Pointer.Valid(other) && db !in b
    ensures Atomic(Op.CreateDb(db, [IndexDef(index, other)]), b, Choice(0, 0, [], []), c)
    ensures db in c && c[db] == Database(0, map[index := other], map[]) && ValidDefs(map[index := other])
  {
    c := b[db := Database(0, map[index := other], map[])];
    OneDefinition(a, db, index, other);
  }

  lemma OneDefinition(a: Store, db: bytes, index: bytes, other: bytes)
    requires Valid(a) && db in a && index in a[db].defs && Pointer.Valid(other)
    ensures ValidList([IndexDef(index, other)]) && DefMap([IndexDef(index, other)]) == map[index := other]
    ensures ValidDefs(map[index := other])
  {
    assert ValidDatabase(a[db]);
    DefMapAppend([], IndexDef(index, other));
    assert [] + [IndexDef(index, other)] == [IndexDef(index, other)];
    assert DefMap([])[index := other] == map[index := other];
  }

  // ---------------------------------------------------------------------------
  // What a good plan reads

  /** The iteration of the index reads the documents the path matches. */
  lemma PlanReads(kv: Kv<Record>, a: Store, q: Query, path: JsonPath.Path)
    requires Represents(kv, a) && Answerable(q) && q.db in a && StandsFor(a[q.db].defs, q.index, path)
    ensures ReadsAs(kv, q, None, AnswerTo(a, q, None))
    ensures forall id :: id in Ids(AnswerTo(a, q, None)) <==> PathMatching(a, q.db, path, q.op, q.value, id)
  {
    ReadsAnswer(kv, a, q, None);
    AnswerIsMatching(a, q, path);
  }

  lemma AnswerIsMatching(a: Store, q: Query, path: JsonPath.Path)
    requires q.db in a && StandsFor(a[q.db].defs, q.index, path) && q.value != [] && Listed(AnswerTo(a, q, None), a, q, None)
    ensures forall id :: id in Ids(AnswerTo(a, q, None)) <==> PathMatching(a, q.db, path, q.op, q.value, id)
  {
    var entries := AnswerTo(a, q, None);
    forall id ensures id in Ids(entries) <==> PathMatching(a, q.db, path, q.op, q.value, id) {
      PlanSound(a, q.db, path, q.index, q.op, q.value, id);
      IdListed(entries, a, q, id);
    }
  }

  lemma IdListed(entries: seq<Entry>, a: Store, q: Query, id: bytes)
    requires q.value != [] && Listed(entries, a, q, None)
    ensures id in Ids(entries) <==> Found(a, q, id)
  {
    if id in Ids(entries) {
      var i :| 0 <= i < |entries| && Ids(entries)[i] == id;
      assert entries[i] in entries;
      assert Matching(a, q, Entry(entries[i].value, id));
    }
    if Found(a, q, id) {
      var v :| Matching(a, q, Entry(v, id));
      assert Entry(v, id) in entries;
      var i :| 0 <= i < |entries| && entries[i] == Entry(v, id);
      assert Ids(entries)[i] == id;
    }
  }
}

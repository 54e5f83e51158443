/**
 Path queries: the plan that replaces a scan of the documents by an index.
 */
module PathQuery {
  import opened Bytes
  import opened Json
  import opened KeyValue
  import opened Names
  import opened Catalog
  import opened Definitions
  import opened Engine
  import opened Bounds
  import opened IndexEntry
  import opened Answers
  import opened QueryIndex
  import JsonPath
  import Pointer
  import V = IndexValue

  // ---------------------------------------------------------------------------
  // The plan

  datatype PlanResult = Planned(index: Option<bytes>) | NotPlanned(error: QueryError)

  /** The index can stand in for the path. */
  predicate StandsFor(defs: Defs, index: bytes, path: JsonPath.Path) {
    && path != [] && JsonPath.Plain(path)
    && index in defs && defs[index] == Pointer.FromNames(JsonPath.NamesOf(path))
  }

  /** `planPathQuery`, after parsing: the first index whose pointer is that of the path. */
  method PlanPathQuery(kv: Kv<Record>, db: bytes, path: JsonPath.Path, ghost a: Store) returns (r: PlanResult)
    requires ValidName(db)
    ensures Represents(kv, a) ==>
              if db !in a then r == NotPlanned(NoDatabase)
              else
                && r.Planned?
                && (r.index.Some? ==> StandsFor(a[db].defs, r.index.value, path)
                                      && forall index :: index in a[db].defs && StandsFor(a[db].defs, index, path) ==> AtMost(r.index.value, index))
                && (r.index.None? ==> forall index :: index in a[db].defs ==> !StandsFor(a[db].defs, index, path))
  {
    if Represents(kv, a) { ReadsDbKey(kv, a, db); }
    var key := ReadDbKey(kv, db);
    if !key.Found? {
      return NotPlanned(if key.Missing? then NoDatabase else Corrupted);
    }
    var pointer := JsonPath.PathPointer(path);
    if pointer.None? {
      return Planned(None);
    }
    var defs := Indexes(kv, db, a);
    if defs.Corrupt? {
      return NotPlanned(Corrupted);
    }
    var index := FindPath(defs.defs, pointer.value);
    if Represents(kv, a) { FoundInMap(a[db].defs, pointer.value, index); }
    return Planned(index);
  }

  method FindPath(defs: seq<IndexDef>, pointer: bytes) returns (index: Option<bytes>)
    ensures FirstWith(defs, pointer, index)
  {
    var i := 0;
    while i < |defs|
      invariant 0 <= i <= |defs|
      invariant forall j :: 0 <= j < i ==> defs[j].path != pointer
    {
      if defs[i].path == pointer {
        return Some(defs[i].name);
      }
      i := i + 1;
    }
    return None;
  }

  predicate FirstWith(defs: seq<IndexDef>, pointer: bytes, index: Option<bytes>) {
    match index
    case None => forall j :: 0 <= j < |defs| ==> defs[j].path != pointer
    case Some(name) =>
      exists i :: 0 <= i < |defs| && defs[i] == IndexDef(name, pointer) && forall j :: 0 <= j < i ==> defs[j].path != pointer
  }

  lemma FoundInMap(defs: Defs, pointer: bytes, index: Option<bytes>)
    requires FirstWith(Listing(defs), pointer, index)
    ensures index.Some? ==> index.value in defs && defs[index.value] == pointer
    ensures index.Some? ==> forall name :: name in defs && defs[name] == pointer ==> AtMost(index.value, name)
    ensures index.None? ==> forall name :: name in defs ==> defs[name] != pointer
  {
    var names := Ascending(defs.Keys);
    if index.Some? {
      var i :| && 0 <= i < |Listing(defs)| && Listing(defs)[i] == IndexDef(index.value, pointer)
               && forall j :: 0 <= j < i ==> Listing(defs)[j].path != pointer;
      assert names[i] in names;
      forall name | name in defs && defs[name] == pointer ensures AtMost(index.value, name) {
        NoneBefore(defs, pointer, i, name);
      }
    } else {
      forall name | name in defs ensures defs[name] != pointer {
        assert name in names;
        var i :| 0 <= i < |names| && names[i] == name;
        assert Listing(defs)[i].path != pointer;
      }
    }
  }

  lemma NoneBefore(defs: Defs, pointer: bytes, i: nat, name: bytes)
    requires i < |Listing(defs)| && name in defs && defs[name] == pointer
    requires forall j :: 0 <= j < i ==> Listing(defs)[j].path != pointer
    ensures AtMost(Listing(defs)[i].name, name)
  {
    var names := Ascending(defs.Keys);
    assert name in names;
    var j :| 0 <= j < |names| && names[j] == name;
    assert Listing(defs)[j].path == pointer;
    if i < j { LessAsymmetric(names[i], names[j]); } else { LessIrreflexive(name); }
  }

  /** What the index makes of a document is what the path selects in it. */
  lemma IndexSeesPath(path: JsonPath.Path, json: Json, op: CmpOp, expected: bytes)
    requires path != [] && JsonPath.Plain(path) && expected != []
    ensures var pointer := Pointer.FromNames(JsonPath.NamesOf(path));
            JsonPath.Matches(path, json, op, expected) <==>
            (var v := IndexedValue(json, pointer);
             v.Present? && v.value != [] && v.value[0] == expected[0] && Compare(op, v.value, expected))
  {
    JsonPath.PathIsPointer(path, json);
    var found := Pointer.Select(json, Pointer.FromNames(JsonPath.NamesOf(path)));
    OneMatches(path, json, op, expected, found);
    if found.Some? { ValueSeen(found.value, op, expected); }
  }

  lemma OneMatches(path: JsonPath.Path, json: Json, op: CmpOp, expected: bytes, found: Option<Json>)
    requires JsonPath.Select(path, json) == JsonPath.AsList(found)
    ensures JsonPath.Matches(path, json, op, expected) <==> found.Some? && JsonPath.Agrees(found.value, op, expected)
  {
    var values := JsonPath.Select(path, json);
    if found.Some? { assert values == [found.value] && values[0] == found.value; } else { assert values == []; }
  }

  lemma ValueSeen(value: Json, op: CmpOp, expected: bytes)
    requires expected != []
    ensures JsonPath.Agrees(value, op, expected) <==>
            (var v := IndexedScalar(value); v.Present? && v.value != [] && v.value[0] == expected[0] && Compare(op, v.value, expected))
  {
  }

  /** The documents a path query is after. */
  predicate PathMatching(a: Store, db: bytes, path: JsonPath.Path, op: CmpOp, expected: bytes, id: bytes) {
    db in a && id in a[db].docs && JsonPath.Matches(path, a[db].docs[id].json, op, expected)
  }

  /** The document has, among the values the path selects, one that compares as asked with `y`. */
  ghost predicate Sought(a: Store, db: bytes, path: JsonPath.Path, op: CmpOp, y: Json, id: bytes) {
    && db in a && id in a[db].docs
    && exists v :: v in JsonPath.Select(path, a[db].docs[id].json) && V.Encode(v).Value? && ScalarCompare(op, v, y)
  }

  /** Those are the documents a path query is after. */
  lemma PathMatchingMeans(a: Store, db: bytes, path: JsonPath.Path, op: CmpOp, y: Json, id: bytes)
    requires V.Encode(y).Value? && (op == Eq || y.Number? || y.Str?)
    ensures PathMatching(a, db, path, op, V.Encode(y).bytes, id) <==> Sought(a, db, path, op, y, id)
  {
    if db in a && id in a[db].docs { JsonPath.MatchesMeans(path, a[db].docs[id].json, op, y); }
  }

  /** The planned index finds exactly the documents the scan would. */
  lemma PlanSound(a: Store, db: bytes, path: JsonPath.Path, index: bytes, op: CmpOp, expected: bytes, id: bytes)
    requires db in a && StandsFor(a[db].defs, index, path) && expected != []
    ensures (exists v :: Matching(a, Query(db, index, op, expected), Entry(v, id))) <==> PathMatching(a, db, path, op, expected, id)
  {
    if id in a[db].docs {
      IndexSeesPath(path, a[db].docs[id].json, op, expected);
      var v := IndexedValue(a[db].docs[id].json, a[db].defs[index]);
      if PathMatching(a, db, path, op, expected, id) {
        assert Matching(a, Query(db, index, op, expected), Entry(v.value, id));
      }
    }
  }
}

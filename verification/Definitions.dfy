/**
 Index definitions: checking a list of them, reading them back from the key space, and
 computing the index values of a document.
 */
module Definitions {
  import opened Bytes
  import opened Json
  import opened KeyValue
  import opened Names
  import opened Catalog
  import opened Scan
  import Parts
  import Pointer
  import Keys
  import V = IndexValue

  datatype IndexDef = IndexDef(name: bytes, path: bytes)

  /** The definitions as a map. */
  function DefMap(defs: seq<IndexDef>): Defs {
    if defs == [] then map[]
    else
      var last := defs[|defs| - 1];
      DefMap(defs[..|defs| - 1])[last.name := last.path]
  }

  predicate DistinctNames(defs: seq<IndexDef>) {
    forall i, j :: 0 <= i < j < |defs| ==> defs[i].name != defs[j].name
  }

  predicate ValidDef(def: IndexDef) {
    ValidName(def.name) && Pointer.Valid(def.path)
  }

  /** `validateIndexes` accepts. */
  predicate ValidList(defs: seq<IndexDef>) {
    |defs| <= MAX_INDEXES && DistinctNames(defs) && forall i :: 0 <= i < |defs| ==> ValidDef(defs[i])
  }

  method ValidateIndexes(defs: seq<IndexDef>) returns (ok: bool)
    ensures ok <==> ValidList(defs)
  {
    if |defs| > MAX_INDEXES {
      return false;
    }
    var seen: set<bytes> := {};
    var i := 0;
    while i < |defs|
      invariant 0 <= i <= |defs|
      invariant seen == set j | 0 <= j < i :: defs[j].name
      invariant forall j :: 0 <= j < i ==> ValidDef(defs[j])
      invariant DistinctNames(defs[..i])
    {
      var validName := ValidateName(defs[i].name);
      var validPath := Pointer.ValidatePointer(defs[i].path);
      if !validName || !validPath {
        assert !ValidDef(defs[i]);
        return false;
      }
      if defs[i].name in seen {
        return false;
      }
      seen := seen + {defs[i].name};
      i := i + 1;
    }
    assert defs[..i] == defs;
    return true;
  }

  /** The map of a list with distinct names has exactly the listed definitions. */
  lemma {:induction false} DefMapExact(defs: seq<IndexDef>)
    requires DistinctNames(defs)
    ensures |DefMap(defs)| == |defs|
    ensures forall i :: 0 <= i < |defs| ==> defs[i].name in DefMap(defs) && DefMap(defs)[defs[i].name] == defs[i].path
    ensures AllListed(DefMap(defs), defs)
    decreases |defs|
  {
    if defs != [] {
      var n := |defs| - 1;
      var rest := defs[..n];
      DefMapExact(rest);
      assert forall i :: 0 <= i < n ==> rest[i] == defs[i];
      assert defs == rest + [defs[n]];
      NewName(DefMap(rest), rest, defs[n]);
      LookupGrows(DefMap(rest), rest, defs[n]);
      NamesGrow(DefMap(rest), rest, defs[n]);
    }
  }

  /** Every entry of the map is listed. */
  predicate AllListed(m: Defs, defs: seq<IndexDef>) {
    forall name :: name in m ==> IsListed(name, defs)
  }

  predicate IsListed(name: bytes, defs: seq<IndexDef>) {
    exists i :: 0 <= i < |defs| && defs[i].name == name
  }

  lemma NewName(m: Defs, rest: seq<IndexDef>, def: IndexDef)
    requires AllListed(m, rest) && forall i :: 0 <= i < |rest| ==> rest[i].name != def.name
    ensures def.name !in m && |m[def.name := def.path]| == |m| + 1
  {
    assert !IsListed(def.name, rest);
    assert m[def.name := def.path].Keys == m.Keys + {def.name};
  }

  lemma LookupGrows(m: Defs, rest: seq<IndexDef>, def: IndexDef)
    requires forall i :: 0 <= i < |rest| ==> rest[i].name != def.name
    requires forall i :: 0 <= i < |rest| ==> rest[i].name in m && m[rest[i].name] == rest[i].path
    ensures var defs, next := rest + [def], m[def.name := def.path];
            forall i :: 0 <= i < |defs| ==> defs[i].name in next && next[defs[i].name] == defs[i].path
  {
  }

  lemma NamesGrow(m: Defs, rest: seq<IndexDef>, def: IndexDef)
    requires AllListed(m, rest)
    ensures AllListed(m[def.name := def.path], rest + [def])
  {
    forall name | name in m[def.name := def.path] ensures IsListed(name, rest + [def]) {
      if name in m { StillListed(name, rest, def); } else { assert (rest + [def])[|rest|].name == name; }
    }
  }

  lemma StillListed(name: bytes, rest: seq<IndexDef>, def: IndexDef)
    requires IsListed(name, rest)
    ensures IsListed(name, rest + [def])
  {
    var i :| 0 <= i < |rest| && rest[i].name == name;
    assert (rest + [def])[i].name == name;
  }

  lemma ValidListMap(defs: seq<IndexDef>)
    requires ValidList(defs)
    ensures ValidDefs(DefMap(defs))
  {
    DefMapExact(defs);
  }

  // ---------------------------------------------------------------------------
  // Index values of a document

  lemma AcceptsStep(json: Json, m: Defs, name: bytes, path: bytes)
    requires name !in m
    ensures Accepts(json, m[name := path]) <==> Accepts(json, m) && !IndexedValue(json, path).Rejected?
  {
    var next := m[name := path];
    assert next[name] == path;
    assert forall n :: n in m ==> n in next && next[n] == m[n];
    if Accepts(json, next) {
      forall n | n in m ensures !IndexedValue(json, m[n]).Rejected? {
        assert next[n] == m[n];
      }
    }
  }

  lemma EntriesStep(json: Json, m: Defs, name: bytes, path: bytes)
    requires name !in m
    ensures Entries(json, m[name := path]) ==
            (if IndexedValue(json, path).Present? then Entries(json, m)[name := IndexedValue(json, path).value]
             else Entries(json, m))
  {
    IndexAllStep(json, m, name, path);
    PresentStep(IndexAll(json, m), name, IndexedValue(json, path));
  }

  lemma IndexAllStep(json: Json, m: Defs, name: bytes, path: bytes)
    ensures IndexAll(json, m[name := path]) == IndexAll(json, m)[name := IndexedValue(json, path)]
  {
  }

  lemma PresentStep(all: map<bytes, Indexed>, name: bytes, v: Indexed)
    requires name !in all
    ensures PresentOnes(all[name := v]) == if v.Present? then PresentOnes(all)[name := v.value] else PresentOnes(all)
  {
  }

  lemma DefMapAppend(defs: seq<IndexDef>, def: IndexDef)
    ensures DefMap(defs + [def]) == DefMap(defs)[def.name := def.path]
  {
    assert (defs + [def])[..|defs|] == defs;
  }

  lemma PrefixMap(defs: seq<IndexDef>, i: nat)
    requires DistinctNames(defs) && i < |defs|
    ensures defs[i].name !in DefMap(defs[..i])
    ensures DefMap(defs[..i + 1]) == DefMap(defs[..i])[defs[i].name := defs[i].path]
  {
    DefMapExact(defs[..i]);
    assert defs[..i + 1][..i] == defs[..i];
  }

  lemma RejectedByAll(json: Json, defs: seq<IndexDef>, i: nat)
    requires DistinctNames(defs) && i < |defs| && IndexedValue(json, defs[i].path).Rejected?
    ensures !Accepts(json, DefMap(defs))
  {
    DefMapExact(defs);
    assert DefMap(defs)[defs[i].name] == defs[i].path;
  }

  /** `indexValues`: the encoded value for each index that has one, or the refusal. */
  method IndexValues(json: Json, defs: seq<IndexDef>) returns (values: Option<map<bytes, bytes>>)
    requires ValidList(defs)
    ensures values.Some? <==> Accepts(json, DefMap(defs))
    ensures values.Some? ==> values.value == Entries(json, DefMap(defs))
  {
    var found: map<bytes, bytes> := map[];
    var i := 0;
    while i < |defs|
      invariant 0 <= i <= |defs|
      invariant Accepts(json, DefMap(defs[..i])) && found == Entries(json, DefMap(defs[..i]))
    {
      var def := defs[i];
      PrefixMap(defs, i);
      AcceptsStep(json, DefMap(defs[..i]), def.name, def.path);
      EntriesStep(json, DefMap(defs[..i]), def.name, def.path);
      var value := Pointer.PointerValue(json, def.path);
      if value.Some? {
        var encoded := V.Encode(value.value);
        if encoded.Value? {
          found := found[def.name := encoded.bytes];
        } else if !encoded.error.Unsupported? {
          RejectedByAll(json, defs, i);
          return None;
        }
      }
      i := i + 1;
    }
    assert defs[..i] == defs;
    return Some(found);
  }

  // ---------------------------------------------------------------------------
  // Reading the definitions of a database

  /** Sorted by name. */
  predicate SortedByName(defs: seq<IndexDef>) {
    forall i, j :: 0 <= i < j < |defs| ==> Less(defs[i].name, defs[j].name)
  }

  /** The named definitions, in the order of the names given. */
  function ListOf(names: seq<bytes>, defs: Defs): (list: seq<IndexDef>)
    requires forall name :: name in names ==> name in defs
    ensures |list| == |names|
    ensures forall i :: 0 <= i < |names| ==> list[i] == IndexDef(names[i], defs[names[i]])
  {
    if names == [] then []
    else
      var n := |names| - 1;
      assert names[n] in names;
      ListOf(names[..n], defs) + [IndexDef(names[n], defs[names[n]])]
  }

  lemma {:induction false} ListOfMap(names: seq<bytes>, defs: Defs)
    requires forall name :: name in names ==> name in defs
    ensures DefMap(ListOf(names, defs)) == map name | name in names :: defs[name]
    decreases |names|
  {
    if names != [] {
      var n := |names| - 1;
      ListOfMap(names[..n], defs);
      assert ListOf(names, defs)[..n] == ListOf(names[..n], defs);
      OneMoreName(names, n);
    }
  }

  lemma OneMoreName(names: seq<bytes>, n: nat)
    requires n + 1 == |names|
    ensures forall name :: name in names <==> name in names[..n] || name == names[n]
  {
    assert names == names[..n] + [names[n]];
  }

  /** The definitions in the order of their names. */
  function Listing(defs: Defs): seq<IndexDef> {
    ListOf(Ascending(defs.Keys), defs)
  }

  lemma ListingSorted(defs: Defs)
    ensures SortedByName(Listing(defs)) && DefMap(Listing(defs)) == defs
  {
    ListOfMap(Ascending(defs.Keys), defs);
  }

  /** Valid definitions make a valid list. */
  lemma ListingValid(defs: Defs)
    requires ValidDefs(defs)
    ensures ValidList(Listing(defs))
  {
    ListingSorted(defs);
    var names, list := Ascending(defs.Keys), Listing(defs);
    forall i, j | 0 <= i < j < |list| ensures list[i].name != list[j].name {
      LessAsymmetric(list[i].name, list[j].name);
    }
    DefMapExact(list);
    forall i | 0 <= i < |list| ensures ValidDef(list[i]) {
      assert names[i] in names;
    }
  }

  /** The key `b` is the key of a definition of the database. */
  lemma DefKeysOf(kv: Kv<Record>, a: Store, db: bytes, b: bytes) returns (name: bytes)
    requires Represents(kv, a) && ValidName(db) && b in kv && Keys.DefPrefix(db) <= b
    ensures Keys.Valid(Keys.DefKey(db, name)) && b == Keys.Encode(Keys.DefKey(db, name))
    ensures db in a && name in a[db].defs && kv[b] == DefRecord(a[db].defs[name])
  {
    assert IsKey(b);
    var k :| Keys.Valid(k) && b == Keys.Encode(k);
    Keys.DefRange(db, k);
    name := k.index;
    DefThere(kv, a, db, name);
  }

  lemma DefThere(kv: Kv<Record>, a: Store, db: bytes, name: bytes)
    requires Represents(kv, a) && Keys.Valid(Keys.DefKey(db, name)) && Keys.Encode(Keys.DefKey(db, name)) in kv
    ensures db in a && name in a[db].defs && kv[Keys.Encode(Keys.DefKey(db, name))] == DefRecord(a[db].defs[name])
  {
    var k := Keys.DefKey(db, name);
    assert Get(kv, Keys.Encode(k)) == Expected(a, k);
  }

  lemma DefNameRead(db: bytes, name: bytes)
    requires ValidName(name)
    ensures Keys.DefPrefix(db) <= Keys.Encode(Keys.DefKey(db, name))
    ensures Parts.ReadPart(Keys.Encode(Keys.DefKey(db, name))[|Keys.DefPrefix(db)|..]) == Some(Parts.Split(name, []))
  {
    Keys.DefLayout(db, name);
    var key := Keys.Encode(Keys.DefKey(db, name));
    assert key[|Keys.DefPrefix(db)|..] == Parts.AppendPart([], name) + [];
    Parts.ReadPartBack(name, []);
  }

  datatype DefsResult = Loaded(defs: seq<IndexDef>) | Corrupt

  /** The list holds the definitions stored under the keys. */
  ghost predicate ReadFrom(a: Store, db: bytes, keys: seq<bytes>, defs: seq<IndexDef>) {
    |defs| == |keys| && forall i :: 0 <= i < |keys| ==> ReadOne(a, db, keys[i], defs[i])
  }

  ghost predicate ReadOne(a: Store, db: bytes, key: bytes, def: IndexDef) {
    && db in a && def.name in a[db].defs && a[db].defs[def.name] == def.path
    && key == Keys.Encode(Keys.DefKey(db, def.name))
  }

  lemma ReadDistinct(a: Store, db: bytes, keys: seq<bytes>, defs: seq<IndexDef>)
    requires ReadFrom(a, db, keys, defs) && StrictlySorted(keys)
    ensures DistinctNames(defs)
  {
    forall i, j | 0 <= i < j < |defs| ensures defs[i].name != defs[j].name {
      assert ReadOne(a, db, keys[i], defs[i]) && ReadOne(a, db, keys[j], defs[j]);
      LessAsymmetric(keys[i], keys[j]);
    }
  }

  /** Every definition is among those read. */
  lemma ReadComplete(kv: Kv<Record>, a: Store, db: bytes, keys: seq<bytes>, defs: seq<IndexDef>, name: bytes)
    requires Represents(kv, a) && db in a && name in a[db].defs && ReadFrom(a, db, keys, defs)
    requires keys == Ascending(KeysWithin(kv, Keys.DefPrefix(db), PrefixEnd(Keys.DefPrefix(db))))
    ensures IsListed(name, defs)
  {
    var k := Keys.DefKey(db, name);
    assert Keys.Valid(k);
    assert Get(kv, Keys.Encode(k)) == Expected(a, k);
    DefNameRead(db, name);
    PrefixEndExact(Keys.DefPrefix(db), Keys.Encode(k));
    assert Keys.Encode(k) in keys;
    var i :| 0 <= i < |keys| && keys[i] == Keys.Encode(k);
    assert ReadOne(a, db, keys[i], defs[i]);
    assert Keys.Valid(Keys.DefKey(db, defs[i].name));
    Keys.EncodeInjective(k, Keys.DefKey(db, defs[i].name));
  }

  lemma ReadOnly(a: Store, db: bytes, keys: seq<bytes>, defs: seq<IndexDef>)
    requires db in a && ReadFrom(a, db, keys, defs) && StrictlySorted(keys)
    ensures forall name :: name in DefMap(defs) ==> name in a[db].defs && DefMap(defs)[name] == a[db].defs[name]
  {
    ReadDistinct(a, db, keys, defs);
    DefMapExact(defs);
    forall name | name in DefMap(defs) ensures name in a[db].defs && DefMap(defs)[name] == a[db].defs[name] {
      var i :| 0 <= i < |defs| && defs[i].name == name;
      assert ReadOne(a, db, keys[i], defs[i]);
    }
  }

  lemma ReadMap(kv: Kv<Record>, a: Store, db: bytes, keys: seq<bytes>, defs: seq<IndexDef>)
    requires Represents(kv, a) && db in a && ReadFrom(a, db, keys, defs)
    requires keys == Ascending(KeysWithin(kv, Keys.DefPrefix(db), PrefixEnd(Keys.DefPrefix(db))))
    ensures DefMap(defs) == a[db].defs
  {
    ReadOnly(a, db, keys, defs);
    forall name | name in a[db].defs ensures name in DefMap(defs) {
      ReadComplete(kv, a, db, keys, defs, name);
      ReadDistinct(a, db, keys, defs);
      ListedInMap(defs, name);
    }
  }

  lemma ListedInMap(defs: seq<IndexDef>, name: bytes)
    requires DistinctNames(defs) && IsListed(name, defs)
    ensures name in DefMap(defs)
  {
    DefMapExact(defs);
  }

  lemma ReadValid(a: Store, db: bytes, keys: seq<bytes>, defs: seq<IndexDef>)
    requires Valid(a) && db in a && ReadFrom(a, db, keys, defs) && StrictlySorted(keys) && DefMap(defs) == a[db].defs
    ensures ValidList(defs)
  {
    ReadDistinct(a, db, keys, defs);
    DefMapExact(defs);
    forall i | 0 <= i < |defs| ensures ValidDef(defs[i]) {
      assert ReadOne(a, db, keys[i], defs[i]);
      assert defs[i].name in a[db].defs;
    }
  }

  /** The keys under which the definitions of a database are stored. */
  function DefKeys(kv: Kv<Record>, db: bytes): seq<bytes> {
    Ascending(KeysWithin(kv, Keys.DefPrefix(db), PrefixEnd(Keys.DefPrefix(db))))
  }

  /** One key and value of the definition space, decoded and checked. */
  function DecodeDefinition(db: bytes, key: bytes, record: Record): Option<IndexDef> {
    if !(Keys.DefPrefix(db) <= key) then None
    else
      var part := Parts.ReadPart(key[|Keys.DefPrefix(db)|..]);
      if part.None? || part.value.rest != [] || !record.DefRecord? then None
      else
        var def := IndexDef(part.value.part, record.path);
        if ValidList([def]) then Some(def) else None
  }

  function DefReader(db: bytes): Reader<Record, IndexDef> {
    (key: bytes, record: Record) => DecodeDefinition(db, key, record)
  }

  lemma DefReads(kv: Kv<Record>, a: Store, db: bytes, key: bytes)
    requires Represents(kv, a) && ValidName(db) && key in KeysWithin(kv, Keys.DefPrefix(db), PrefixEnd(Keys.DefPrefix(db)))
    ensures DefReader(db)(key, kv[key]).Some? && ReadOne(a, db, key, DefReader(db)(key, kv[key]).value)
  {
    PrefixEndExact(Keys.DefPrefix(db), key);
    DefinitionStored(kv, a, db, key);
  }

  lemma AllDefsRead(kv: Kv<Record>, a: Store, db: bytes)
    requires Represents(kv, a) && ValidName(db)
    ensures Readable(kv, DefKeys(kv, db), DefReader(db), Anything())
    ensures ReadFrom(a, db, DefKeys(kv, db), Items(kv, DefKeys(kv, db), DefReader(db), Anything()))
  {
    var keys := DefKeys(kv, db);
    forall i | 0 <= i < |keys|
      ensures keys[i] in kv && DefReader(db)(keys[i], kv[keys[i]]).Some?
      ensures ReadOne(a, db, keys[i], DefReader(db)(keys[i], kv[keys[i]]).value)
    {
      assert keys[i] in keys;
      DefReads(kv, a, db, keys[i]);
    }
  }

  /** The iteration of `indexes`. */
  method ReadDefinitions(kv: Kv<Record>, db: bytes, ghost a: Store) returns (defs: Option<seq<IndexDef>>)
    ensures Represents(kv, a) && ValidName(db) ==> defs.Some? && ReadFrom(a, db, DefKeys(kv, db), defs.value)
  {
    var prefix := Keys.DefPrefix(db);
    var upper := ComputePrefixEnd(prefix);
    if Represents(kv, a) && ValidName(db) { AllDefsRead(kv, a, db); }
    assert KeysBehind(kv, prefix, upper, None) == DefKeys(kv, db);
    defs := CollectAll(kv, prefix, upper, DefReader(db));
  }

  lemma ReadCorrect(kv: Kv<Record>, a: Store, db: bytes, defs: seq<IndexDef>)
    requires Represents(kv, a) && ValidName(db) && ReadFrom(a, db, DefKeys(kv, db), defs)
    ensures ValidList(defs) && Listing(DefMap(defs)) == if db in a then Listing(a[db].defs) else []
  {
    if db in a {
      ReadMap(kv, a, db, DefKeys(kv, db), defs);
      ReadValid(a, db, DefKeys(kv, db), defs);
    } else {
      NothingRead(a, db, DefKeys(kv, db), defs);
    }
  }

  /** `indexes`: on a store that represents something, the definitions of the database in the order of their names. */
  method Indexes(kv: Kv<Record>, db: bytes, ghost a: Store) returns (r: DefsResult)
    ensures Represents(kv, a) && ValidName(db) ==>
              r == Loaded(if db in a then Listing(a[db].defs) else [])
    ensures r.Loaded? ==> ValidList(r.defs)
  {
    var defs := ReadDefinitions(kv, db, a);
    if defs.None? {
      return Corrupt;
    }
    if Represents(kv, a) && ValidName(db) { ReadCorrect(kv, a, db, defs.value); }
    var ok := ValidateIndexes(defs.value);
    if !ok {
      return Corrupt;
    }
    ValidListMap(defs.value);
    ListingValid(DefMap(defs.value));
    return Loaded(Listing(DefMap(defs.value)));
  }

  lemma NothingRead(a: Store, db: bytes, keys: seq<bytes>, defs: seq<IndexDef>)
    requires ReadFrom(a, db, keys, defs) && db !in a
    ensures defs == [] && Listing(DefMap(defs)) == []
  {
    assert |keys| == 0 || !ReadOne(a, db, keys[0], defs[0]);
    assert Ascending({}) == [];
    assert DefMap(defs).Keys == {};
  }

  lemma DefinitionStored(kv: Kv<Record>, a: Store, db: bytes, key: bytes)
    requires Represents(kv, a) && ValidName(db) && Keys.DefPrefix(db) <= key && key in kv
    ensures var part := Parts.ReadPart(key[|Keys.DefPrefix(db)|..]);
            && part.Some? && part.value.rest == [] && kv[key].DefRecord?
            && ReadOne(a, db, key, IndexDef(part.value.part, kv[key].path))
            && ValidList([IndexDef(part.value.part, kv[key].path)])
  {
    var name := DefKeysOf(kv, a, db, key);
    DefNameRead(db, name);
    StoredDefValid(a, db, name);
  }

  lemma StoredDefValid(a: Store, db: bytes, name: bytes)
    requires Valid(a) && db in a && name in a[db].defs
    ensures ValidList([IndexDef(name, a[db].defs[name])])
  {
    assert ValidDatabase(a[db]);
  }
}

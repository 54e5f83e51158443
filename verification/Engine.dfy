/**
 The writing operations as the store performs them, one caller at a time: read, check, fill
 one batch, commit it. `Machine` lets any number of callers interleave.
 */
module Engine {
  import opened Bytes
  import opened Picks
  import opened Json
  import opened KeyValue
  import opened Names
  import opened Catalog
  import opened Definitions
  import opened IndexUpdates
  import opened Operations
  import opened Drawing
  import Keys

  datatype Read<T> = Found(value: T) | Missing | Broken

  /** `openDoc`: a record opens only under the key it was sealed with and at the place it was sealed for. */
  function OpenDoc(place: bytes, key: SecretKey, record: Record): Option<Doc> {
    if record.DocRecord? && record.key == key && record.place == place then Some(record.doc) else None
  }

  function ReadDbKey(kv: Kv<Record>, db: bytes): Read<SecretKey> {
    match Get(kv, Keys.Encode(Keys.DbKey(db)))
    case None => Missing
    case Some(record) => if record.DbRecord? then Found(record.key) else Broken
  }

  function ReadDoc(kv: Kv<Record>, db: bytes, id: bytes, key: SecretKey): Read<Doc> {
    var place := Keys.Encode(Keys.DocKey(db, id));
    match Get(kv, place)
    case None => Missing
    case Some(record) =>
      match OpenDoc(place, key, record)
      case None => Broken
      case Some(doc) => Found(doc)
  }

  /** On a represented store the key read is the database's. */
  lemma ReadsDbKey(kv: Kv<Record>, a: Store, db: bytes)
    requires Represents(kv, a) && ValidName(db)
    ensures ReadDbKey(kv, db) == if db in a then Found(a[db].key) else Missing
  {
    assert Keys.Valid(Keys.DbKey(db));
    assert Get(kv, Keys.Encode(Keys.DbKey(db))) == Expected(a, Keys.DbKey(db));
  }

  /** ... and a document opens to what it is; the record is never found broken. */
  lemma ReadsDoc(kv: Kv<Record>, a: Store, db: bytes, id: bytes)
    requires Represents(kv, a) && ValidName(db) && ValidId(id) && db in a
    ensures ReadDoc(kv, db, id, a[db].key) == match Find(a, db, id) case None => Missing case Some(d) => Found(d)
  {
    assert Keys.Valid(Keys.DocKey(db, id));
    assert Get(kv, Keys.Encode(Keys.DocKey(db, id))) == Expected(a, Keys.DocKey(db, id));
  }

  /** The place of a document is taken exactly if there is one. */
  lemma PlaceTaken(kv: Kv<Record>, a: Store, db: bytes, id: bytes)
    requires Represents(kv, a) && ValidName(db) && ValidId(id)
    ensures Keys.Encode(Keys.DocKey(db, id)) in kv <==> Find(a, db, id).Some?
  {
    var k := Keys.DocKey(db, id);
    assert Keys.Valid(k);
    assert Get(kv, Keys.Encode(k)) == Expected(a, k);
  }

  /** What an operation promises on a store that represents `a`. */
  ghost predicate Serves(op: Op, before: Kv<Record>, after: Kv<Record>, a: Store, r: Outcome, c: Choice) {
    && (r.Refused? ==> after == before)
    && (Represents(before, a) && WellFormed(op) ==>
          match Judge(op, a)
          case Some(e) => r == Refused(e)
          case None => r == Done && Permitted(op, a, c) && Represents(after, Post(op, a, c)))
  }

  function Draw(key: SecretKey, rev: Revision): Choice {
    Choice(key, rev, [], [])
  }

  /**
   The same for an operation that draws a revision: it also fails if the generator fails before it yields one
   that the store permits.
   */
  ghost predicate ServesDrawing(op: Op, before: Kv<Record>, after: Kv<Record>, a: Store, r: Outcome, rev: Revision, drawn: seq<Revision>) {
    if r == Refused(Unavailable) then
      after == before
      && (Represents(before, a) && WellFormed(op) ==> Judge(op, a).None? && forall x :: x in drawn ==> !Permitted(op, a, Draw(0, x)))
    else
      Serves(op, before, after, a, r, Draw(0, rev)) && (r.Done? ==> rev in drawn)
  }

  // ---------------------------------------------------------------------------
  // Batches

  lemma EmptyBatch()
    ensures WritesKeys([]) && forall k :: EffectOn([], k) == None
  {
  }

  /** A database record and its definitions. */
  method CreateBatch(db: bytes, key: SecretKey, defs: seq<IndexDef>) returns (batch: Batch)
    requires ValidName(db) && ValidList(defs)
    ensures CreatesDb(batch, db, key, DefMap(defs))
  {
    EmptyBatch();
    SetOne([], Keys.DbKey(db), DbRecord(key));
    batch := [] + [Set(Keys.Encode(Keys.DbKey(db)), DbRecord(key))];
    var i := 0;
    while i < |defs|
      invariant 0 <= i <= |defs|
      invariant CreatesDb(batch, db, key, DefMap(defs[..i]))
    {
      assert ValidDef(defs[i]);
      var k := Keys.DefKey(db, defs[i].name);
      CreateStep(batch, db, key, defs[..i], defs[i]);
      assert defs[..i + 1] == defs[..i] + [defs[i]];
      batch := batch + [Set(Keys.Encode(k), DefRecord(defs[i].path))];
      i := i + 1;
    }
    assert defs[..i] == defs;
  }

  lemma CreateStep(batch: Batch, db: bytes, key: SecretKey, defs: seq<IndexDef>, def: IndexDef)
    requires ValidName(db) && ValidDef(def) && CreatesDb(batch, db, key, DefMap(defs))
    ensures CreatesDb(batch + [Set(Keys.Encode(Keys.DefKey(db, def.name)), DefRecord(def.path))], db, key, DefMap(defs + [def]))
  {
    DefMapAppend(defs, def);
    DefineOne(batch, db, key, DefMap(defs), def.name, def.path);
  }

  lemma DefineOne(batch: Batch, db: bytes, key: SecretKey, m: Defs, name: bytes, path: bytes)
    requires ValidName(db) && ValidName(name) && CreatesDb(batch, db, key, m)
    ensures CreatesDb(batch + [Set(Keys.Encode(Keys.DefKey(db, name)), DefRecord(path))], db, key, m[name := path])
  {
    SetOne(batch, Keys.DefKey(db, name), DefRecord(path));
  }

  lemma RangeDeletes(prefix: bytes, k: Keys.Key)
    requires prefix != [] && prefix[0] < 0xff
    ensures PrefixEnd(prefix).Some?
    ensures InRange(Keys.Encode(k), prefix, PrefixEnd(prefix).value) <==> prefix <= Keys.Encode(k)
  {
    Keys.PrefixEndSome(prefix);
    PrefixEndExact(prefix, Keys.Encode(k));
  }

  /** The four writes of `deleteDB`. */
  function DeleteWrites(db: bytes): Batch
    requires ValidName(db)
  {
    Keys.PrefixEndSome(Keys.DocsPrefix(db));
    Keys.PrefixEndSome(Keys.DataPrefix(db));
    Keys.PrefixEndSome(Keys.DefPrefix(db));
    [Delete(Keys.Encode(Keys.DbKey(db))),
     DeleteRange(Keys.DocsPrefix(db), PrefixEnd(Keys.DocsPrefix(db)).value),
     DeleteRange(Keys.DataPrefix(db), PrefixEnd(Keys.DataPrefix(db)).value),
     DeleteRange(Keys.DefPrefix(db), PrefixEnd(Keys.DefPrefix(db)).value)]
  }

  /** The ranges take all keys of the database and none of another. */
  lemma DeletesExactly(db: bytes, k: Keys.Key)
    requires ValidName(db) && Keys.Valid(k)
    ensures EffectOn(DeleteWrites(db), k) == if k.db == db then Some(None) else None
  {
    var b, w := Keys.Encode(k), DeleteWrites(db);
    RangeDeletes(Keys.DocsPrefix(db), k);
    RangeDeletes(Keys.DataPrefix(db), k);
    RangeDeletes(Keys.DefPrefix(db), k);
    Keys.DocsRange(db, k);
    Keys.DataRange(db, k);
    Keys.DefRange(db, k);
    if b == Keys.Encode(Keys.DbKey(db)) { Keys.EncodeInjective(k, Keys.DbKey(db)); }
    FourWrites(w[0], w[1], w[2], w[3], b);
  }

  lemma FourWrites(p: Write<Record>, q: Write<Record>, r: Write<Record>, s: Write<Record>, b: bytes)
    ensures Effect([p, q, r, s], b) ==
            (if Touch(s, b).Some? then Touch(s, b)
             else if Touch(r, b).Some? then Touch(r, b)
             else if Touch(q, b).Some? then Touch(q, b)
             else Touch(p, b))
  {
    assert [p, q, r, s][..3] == [p, q, r] && [p, q, r][..2] == [p, q] && [p, q][..1] == [p] && [p][..0] == [];
    assert Effect([p], b) == Touch(p, b);
    assert Effect([p, q], b) == if Touch(q, b).Some? then Touch(q, b) else Effect([p], b);
    assert Effect([p, q, r], b) == if Touch(r, b).Some? then Touch(r, b) else Effect([p, q], b);
  }

  lemma DeleteWritesKeys(db: bytes)
    requires ValidName(db)
    ensures DeletesDb(DeleteWrites(db), db)
  {
    var w := DeleteWrites(db);
    forall b: bytes ensures Effect(w, b) != None ==> Effect(w, b) == Some(None) {
      FourWrites(w[0], w[1], w[2], w[3], b);
    }
    forall k | Keys.Valid(k) ensures EffectOn(w, k) == if k.db == db then Some(None) else None {
      DeletesExactly(db, k);
    }
  }

  /** One document record and its entries. */
  method PutBatch(db: bytes, id: bytes, key: SecretKey, doc: Doc, values: map<bytes, bytes>) returns (batch: Batch)
    requires ValidName(db) && ValidId(id) && ValidValues(values)
    ensures UpdatesDoc(batch, db, id, key, map[], values, Some(doc))
  {
    var k := Keys.DocKey(db, id);
    var record := DocRecord(key, Keys.Encode(k), doc);
    var first := [Set(Keys.Encode(k), record)];
    SetAlone(k, record);
    batch := SetIndexEntries(first, db, id, values);
    PutsWhole(first, batch, db, id, key, doc, values);
  }

  /** A batch of one write. */
  lemma SetAlone(k: Keys.Key, record: Record)
    requires Keys.Valid(k)
    ensures WritesKeys([Set(Keys.Encode(k), record)])
    ensures forall j :: Keys.Valid(j) ==> EffectOn([Set(Keys.Encode(k), record)], j) == if j == k then Some(Some(record)) else None
  {
    EmptyBatch();
    SetOne([], k, record);
    assert [] + [Set(Keys.Encode(k), record)] == [Set(Keys.Encode(k), record)];
  }

  lemma DeleteAlone(k: Keys.Key)
    requires Keys.Valid(k)
    ensures WritesKeys([Delete(Keys.Encode(k))])
    ensures forall j :: Keys.Valid(j) ==> EffectOn([Delete(Keys.Encode(k))], j) == if j == k then Some(None) else None
  {
    EmptyBatch();
    DeleteOne([], k);
    var batch: Batch := [Delete(Keys.Encode(k))];
    assert [] + batch == batch;
  }

  lemma PutsWhole(first: Batch, batch: Batch, db: bytes, id: bytes, key: SecretKey, doc: Doc, values: map<bytes, bytes>)
    requires WritesKeys(first) && Extends(first, batch, db, id, values, Some(Marker))
    requires forall j :: Keys.Valid(j) ==>
               EffectOn(first, j) == if j == Keys.DocKey(db, id) then Some(Some(DocRecord(key, Keys.Encode(j), doc))) else None
    ensures UpdatesDoc(batch, db, id, key, map[], values, Some(doc))
  {
  }

  lemma RemovesWhole(first: Batch, batch: Batch, db: bytes, id: bytes, key: SecretKey, values: map<bytes, bytes>)
    requires WritesKeys(first) && Extends(first, batch, db, id, values, None)
    requires forall j :: Keys.Valid(j) ==> EffectOn(first, j) == if j == Keys.DocKey(db, id) then Some(None) else None
    ensures UpdatesDoc(batch, db, id, key, values, map[], None)
  {
  }

  method ChangeBatch(db: bytes, id: bytes, key: SecretKey, doc: Doc, prev: map<bytes, bytes>, next: map<bytes, bytes>)
    returns (batch: Batch)
    requires ValidName(db) && ValidId(id) && ValidValues(prev) && ValidValues(next)
    ensures UpdatesDoc(batch, db, id, key, prev, next, Some(doc))
  {
    var k := Keys.DocKey(db, id);
    var record := DocRecord(key, Keys.Encode(k), doc);
    var first := [Set(Keys.Encode(k), record)];
    SetAlone(k, record);
    batch := ChangeIndexEntries(first, db, id, prev, next);
  }

  method RemoveBatch(db: bytes, id: bytes, key: SecretKey, values: map<bytes, bytes>) returns (batch: Batch)
    requires ValidName(db) && ValidId(id) && ValidValues(values)
    ensures UpdatesDoc(batch, db, id, key, values, map[], None)
  {
    var k := Keys.DocKey(db, id);
    var first: Batch := [Delete(Keys.Encode(k))];
    DeleteAlone(k);
    batch := DeleteIndexEntries(first, db, id, values);
    RemovesWhole(first, batch, db, id, key, values);
  }

  method ComputeValues(json: Json, defs: seq<IndexDef>) returns (values: Option<map<bytes, bytes>>)
    requires ValidList(defs)
    ensures values.Some? <==> Accepts(json, DefMap(defs))
    ensures values.Some? ==> values.value == Entries(json, DefMap(defs)) && ValidValues(values.value)
  {
    values := IndexValues(json, defs);
    ValidListMap(defs);
    EntriesValid(json, DefMap(defs));
  }

  function InUse(kv: Kv<Record>, db: bytes): bytes -> bool {
    (id: bytes) => Keys.Encode(Keys.DocKey(db, id)) in kv
  }

  /** `hasAnyDoc` */
  method HasAnyDoc(kv: Kv<Record>, db: bytes, ids: seq<bytes>) returns (found: bool)
    ensures found <==> Collides(InUse(kv, db), ids)
  {
    var i := 0;
    while i < |ids|
      invariant 0 <= i <= |ids|
      invariant forall j :: 0 <= j < i ==> Keys.Encode(Keys.DocKey(db, ids[j])) !in kv
    {
      if Keys.Encode(Keys.DocKey(db, ids[i])) in kv {
        return true;
      }
      i := i + 1;
    }
    return false;
  }

  /** What is made of valid draws is valid. */
  lemma MadeOfDrawn(drawn: seq<bytes>, n: nat, ids: seq<bytes>)
    requires n <= |drawn| && Values(ids) == Values(drawn[..n]) && forall id :: id in drawn ==> ValidId(id)
    ensures forall i :: 0 <= i < |ids| ==> ValidId(ids[i])
    ensures forall id :: id in drawn[n..] ==> ValidId(id)
  {
    forall i | 0 <= i < |ids| ensures ValidId(ids[i]) {
      InValues(ids, ids[i]);
      InValues(drawn[..n], ids[i]);
    }
  }

  lemma FreeIds(kv: Kv<Record>, a: Store, db: bytes, ids: seq<bytes>)
    requires Represents(kv, a) && ValidName(db) && forall i :: 0 <= i < |ids| ==> ValidId(ids[i])
    requires !Collides(InUse(kv, db), ids)
    ensures forall i :: 0 <= i < |ids| ==> Find(a, db, ids[i]).None?
  {
    forall i | 0 <= i < |ids| ensures Find(a, db, ids[i]).None? {
      var k := Keys.DocKey(db, ids[i]);
      assert Keys.Valid(k) && !InUse(kv, db)(ids[i]);
      assert Get(kv, Keys.Encode(k)) == Expected(a, k);
    }
  }

  /** The identifiers of an import cannot be drawn. */
  ghost predicate NoIds(kv: Kv<Record>, op: Op, drawn: seq<bytes>, revs: seq<Revision>)
    requires op.ImportDocs?
  {
    RunsOut(InUse(kv, op.db), |op.documents|, drawn, revs)
  }

  /** The writes for some of the documents, from the first on, are more than a batch may hold. */
  ghost predicate TooHeavy(op: Op, d: Database, weight: Batch -> nat, maxBatchBytes: nat)
    requires op.ImportDocs?
  {
    exists parts, ids, revs :: 0 < |parts| <= |op.documents|
                               && PutsAll(parts, op.db, d.key, d.defs, ids, op.documents[..|parts|], revs)
                               && weight(Flatten(parts)) > maxBatchBytes
  }

  /** What bulk import is given beside its documents: what the generator yields, and the limit on its batch. */
  datatype Means = Means(drawn: seq<bytes>, revs: seq<Revision>, weight: Batch -> nat, maxBatchBytes: nat)

  /**
   What bulk import promises: all documents or none, and never a document overwritten. It fails for a missing
   database, then if it runs out of identifiers, then for a document that is refused or a batch that is too large.
   */
  ghost predicate Imports(op: Op, before: Kv<Record>, after: Kv<Record>, a: Store, r: Outcome, c: Choice, m: Means)
    requires op.ImportDocs?
  {
    && (r.Refused? ==> after == before)
    && (Represents(before, a) && WellFormed(op) ==>
          if op.db !in a then r == Refused(DbNotFound)
          else if NoIds(before, op, m.drawn, m.revs) then r == Refused(Unavailable)
          else
            match r
            case Done => Judge(op, a).None? && Permitted(op, a, c) && Represents(after, Post(op, a, c))
            case Refused(e) =>
              || (e == InvalidIndexValue && Judge(op, a) == Some(e))
              || (e == BulkLimit && TooHeavy(op, a[op.db], m.weight, m.maxBatchBytes)))
  }

  // ---------------------------------------------------------------------------
  // The operations

  class Storage {
    var kv: Kv<Record>

    constructor ()
      ensures Represents(kv, map[])
    {
      kv := map[];
      EmptyStore();
    }

    method CreateDb(db: bytes, defs: seq<IndexDef>, key: SecretKey, ghost a: Store) returns (r: Outcome)
      requires ValidName(db)
      modifies this
      ensures Serves(Op.CreateDb(db, defs), old(kv), kv, a, r, Draw(key, 0))
    {
      var ok := ValidateIndexes(defs);
      if !ok {
        return Refused(InvalidIndex);
      }
      if Represents(kv, a) { ReadsDbKey(kv, a, db); }
      var current := ReadDbKey(kv, db);
      if current.Broken? {
        return Refused(CorruptData);
      }
      if current.Found? {
        return Refused(DbExists);
      }
      var batch := CreateBatch(db, key, defs);
      if Represents(kv, a) {
        CommitRepresents(kv, a, Op.CreateDb(db, defs), View(0, map[], map[]), Draw(key, 0), batch);
      }
      kv := Apply(kv, batch);
      return Done;
    }

    method DeleteDb(db: bytes, ghost a: Store) returns (r: Outcome)
      requires ValidName(db)
      modifies this
      ensures Serves(Op.DeleteDb(db), old(kv), kv, a, r, Draw(0, 0))
    {
      if Represents(kv, a) { ReadsDbKey(kv, a, db); }
      var current := ReadDbKey(kv, db);
      if current.Broken? {
        return Refused(CorruptData);
      }
      if current.Missing? {
        return Refused(DbNotFound);
      }
      DeleteWritesKeys(db);
      if Represents(kv, a) {
        CommitRepresents(kv, a, Op.DeleteDb(db), View(0, map[], map[]), Draw(0, 0), DeleteWrites(db));
      }
      kv := Apply(kv, DeleteWrites(db));
      return Done;
    }

    /** `databaseKey` */
    method LoadKey(db: bytes, ghost a: Store) returns (key: Read<SecretKey>)
      requires ValidName(db)
      ensures Represents(kv, a) ==> key == if db in a then Found(a[db].key) else Missing
    {
      if Represents(kv, a) { ReadsDbKey(kv, a, db); }
      key := ReadDbKey(kv, db);
    }

    /** The definitions of a database that is there; none if they cannot be read. */
    method LoadDefs(db: bytes, ghost a: Store) returns (defs: Option<seq<IndexDef>>)
      requires ValidName(db)
      ensures Represents(kv, a) && db in a ==> defs.Some? && DefMap(defs.value) == a[db].defs
      ensures defs.Some? ==> ValidList(defs.value)
    {
      var loaded := Indexes(kv, db, a);
      if loaded.Corrupt? {
        return None;
      }
      if Represents(kv, a) && db in a { ListingSorted(a[db].defs); }
      return Some(loaded.defs);
    }

    method CreateDoc(db: bytes, id: bytes, json: Json, drawn: seq<Revision>, ghost a: Store) returns (r: Outcome, rev: Revision)
      requires ValidName(db) && ValidId(id)
      modifies this
      ensures ServesDrawing(Op.CreateDoc(db, id, json), old(kv), kv, a, r, rev, drawn)
    {
      rev := 0;
      var key := LoadKey(db, a);
      if !key.Found? {
        var e := if key.Missing? then DbNotFound else CorruptData;
        RefusalServes(Op.CreateDoc(db, id, json), kv, a, e);
        return Refused(e), rev;
      }
      var taken := HasDoc(db, id, a);
      if taken {
        RefusalServes(Op.CreateDoc(db, id, json), kv, a, DocExists);
        return Refused(DocExists), rev;
      }
      r, rev := StoreNew(db, id, key.value, json, drawn, a);
    }

    /** `has`, for the key of a document. */
    method HasDoc(db: bytes, id: bytes, ghost a: Store) returns (taken: bool)
      requires ValidName(db) && ValidId(id)
      ensures Represents(kv, a) ==> (taken <==> Find(a, db, id).Some?)
    {
      if Represents(kv, a) { PlaceTaken(kv, a, db, id); }
      taken := Keys.Encode(Keys.DocKey(db, id)) in kv;
    }

    /** The end of creating a document: definitions, index values, one batch. */
    method StoreNew(db: bytes, id: bytes, key: SecretKey, json: Json, drawn: seq<Revision>, ghost a: Store)
      returns (r: Outcome, rev: Revision)
      requires ValidName(db) && ValidId(id)
      requires Represents(kv, a) ==> db in a && key == a[db].key && id !in a[db].docs
      modifies this
      ensures ServesDrawing(Op.CreateDoc(db, id, json), old(kv), kv, a, r, rev, drawn)
    {
      rev := 0;
      ghost var op := Op.CreateDoc(db, id, json);
      var defs := LoadDefs(db, a);
      if defs.None? {
        RefusalServes(op, kv, a, CorruptData);
        return Refused(CorruptData), rev;
      }
      var values := ComputeValues(json, defs.value);
      if values.None? {
        RefusalServes(op, kv, a, InvalidIndexValue);
        return Refused(InvalidIndexValue), rev;
      }
      var made, _ := MakeRevision(None, drawn);
      if made.None? {
        return Refused(Unavailable), rev;
      }
      rev := made.value;
      var batch := PutBatch(db, id, key, Doc(json, rev), values.value);
      if Represents(kv, a) && json.Obj? { CreateServes(kv, a, db, id, json, rev, batch); }
      kv := Apply(kv, batch);
      r := Done;
    }

    /** The document and the key of the database it is in, for an operation that changes it. */
    method LoadDoc(db: bytes, id: bytes, ghost a: Store) returns (r: Read<(SecretKey, Doc)>)
      requires ValidName(db) && ValidId(id)
      ensures Represents(kv, a) ==> (r.Found? <==> Find(a, db, id).Some?) && (r.Missing? <==> Find(a, db, id).None?)
      ensures Represents(kv, a) && r.Found? ==> r.value.0 == a[db].key && Find(a, db, id) == Some(r.value.1)
    {
      var key := LoadKey(db, a);
      if !key.Found? {
        return if key.Missing? then Missing else Broken;
      }
      if Represents(kv, a) { ReadsDoc(kv, a, db, id); }
      var current := ReadDoc(kv, db, id, key.value);
      if !current.Found? {
        return if current.Missing? then Missing else Broken;
      }
      return Found((key.value, current.value));
    }

    method ReplaceDoc(db: bytes, id: bytes, json: Json, cond: MatchCond, drawn: seq<Revision>, ghost a: Store)
      returns (r: Outcome, rev: Revision)
      requires ValidName(db) && ValidId(id)
      modifies this
      ensures ServesDrawing(Op.ReplaceDoc(db, id, json, cond), old(kv), kv, a, r, rev, drawn)
    {
      rev := 0;
      var loaded := LoadDoc(db, id, a);
      if !loaded.Found? {
        return Refused(if loaded.Missing? then DocNotFound else CorruptData), rev;
      }
      var (key, current) := loaded.value;
      if !MatchRevision(cond, current.rev) {
        return Refused(PreconditionFailed), rev;
      }
      r, rev := Change(Op.ReplaceDoc(db, id, json, cond), key, current, json, drawn, a);
    }

    method PatchDoc(db: bytes, id: bytes, cond: MatchCond, patch: Json -> Option<Json>, drawn: seq<Revision>, ghost a: Store)
      returns (r: Outcome, rev: Revision)
      requires ValidName(db) && ValidId(id)
      modifies this
      ensures ServesDrawing(Op.PatchDoc(db, id, cond, patch), old(kv), kv, a, r, rev, drawn)
    {
      rev := 0;
      var loaded := LoadDoc(db, id, a);
      if !loaded.Found? {
        return Refused(if loaded.Missing? then DocNotFound else CorruptData), rev;
      }
      var (key, current) := loaded.value;
      if !MatchRevision(cond, current.rev) {
        return Refused(PreconditionFailed), rev;
      }
      var json := patch(current.json);
      if json.None? {
        return Refused(InvalidPatch), rev;
      }
      r, rev := Change(Op.PatchDoc(db, id, cond, patch), key, current, json.value, drawn, a);
    }

    /** The common end of replacing and patching: definitions, index delta, new revision, one batch. */
    method Change(op: Op, key: SecretKey, current: Doc, json: Json, drawn: seq<Revision>, ghost a: Store)
      returns (r: Outcome, rev: Revision)
      requires (op.ReplaceDoc? || op.PatchDoc?) && ValidName(op.db) && ValidId(op.id)
      requires NewJson(op, current.json) == Some(json) && MatchRevision(op.cond, current.rev)
      requires Represents(kv, a) ==> op.db in a && key == a[op.db].key && Find(a, op.db, op.id) == Some(current)
      modifies this
      ensures ServesDrawing(op, old(kv), kv, a, r, rev, drawn)
    {
      rev := 0;
      var defs := LoadDefs(op.db, a);
      if defs.None? {
        return Refused(CorruptData), rev;
      }
      var prev := ComputeValues(current.json, defs.value);
      if Represents(kv, a) { assert ValidDoc(op.id, a[op.db].docs[op.id], a[op.db].defs); }
      if prev.None? {
        return Refused(CorruptData), rev;
      }
      var next := ComputeValues(json, defs.value);
      if next.None? {
        return Refused(InvalidIndexValue), rev;
      }
      var made, _ := MakeRevision(Some(current.rev), drawn);
      if made.None? {
        return Refused(Unavailable), rev;
      }
      rev := made.value;
      var batch := ChangeBatch(op.db, op.id, key, Doc(json, rev), prev.value, next.value);
      if Represents(kv, a) && WellFormed(op) { ChangeServes(kv, a, op, key, DefMap(defs.value), current, rev, batch); }
      kv := Apply(kv, batch);
      r := Done;
    }

    method DeleteDoc(db: bytes, id: bytes, cond: MatchCond, ghost a: Store) returns (r: Outcome)
      requires ValidName(db) && ValidId(id)
      modifies this
      ensures Serves(Op.DeleteDoc(db, id, cond), old(kv), kv, a, r, Draw(0, 0))
    {
      var loaded := LoadDoc(db, id, a);
      if !loaded.Found? {
        return Refused(if loaded.Missing? then DocNotFound else CorruptData);
      }
      var (key, current) := loaded.value;
      if !MatchRevision(cond, current.rev) {
        return Refused(PreconditionFailed);
      }
      var defs := LoadDefs(db, a);
      if defs.None? {
        return Refused(CorruptData);
      }
      var values := ComputeValues(current.json, defs.value);
      if Represents(kv, a) { assert ValidDoc(id, a[db].docs[id], a[db].defs); }
      if values.None? {
        return Refused(CorruptData);
      }
      var batch := RemoveBatch(db, id, key, values.value);
      if Represents(kv, a) { RemoveServes(kv, a, db, id, cond, current, batch); }
      kv := Apply(kv, batch);
      return Done;
    }

    /** The identifiers of an import: drawn again until none of them is taken. */
    method DrawIds(db: bytes, count: nat, drawn: seq<bytes>, revs: seq<Revision>)
      returns (ok: bool, ids: seq<bytes>, made: seq<Revision>)
      requires forall id :: id in drawn ==> ValidId(id)
      ensures ok <==> !RunsOut(InUse(kv, db), count, drawn, revs)
      ensures ok ==> |ids| == |made| == count && Distinct(ids) && forall i :: 0 <= i < count ==> ValidId(ids[i])
      ensures ok ==> !Collides(InUse(kv, db), ids)
    {
      var left, leftRevs := drawn, revs;
      while true
        invariant forall id :: id in left ==> ValidId(id)
        invariant RunsOut(InUse(kv, db), count, drawn, revs) <==> RunsOut(InUse(kv, db), count, left, leftRevs)
        decreases |left|
      {
        var n;
        ok, ids, made, n := MakeImportIds(count, left, leftRevs);
        if !ok {
          return;
        }
        AttemptMade(InUse(kv, db), count, left, leftRevs, n);
        MadeOfDrawn(left, n, ids);
        SameCollisions(InUse(kv, db), ids, left[..n]);
        var collision := HasAnyDoc(kv, db, ids);
        if !collision {
          return;
        }
        left, leftRevs := left[n..], leftRevs[count..];
      }
    }

    method ImportDocs(db: bytes, documents: seq<Json>, m: Means, ghost a: Store)
      returns (r: Outcome, ids: seq<bytes>, revs: seq<Revision>)
      requires ValidName(db) && forall id :: id in m.drawn ==> ValidId(id)
      modifies this
      ensures Imports(Op.ImportDocs(db, documents), old(kv), kv, a, r, Choice(0, 0, ids, revs), m)
    {
      ids, revs := [], [];
      var key := LoadKey(db, a);
      if !key.Found? {
        r := Refused(if key.Missing? then DbNotFound else CorruptData);
        return;
      }
      var defs := LoadDefs(db, a);
      if defs.None? {
        r := Refused(CorruptData);
        return;
      }
      var ok;
      ok, ids, revs := DrawIds(db, |documents|, m.drawn, m.revs);
      if !ok {
        r := Refused(Unavailable);
        return;
      }
      if Represents(kv, a) { FreeIds(kv, a, db, ids); }
      r := StoreAll(db, key.value, defs.value, documents, ids, revs, m, a);
    }

    /** The end of an import: fills the batch and commits it. */
    method StoreAll(db: bytes, key: SecretKey, defs: seq<IndexDef>, documents: seq<Json>, ids: seq<bytes>, revs: seq<Revision>,
                    m: Means, ghost a: Store)
      returns (r: Outcome)
      requires ValidName(db) && ValidList(defs)
      requires |ids| == |revs| == |documents| && forall i :: 0 <= i < |ids| ==> ValidId(ids[i])
      requires Represents(kv, a) ==>
                 && db in a && key == a[db].key && DefMap(defs) == a[db].defs && AllFree(a, db, ids)
                 && !NoIds(kv, Op.ImportDocs(db, documents), m.drawn, m.revs)
      modifies this
      ensures Imports(Op.ImportDocs(db, documents), old(kv), kv, a, r, Choice(0, 0, ids, revs), m)
    {
      ghost var op := Op.ImportDocs(db, documents);
      var batch: Batch;
      ghost var parts: seq<Batch>;
      var problem;
      batch, problem, parts := FillImport(db, key, defs, documents, ids, revs, m.weight, m.maxBatchBytes);
      if problem.Some? {
        if Represents(kv, a) { ImportStops(kv, a, op, ids, revs, m, parts, problem.value); }
        return Refused(problem.value);
      }
      if Represents(kv, a) {
        FilledAll(parts, db, key, DefMap(defs), ids, documents, revs);
        if WellFormed(op) { ImportServes(kv, a, db, documents, ids, revs, m, parts, batch); }
      }
      kv := Apply(kv, batch);
      return Done;
    }
  }

  // ---------------------------------------------------------------------------
  // What the commits come to

  /** Leaving the key space alone is right if the store calls for the refusal. */
  lemma RefusalServes(op: Op, kv: Kv<Record>, a: Store, e: Error)
    requires Represents(kv, a) ==> Judge(op, a) == Some(e)
    ensures Serves(op, kv, kv, a, Refused(e), Draw(0, 0))
  {
  }

  lemma CreateServes(kv: Kv<Record>, a: Store, db: bytes, id: bytes, json: Json, rev: Revision, batch: Batch)
    requires Represents(kv, a) && ValidName(db) && ValidId(id) && json.Obj? && db in a && id !in a[db].docs && Accepts(json, a[db].defs)
    requires UpdatesDoc(batch, db, id, a[db].key, map[], Entries(json, a[db].defs), Some(Doc(json, rev)))
    ensures Serves(Op.CreateDoc(db, id, json), kv, Apply(kv, batch), a, Done, Draw(0, rev))
  {
    var op := Op.CreateDoc(db, id, json);
    assert PutsOne(batch, db, id, a[db].key, a[db].defs, Doc(json, rev));
    CommitRepresents(kv, a, op, View(a[db].key, a[db].defs, map[]), Draw(0, rev), batch);
  }

  lemma ChangeServes(kv: Kv<Record>, a: Store, op: Op, key: SecretKey, defs: Defs, current: Doc, rev: Revision, batch: Batch)
    requires Represents(kv, a) && WellFormed(op) && (op.ReplaceDoc? || op.PatchDoc?) && Judge(op, a).None? && rev != current.rev
    requires op.db in a && key == a[op.db].key && defs == a[op.db].defs && Find(a, op.db, op.id) == Some(current)
    requires ChangeBatchFor(op, View(key, defs, map[op.id := Some(current)]), Draw(0, rev), batch)
    ensures Serves(op, kv, Apply(kv, batch), a, Done, Draw(0, rev))
  {
    CommitRepresents(kv, a, op, View(key, defs, map[op.id := Some(current)]), Draw(0, rev), batch);
  }

  lemma RemoveServes(kv: Kv<Record>, a: Store, db: bytes, id: bytes, cond: MatchCond, current: Doc, batch: Batch)
    requires Represents(kv, a) && ValidName(db) && ValidId(id) && db in a && Find(a, db, id) == Some(current) && MatchRevision(cond, current.rev)
    requires UpdatesDoc(batch, db, id, a[db].key, Entries(current.json, a[db].defs), map[], None)
    ensures Serves(Op.DeleteDoc(db, id, cond), kv, Apply(kv, batch), a, Done, Draw(0, 0))
  {
    CommitRepresents(kv, a, Op.DeleteDoc(db, id, cond), View(a[db].key, a[db].defs, map[id := Some(current)]), Draw(0, 0), batch);
  }

  lemma ImportServes(kv: Kv<Record>, a: Store, db: bytes, documents: seq<Json>, ids: seq<bytes>, revs: seq<Revision>,
                     m: Means, parts: seq<Batch>, batch: Batch)
    requires Represents(kv, a) && WellFormed(Op.ImportDocs(db, documents)) && db in a && AllAccepted(documents, a[db].defs)
    requires |ids| == |documents| && AllFree(a, db, ids) && !NoIds(kv, Op.ImportDocs(db, documents), m.drawn, m.revs)
    requires batch == Flatten(parts) && PutsAll(parts, db, a[db].key, a[db].defs, ids, documents, revs)
    ensures Imports(Op.ImportDocs(db, documents), kv, Apply(kv, batch), a, Done, Choice(0, 0, ids, revs), m)
  {
    var op, v, c := Op.ImportDocs(db, documents), View(a[db].key, a[db].defs, map[]), Choice(0, 0, ids, revs);
    ImportAllowed(a, db, documents, ids, revs);
    assert BatchFor(op, v, c, batch);
    ImportCommits(kv, a, op, v, c, batch);
  }

  /** Filling the batch stops for a reason. */
  lemma ImportStops(kv: Kv<Record>, a: Store, op: Op, ids: seq<bytes>, revs: seq<Revision>, m: Means, parts: seq<Batch>, problem: Error)
    requires op.ImportDocs? && op.db in a && !NoIds(kv, op, m.drawn, m.revs) && |ids| == |revs| == |op.documents|
    requires FilledUpTo(parts, op.db, a[op.db].key, a[op.db].defs, ids, op.documents, revs)
    requires ImportStopped(problem, parts, a[op.db].defs, op.documents, m.weight, m.maxBatchBytes)
    ensures Imports(op, kv, kv, a, Refused(problem), Choice(0, 0, ids, revs), m)
  {
    if problem == BulkLimit {
      HeavyBatch(op, a[op.db], ids, revs, m, parts);
    } else {
      DocumentRefused(op, a, |parts|);
    }
  }

  lemma HeavyBatch(op: Op, d: Database, ids: seq<bytes>, revs: seq<Revision>, m: Means, parts: seq<Batch>)
    requires op.ImportDocs? && |ids| == |revs| == |op.documents| && FilledUpTo(parts, op.db, d.key, d.defs, ids, op.documents, revs)
    requires parts != [] && m.weight(Flatten(parts)) > m.maxBatchBytes
    ensures TooHeavy(op, d, m.weight, m.maxBatchBytes)
  {
    var n := |parts|;
    assert PutsAll(parts, op.db, d.key, d.defs, ids[..n], op.documents[..n], revs[..n]);
  }

  lemma DocumentRefused(op: Op, a: Store, i: nat)
    requires op.ImportDocs? && op.db in a && i < |op.documents| && !Accepts(op.documents[i], a[op.db].defs)
    ensures Judge(op, a) == Some(InvalidIndexValue)
  {
  }

  lemma ImportAllowed(a: Store, db: bytes, documents: seq<Json>, ids: seq<bytes>, revs: seq<Revision>)
    requires db in a && AllAccepted(documents, a[db].defs) && |ids| == |documents| == |revs| && AllFree(a, db, ids)
    ensures Judge(Op.ImportDocs(db, documents), a).None? && Permitted(Op.ImportDocs(db, documents), a, Choice(0, 0, ids, revs))
  {
  }

  /** The writes for one document of an import. */
  method ImportPart(db: bytes, id: bytes, key: SecretKey, defs: seq<IndexDef>, document: Json, rev: Revision)
    returns (part: Option<Batch>)
    requires ValidName(db) && ValidId(id) && ValidList(defs)
    ensures part.Some? <==> Accepts(document, DefMap(defs))
    ensures part.Some? ==> PutsOne(part.value, db, id, key, DefMap(defs), Doc(document, rev))
  {
    var values := ComputeValues(document, defs);
    if values.None? {
      return None;
    }
    var batch := PutBatch(db, id, key, Doc(document, rev), values.value);
    part := Some(batch);
  }

  predicate AllAccepted(documents: seq<Json>, defs: Defs) {
    forall i :: 0 <= i < |documents| ==> Accepts(documents[i], defs)
  }

  lemma AcceptedAppend(documents: seq<Json>, i: nat, defs: Defs)
    requires i < |documents| && AllAccepted(documents[..i], defs) && Accepts(documents[i], defs)
    ensures AllAccepted(documents[..i + 1], defs)
  {
    var done, next := documents[..i], documents[..i + 1];
    assert next == done + [documents[i]];
  }

  lemma FlattenAppend(parts: seq<Batch>, part: Batch)
    ensures Flatten(parts + [part]) == Flatten(parts) + part
  {
    assert (parts + [part])[..|parts|] == parts;
  }

  /** The parts are the writes for the first documents, none of which is refused. */
  ghost predicate FilledUpTo(parts: seq<Batch>, db: bytes, key: SecretKey, defs: Defs,
                             ids: seq<bytes>, documents: seq<Json>, revs: seq<Revision>)
    requires |ids| == |revs| == |documents|
  {
    var n := |parts|;
    && n <= |documents| && AllAccepted(documents[..n], defs)
    && PutsAll(parts, db, key, defs, ids[..n], documents[..n], revs[..n])
  }

  /** With the first `n` parts, one after the other, the batch never gets too large. */
  ghost predicate Light(parts: seq<Batch>, n: nat, weight: Batch -> nat, maxBatchBytes: nat)
    requires n <= |parts|
  {
    forall i :: 1 <= i <= n ==> weight(Flatten(parts[..i])) <= maxBatchBytes
  }

  /** The next document is the first that is refused, or the last part the first to make the batch too large. */
  ghost predicate ImportStopped(problem: Error, parts: seq<Batch>, defs: Defs, documents: seq<Json>, weight: Batch -> nat, maxBatchBytes: nat) {
    if problem == BulkLimit then
      parts != [] && weight(Flatten(parts)) > maxBatchBytes && Light(parts, |parts| - 1, weight, maxBatchBytes)
    else
      && problem == InvalidIndexValue && |parts| < |documents| && !Accepts(documents[|parts|], defs)
      && Light(parts, |parts|, weight, maxBatchBytes)
  }

  /** The loop that fills the batch of an import. */
  method FillImport(db: bytes, key: SecretKey, defs: seq<IndexDef>, documents: seq<Json>, ids: seq<bytes>, revs: seq<Revision>,
                    weight: Batch -> nat, maxBatchBytes: nat)
    returns (batch: Batch, problem: Option<Error>, ghost parts: seq<Batch>)
    requires ValidName(db) && ValidList(defs) && |ids| == |revs| == |documents| && forall i :: 0 <= i < |ids| ==> ValidId(ids[i])
    ensures batch == Flatten(parts) && FilledUpTo(parts, db, key, DefMap(defs), ids, documents, revs)
    ensures match problem
            case None => |parts| == |documents| && Light(parts, |parts|, weight, maxBatchBytes)
            case Some(e) => ImportStopped(e, parts, DefMap(defs), documents, weight, maxBatchBytes)
  {
    batch, problem, parts := [], None, [];
    var i := 0;
    while i < |documents|
      invariant 0 <= i == |parts| <= |documents|
      invariant batch == Flatten(parts) && FilledUpTo(parts, db, key, DefMap(defs), ids, documents, revs)
      invariant Light(parts, |parts|, weight, maxBatchBytes)
    {
      var part := ImportPart(db, ids[i], key, defs, documents[i], revs[i]);
      if part.None? {
        problem := Some(InvalidIndexValue);
        return;
      }
      FilledNext(parts, part.value, db, key, DefMap(defs), ids, documents, revs);
      FlattenAppend(parts, part.value);
      LightAppend(parts, part.value, weight, maxBatchBytes);
      batch, parts := batch + part.value, parts + [part.value];
      if weight(batch) > maxBatchBytes {
        problem := Some(BulkLimit);
        return;
      }
      i := i + 1;
    }
  }

  lemma FilledAll(parts: seq<Batch>, db: bytes, key: SecretKey, defs: Defs, ids: seq<bytes>, documents: seq<Json>, revs: seq<Revision>)
    requires |ids| == |revs| == |documents| == |parts| && FilledUpTo(parts, db, key, defs, ids, documents, revs)
    ensures AllAccepted(documents, defs) && PutsAll(parts, db, key, defs, ids, documents, revs)
  {
    var n := |parts|;
    assert ids[..n] == ids && documents[..n] == documents && revs[..n] == revs;
  }

  lemma FilledNext(parts: seq<Batch>, part: Batch, db: bytes, key: SecretKey, defs: Defs,
                   ids: seq<bytes>, documents: seq<Json>, revs: seq<Revision>)
    requires |ids| == |revs| == |documents| && |parts| < |documents| && FilledUpTo(parts, db, key, defs, ids, documents, revs)
    requires Accepts(documents[|parts|], defs)
    requires PutsOne(part, db, ids[|parts|], key, defs, Doc(documents[|parts|], revs[|parts|]))
    ensures FilledUpTo(parts + [part], db, key, defs, ids, documents, revs)
  {
    var n := |parts|;
    PutsAppend(parts, part, db, key, defs, ids, documents, revs[..n], n, revs[n]);
    AcceptedAppend(documents, n, defs);
    assert revs[..n + 1] == revs[..n] + [revs[n]];
  }

  lemma LightAppend(parts: seq<Batch>, part: Batch, weight: Batch -> nat, maxBatchBytes: nat)
    requires Light(parts, |parts|, weight, maxBatchBytes)
    ensures Light(parts + [part], |parts|, weight, maxBatchBytes)
    ensures weight(Flatten(parts + [part])) <= maxBatchBytes ==> Light(parts + [part], |parts| + 1, weight, maxBatchBytes)
  {
    var all := parts + [part];
    forall i | 1 <= i <= |parts| ensures weight(Flatten(all[..i])) <= maxBatchBytes {
      assert all[..i] == parts[..i];
    }
    assert all[..|all|] == all;
  }

  lemma PutsAppend(parts: seq<Batch>, part: Batch, db: bytes, key: SecretKey, defs: Defs,
                   ids: seq<bytes>, documents: seq<Json>, revs: seq<Revision>, i: nat, rev: Revision)
    requires i < |ids| == |documents| && PutsAll(parts, db, key, defs, ids[..i], documents[..i], revs)
    requires PutsOne(part, db, ids[i], key, defs, Doc(documents[i], rev))
    ensures PutsAll(parts + [part], db, key, defs, ids[..i + 1], documents[..i + 1], revs + [rev])
  {
    assert ids[..i + 1] == ids[..i] + [ids[i]] && documents[..i + 1] == documents[..i] + [documents[i]];
    PutsPush(parts, part, db, key, defs, ids[..i], ids[i], documents[..i], documents[i], revs, rev);
  }

  lemma PutsPush(parts: seq<Batch>, part: Batch, db: bytes, key: SecretKey, defs: Defs, ids: seq<bytes>, id: bytes,
                 documents: seq<Json>, document: Json, revs: seq<Revision>, rev: Revision)
    requires PutsAll(parts, db, key, defs, ids, documents, revs) && PutsOne(part, db, id, key, defs, Doc(document, rev))
    ensures PutsAll(parts + [part], db, key, defs, ids + [id], documents + [document], revs + [rev])
  {
    var p, i, d, r := parts + [part], ids + [id], documents + [document], revs + [rev];
    forall j | 0 <= j < |p| ensures PutsOne(p[j], db, i[j], key, defs, Doc(d[j], r[j])) {
      if j < |parts| { assert PutsOne(parts[j], db, ids[j], key, defs, Doc(documents[j], revs[j])); }
    }
  }
}

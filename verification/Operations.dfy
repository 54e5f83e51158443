/**
 The operations as single steps on the store: when each is refused, and what it leaves behind. What the engine commits for an operation is tied to this by `CommitRepresents`.
 */
module Operations {
  import opened Bytes
  import opened Picks
  import opened Json
  import opened KeyValue
  import opened Names
  import opened Catalog
  import opened Definitions
  import opened Sizes

  /** The If-Match condition of a request. */
  datatype MatchCond = MatchCond(isSet: bool, wildcard: bool, revision: Revision)

  predicate MatchRevision(cond: MatchCond, current: Revision) {
    !cond.isSet || cond.wildcard || cond.revision == current
  }

  /**
   The writing operations, and any that only read: a query or an export checks the database and its definitions
   and takes a snapshot, under the same read lock.
   */
  datatype Op =
    | CreateDb(db: bytes, defs: seq<IndexDef>)
    | DeleteDb(db: bytes)
    | CreateDoc(db: bytes, id: bytes, json: Json)
    | ImportDocs(db: bytes, documents: seq<Json>)
    | ReplaceDoc(db: bytes, id: bytes, json: Json, cond: MatchCond)
    | PatchDoc(db: bytes, id: bytes, cond: MatchCond, patch: Json -> Option<Json>)
    | DeleteDoc(db: bytes, id: bytes, cond: MatchCond)
    | Observe(db: bytes)

  /** What a request has been checked for before it reaches the store. */
  ghost predicate WellFormed(op: Op) {
    && ValidName(op.db)
    && (op.CreateDoc? || op.ReplaceDoc? || op.PatchDoc? || op.DeleteDoc? ==> ValidId(op.id))
    && (op.CreateDoc? || op.ReplaceDoc? ==> op.json.Obj?)
    && (op.ImportDocs? ==> |op.documents| <= MAX_INT && forall i :: 0 <= i < |op.documents| ==> op.documents[i].Obj?)
    && (op.PatchDoc? ==> forall j :: op.patch(j).Some? ==> op.patch(j).value.Obj?)
  }

  /** What an operation draws at random. */
  datatype Choice = Choice(key: SecretKey, rev: Revision, ids: seq<bytes>, revs: seq<Revision>)

  datatype Error =
    | DbExists | DbNotFound | DocExists | DocNotFound | PreconditionFailed
    | InvalidIndex | InvalidIndexValue | InvalidPatch
    | Unavailable | CorruptData | BulkLimit

  datatype Outcome = Done | Refused(error: Error)

  /** Whether an operation writes the database as a whole, or documents in it. */
  predicate WholeDatabase(op: Op) {
    op.CreateDb? || op.DeleteDb?
  }

  // ---------------------------------------------------------------------------
  // The operations on the store

  /** The reason to leave the current document alone. */
  function JudgeCurrent(current: Option<Doc>, cond: MatchCond): Option<Error> {
    if current.None? then Some(DocNotFound)
    else if !MatchRevision(cond, current.value.rev) then Some(PreconditionFailed)
    else None
  }

  /** The reason not to store the new document. */
  function JudgeNew(json: Option<Json>, defs: Defs): Option<Error> {
    if json.None? then Some(InvalidPatch)
    else if !Accepts(json.value, defs) then Some(InvalidIndexValue)
    else None
  }

  /** The new document of an operation that changes one. */
  function NewJson(op: Op, current: Json): Option<Json>
    requires op.ReplaceDoc? || op.PatchDoc?
  {
    if op.ReplaceDoc? then Some(op.json) else op.patch(current)
  }

  function JudgeChange(op: Op, a: Store): Option<Error>
    requires op.ReplaceDoc? || op.PatchDoc?
  {
    var current := Find(a, op.db, op.id);
    var e := JudgeCurrent(current, op.cond);
    if e.Some? then e else JudgeNew(NewJson(op, current.value.json), a[op.db].defs)
  }

  /** The first reason to refuse the operation, in the order the checks are made. */
  function Judge(op: Op, a: Store): Option<Error> {
    match op
    case CreateDb(db, defs) => if !ValidList(defs) then Some(InvalidIndex) else if db in a then Some(DbExists) else None
    case DeleteDb(db) => if db !in a then Some(DbNotFound) else None
    case CreateDoc(db, id, json) =>
      if db !in a then Some(DbNotFound)
      else if id in a[db].docs then Some(DocExists)
      else if !Accepts(json, a[db].defs) then Some(InvalidIndexValue)
      else None
    case ImportDocs(db, documents) =>
      if db !in a then Some(DbNotFound)
      else if exists i :: 0 <= i < |documents| && !Accepts(documents[i], a[db].defs) then Some(InvalidIndexValue)
      else None
    case Observe(db) => if db !in a then Some(DbNotFound) else None
    case DeleteDoc(db, id, cond) => JudgeCurrent(Find(a, db, id), cond)
    case ReplaceDoc(_, _, _, _) => JudgeChange(op, a)
    case PatchDoc(_, _, _, _) => JudgeChange(op, a)
  }

  /** The draws an operation may act on: a revision unlike the current one, identifiers that are free. */
  predicate Permitted(op: Op, a: Store, c: Choice) {
    match op
    case ImportDocs(db, documents) =>
      && |c.ids| == |documents| && |c.revs| == |documents| && Distinct(c.ids)
      && forall i :: 0 <= i < |c.ids| ==> ValidId(c.ids[i]) && Find(a, db, c.ids[i]).None?
    case ReplaceDoc(db, id, _, _) => Find(a, db, id).Some? ==> c.rev != Find(a, db, id).value.rev
    case PatchDoc(db, id, _, _) => Find(a, db, id).Some? ==> c.rev != Find(a, db, id).value.rev
    case _ => true
  }

  /** Documents put one after the other. */
  function PutAll(a: Store, db: bytes, ids: seq<bytes>, documents: seq<Json>, revs: seq<Revision>): (b: Store)
    requires db in a && |ids| == |documents| == |revs|
    ensures db in b
    decreases |ids|
  {
    if ids == [] then a
    else
      var n := |ids| - 1;
      WithDoc(PutAll(a, db, ids[..n], documents[..n], revs[..n]), db, ids[n], Some(Doc(documents[n], revs[n])))
  }

  /** The store after an operation that is not refused. */
  function Post(op: Op, a: Store, c: Choice): Store
    requires Judge(op, a).None? && Permitted(op, a, c)
  {
    match op
    case CreateDb(db, defs) => a[db := Database(c.key, DefMap(defs), map[])]
    case DeleteDb(db) => a - {db}
    case CreateDoc(db, id, json) => WithDoc(a, db, id, Some(Doc(json, c.rev)))
    case ImportDocs(db, documents) => PutAll(a, db, c.ids, documents, c.revs)
    case Observe(_) => a
    case DeleteDoc(db, id, _) => WithDoc(a, db, id, None)
    case ReplaceDoc(_, _, _, _) => Changed(op, a, c)
    case PatchDoc(_, _, _, _) => Changed(op, a, c)
  }

  function Changed(op: Op, a: Store, c: Choice): Store
    requires (op.ReplaceDoc? || op.PatchDoc?) && JudgeChange(op, a).None?
  {
    WithDoc(a, op.db, op.id, Some(Doc(NewJson(op, Find(a, op.db, op.id).value.json).value, c.rev)))
  }

  /** The operation as one atomic step. */
  predicate Atomic(op: Op, a: Store, c: Choice, b: Store) {
    Judge(op, a).None? && Permitted(op, a, c) && b == Post(op, a, c)
  }

  // ---------------------------------------------------------------------------
  // What changes and what does not

  /** The identifiers an operation on documents writes. */
  function Touched(op: Op, c: Choice): set<bytes> {
    match op
    case ImportDocs(_, _) => set id | id in c.ids
    case CreateDb(_, _) => {}
    case DeleteDb(_) => {}
    case Observe(_) => {}
    case _ => {op.id}
  }

  lemma {:induction false} PutAllFrame(a: Store, db: bytes, ids: seq<bytes>, documents: seq<Json>, revs: seq<Revision>)
    requires db in a && |ids| == |documents| == |revs|
    ensures PutAll(a, db, ids, documents, revs).Keys == a.Keys
    ensures forall x :: x in a && x != db ==> PutAll(a, db, ids, documents, revs)[x] == a[x]
    ensures PutAll(a, db, ids, documents, revs)[db].key == a[db].key
    ensures PutAll(a, db, ids, documents, revs)[db].defs == a[db].defs
    ensures forall id :: id !in ids ==> Find(PutAll(a, db, ids, documents, revs), db, id) == Find(a, db, id)
    decreases |ids|
  {
    if ids != [] {
      var n := |ids| - 1;
      PutAllFrame(a, db, ids[..n], documents[..n], revs[..n]);
      var b := PutAll(a, db, ids[..n], documents[..n], revs[..n]);
      var doc := Some(Doc(documents[n], revs[n]));
      forall id | id !in ids ensures Find(WithDoc(b, db, ids[n], doc), db, id) == Find(a, db, id) {
        assert ids[n] in ids;
        assert id !in ids[..n];
        FindUpdated(b, db, ids[n], doc, db, id);
      }
    }
  }

  /** Bulk import adds exactly one new document for each input, under its identifier. */
  lemma {:induction false} PutAllAdds(a: Store, db: bytes, ids: seq<bytes>, documents: seq<Json>, revs: seq<Revision>)
    requires db in a && |ids| == |documents| == |revs| && Distinct(ids)
    ensures forall i :: 0 <= i < |ids| ==>
              Find(PutAll(a, db, ids, documents, revs), db, ids[i]) == Some(Doc(documents[i], revs[i]))
    decreases |ids|
  {
    if ids != [] {
      var n := |ids| - 1;
      var b := PutAll(a, db, ids[..n], documents[..n], revs[..n]);
      PutAllAdds(a, db, ids[..n], documents[..n], revs[..n]);
      forall i | 0 <= i < |ids|
        ensures Find(PutAll(a, db, ids, documents, revs), db, ids[i]) == Some(Doc(documents[i], revs[i]))
      {
        FindUpdated(b, db, ids[n], Some(Doc(documents[n], revs[n])), db, ids[i]);
        assert i < n ==> ids[..n][i] == ids[i];
      }
    }
  }

  /** Operations on documents leave other databases, the key, the definitions and other documents alone. */
  lemma PostFrame(op: Op, a: Store, c: Choice)
    requires Judge(op, a).None? && Permitted(op, a, c) && !WholeDatabase(op)
    ensures op.db in a && Post(op, a, c).Keys == a.Keys
    ensures forall x :: x in a && x != op.db ==> Post(op, a, c)[x] == a[x]
    ensures Post(op, a, c)[op.db].key == a[op.db].key && Post(op, a, c)[op.db].defs == a[op.db].defs
    ensures forall id :: id !in Touched(op, c) ==> Find(Post(op, a, c), op.db, id) == Find(a, op.db, id)
  {
    if op.ImportDocs? {
      PutAllFrame(a, op.db, c.ids, op.documents, c.revs);
    }
  }

  /** Operations on a whole database leave the others alone. */
  lemma PostFrameWhole(op: Op, a: Store, c: Choice)
    requires Judge(op, a).None? && Permitted(op, a, c) && WholeDatabase(op)
    ensures forall x :: x != op.db ==> (x in Post(op, a, c) <==> x in a)
    ensures forall x :: x != op.db && x in a ==> Post(op, a, c)[x] == a[x]
  {
  }

  // ---------------------------------------------------------------------------
  // What the engine commits

  /** What an operation has read: the database's key and definitions, and documents. */
  datatype View = View(key: SecretKey, defs: Defs, docs: map<bytes, Option<Doc>>)

  function Flatten(parts: seq<Batch>): Batch {
    if parts == [] then [] else Flatten(parts[..|parts| - 1]) + parts[|parts| - 1]
  }

  /** The parts of an import's batch: each puts one document. */
  ghost predicate PutsAll(parts: seq<Batch>, db: bytes, key: SecretKey, defs: Defs,
                          ids: seq<bytes>, documents: seq<Json>, revs: seq<Revision>)
  {
    && |parts| == |ids| == |documents| == |revs|
    && forall i :: 0 <= i < |parts| ==> PutsOne(parts[i], db, ids[i], key, defs, Doc(documents[i], revs[i]))
  }

  ghost predicate PutsOne(batch: Batch, db: bytes, id: bytes, key: SecretKey, defs: Defs, doc: Doc) {
    UpdatesDoc(batch, db, id, key, map[], Entries(doc.json, defs), Some(doc))
  }

  /** The batch an operation commits, given what it has read. */
  ghost predicate BatchFor(op: Op, v: View, c: Choice, batch: Batch) {
    match op
    case CreateDb(db, defs) => CreatesDb(batch, db, c.key, DefMap(defs))
    case DeleteDb(db) => DeletesDb(batch, db)
    case CreateDoc(db, id, json) => PutsOne(batch, db, id, v.key, v.defs, Doc(json, c.rev))
    case ImportDocs(db, documents) =>
      exists parts :: batch == Flatten(parts) && PutsAll(parts, db, v.key, v.defs, c.ids, documents, c.revs)
    case DeleteDoc(db, id, _) =>
      && id in v.docs && v.docs[id].Some?
      && UpdatesDoc(batch, db, id, v.key, Entries(v.docs[id].value.json, v.defs), map[], None)
    case Observe(_) => batch == []
    case ReplaceDoc(_, _, _, _) => ChangeBatchFor(op, v, c, batch)
    case PatchDoc(_, _, _, _) => ChangeBatchFor(op, v, c, batch)
  }

  ghost predicate ChangeBatchFor(op: Op, v: View, c: Choice, batch: Batch)
    requires op.ReplaceDoc? || op.PatchDoc?
  {
    && op.id in v.docs && v.docs[op.id].Some?
    && var current := v.docs[op.id].value;
       var json := NewJson(op, current.json);
       json.Some? && UpdatesDoc(batch, op.db, op.id, v.key, Entries(current.json, v.defs), Entries(json.value, v.defs),
                                Some(Doc(json.value, c.rev)))
  }

  /** The view agrees with the store. */
  predicate Agrees(v: View, a: Store, db: bytes) {
    && db in a && v.key == a[db].key && v.defs == a[db].defs
    && forall id :: id in v.docs ==> v.docs[id] == Find(a, db, id)
  }

  lemma {:induction false} ImportRepresents(kv: Kv<Record>, a: Store, db: bytes, parts: seq<Batch>,
                           ids: seq<bytes>, documents: seq<Json>, revs: seq<Revision>)
    requires Represents(kv, a) && db in a && AllFree(a, db, ids) && AllStorable(documents, a[db].defs)
    requires PutsAll(parts, db, a[db].key, a[db].defs, ids, documents, revs)
    ensures Represents(Apply(kv, Flatten(parts)), PutAll(a, db, ids, documents, revs))
    decreases |ids|
  {
    if ids != [] {
      var n := |ids| - 1;
      var b := PutAll(a, db, ids[..n], documents[..n], revs[..n]);
      AllButLast(a, db, parts, a[db].key, a[db].defs, ids, documents, revs);
      ImportRepresents(kv, a, db, parts[..n], ids[..n], documents[..n], revs[..n]);
      ApplyConcat(kv, Flatten(parts[..n]), parts[n]);
      PutAllFrame(a, db, ids[..n], documents[..n], revs[..n]);
      ImportOne(Apply(kv, Flatten(parts[..n])), b, db, ids[n], a[db].key, a[db].defs, Doc(documents[n], revs[n]), parts[n]);
    }
  }

  /** Identifiers no document has yet. */
  predicate AllFree(a: Store, db: bytes, ids: seq<bytes>) {
    Distinct(ids) && forall i :: 0 <= i < |ids| ==> ValidId(ids[i]) && Find(a, db, ids[i]).None?
  }

  predicate AllStorable(documents: seq<Json>, defs: Defs) {
    forall i :: 0 <= i < |documents| ==> documents[i].Obj? && Accepts(documents[i], defs)
  }

  lemma AllButLast(a: Store, db: bytes, parts: seq<Batch>, key: SecretKey, defs: Defs,
                   ids: seq<bytes>, documents: seq<Json>, revs: seq<Revision>)
    requires ids != [] && AllFree(a, db, ids) && AllStorable(documents, defs) && PutsAll(parts, db, key, defs, ids, documents, revs)
    ensures var n := |ids| - 1;
            && AllFree(a, db, ids[..n]) && AllStorable(documents[..n], defs)
            && PutsAll(parts[..n], db, key, defs, ids[..n], documents[..n], revs[..n])
            && ids[n] !in ids[..n] && ValidId(ids[n]) && Find(a, db, ids[n]).None?
            && documents[n].Obj? && Accepts(documents[n], defs)
            && PutsOne(parts[n], db, ids[n], key, defs, Doc(documents[n], revs[n]))
  {
    var n := |ids| - 1;
    assert PutsOne(parts[n], db, ids[n], key, defs, Doc(documents[n], revs[n]));
    PutsButLast(parts, db, key, defs, ids, documents, revs);
  }

  lemma PutsButLast(parts: seq<Batch>, db: bytes, key: SecretKey, defs: Defs,
                    ids: seq<bytes>, documents: seq<Json>, revs: seq<Revision>)
    requires ids != [] && PutsAll(parts, db, key, defs, ids, documents, revs)
    ensures var n := |ids| - 1; PutsAll(parts[..n], db, key, defs, ids[..n], documents[..n], revs[..n])
  {
    var n := |ids| - 1;
    var p, i', d, r := parts[..n], ids[..n], documents[..n], revs[..n];
    forall i | 0 <= i < |p| ensures PutsOne(p[i], db, i'[i], key, defs, Doc(d[i], r[i])) {
      assert PutsOne(parts[i], db, ids[i], key, defs, Doc(documents[i], revs[i]));
    }
  }

  lemma ImportOne(kv: Kv<Record>, b: Store, db: bytes, id: bytes, key: SecretKey, defs: Defs, doc: Doc, batch: Batch)
    requires Represents(kv, b) && db in b && b[db].key == key && b[db].defs == defs && Find(b, db, id).None?
    requires ValidId(id) && doc.json.Obj? && Accepts(doc.json, defs) && PutsOne(batch, db, id, key, defs, doc)
    ensures Represents(Apply(kv, batch), WithDoc(b, db, id, Some(doc)))
  {
    UpdateRepresents(kv, b, db, id, Some(doc), batch);
  }

  /** Committing the batch of an operation takes one representation to the next. */
  lemma CommitRepresents(kv: Kv<Record>, a: Store, op: Op, v: View, c: Choice, batch: Batch)
    requires Represents(kv, a) && WellFormed(op) && Judge(op, a).None? && Permitted(op, a, c)
    requires BatchFor(op, v, c, batch) && (!WholeDatabase(op) ==> Agrees(v, a, op.db))
    ensures Represents(Apply(kv, batch), Post(op, a, c))
  {
    match op {
      case CreateDb(db, defs) =>
        ValidListMap(defs);
        CreateRepresents(kv, a, db, c.key, DefMap(defs), batch);
      case DeleteDb(db) =>
        DeleteRepresents(kv, a, db, batch);
      case CreateDoc(db, id, json) =>
        ImportOne(kv, a, db, id, v.key, v.defs, Doc(json, c.rev), batch);
      case ImportDocs(db, documents) =>
        ImportCommits(kv, a, op, v, c, batch);
      case Observe(_) =>
        assert Apply(kv, batch) == kv;
      case DeleteDoc(db, id, _) =>
        RemoveRepresents(kv, a, op, v, batch);
      case ReplaceDoc(_, _, _, _) =>
        ChangeRepresents(kv, a, op, v, c, batch);
      case PatchDoc(_, _, _, _) =>
        ChangeRepresents(kv, a, op, v, c, batch);
    }
  }

  lemma ImportCommits(kv: Kv<Record>, a: Store, op: Op, v: View, c: Choice, batch: Batch)
    requires Represents(kv, a) && WellFormed(op) && op.ImportDocs? && Judge(op, a).None? && Permitted(op, a, c)
    requires BatchFor(op, v, c, batch) && Agrees(v, a, op.db)
    ensures Represents(Apply(kv, batch), PutAll(a, op.db, c.ids, op.documents, c.revs))
  {
    var parts :| batch == Flatten(parts) && PutsAll(parts, op.db, v.key, v.defs, c.ids, op.documents, c.revs);
    ImportRepresents(kv, a, op.db, parts, c.ids, op.documents, c.revs);
  }

  lemma RemoveRepresents(kv: Kv<Record>, a: Store, op: Op, v: View, batch: Batch)
    requires Represents(kv, a) && op.DeleteDoc? && ValidId(op.id) && Find(a, op.db, op.id).Some? && Agrees(v, a, op.db)
    requires op.id in v.docs && v.docs[op.id].Some?
    requires UpdatesDoc(batch, op.db, op.id, v.key, Entries(v.docs[op.id].value.json, v.defs), map[], None)
    ensures Represents(Apply(kv, batch), WithDoc(a, op.db, op.id, None))
  {
    UpdateRepresents(kv, a, op.db, op.id, None, batch);
  }

  lemma ChangeRepresents(kv: Kv<Record>, a: Store, op: Op, v: View, c: Choice, batch: Batch)
    requires Represents(kv, a) && WellFormed(op) && (op.ReplaceDoc? || op.PatchDoc?) && JudgeChange(op, a).None?
    requires ChangeBatchFor(op, v, c, batch) && Agrees(v, a, op.db)
    ensures Represents(Apply(kv, batch), Changed(op, a, c))
  {
    var json := NewJson(op, Find(a, op.db, op.id).value.json).value;
    UpdateRepresents(kv, a, op.db, op.id, Some(Doc(json, c.rev)), batch);
  }

  // ---------------------------------------------------------------------------
  // What each operation does and when it is refused

  /** An operation on one document leaves in its place what it was given, or nothing. */
  lemma DocumentWritten(op: Op, a: Store, c: Choice, b: Store)
    requires Atomic(op, a, c, b)
    ensures op.CreateDoc? ==> Find(a, op.db, op.id).None? && Find(b, op.db, op.id) == Some(Doc(op.json, c.rev))
    ensures op.ReplaceDoc? ==>
              && Find(a, op.db, op.id).Some? && c.rev != Find(a, op.db, op.id).value.rev
              && Find(b, op.db, op.id) == Some(Doc(op.json, c.rev))
    ensures op.PatchDoc? ==>
              && Find(a, op.db, op.id).Some? && c.rev != Find(a, op.db, op.id).value.rev
              && var patched := op.patch(Find(a, op.db, op.id).value.json);
                 patched.Some? && Find(b, op.db, op.id) == Some(Doc(patched.value, c.rev))
    ensures op.DeleteDoc? ==> Find(a, op.db, op.id).Some? && Find(b, op.db, op.id).None?
  {
  }

  /** A new database has the definitions it was given, each under its name, and no documents; a deleted one is gone. */
  lemma DatabaseWritten(op: Op, a: Store, c: Choice, b: Store)
    requires Atomic(op, a, c, b)
    ensures op.CreateDb? ==>
              && op.db !in a && op.db in b && b[op.db].key == c.key && b[op.db].docs == map[]
              && |b[op.db].defs| == |op.defs|
              && forall i :: 0 <= i < |op.defs| ==> FindDef(b, op.db, op.defs[i].name) == Some(op.defs[i].path)
    ensures op.DeleteDb? ==> op.db in a && op.db !in b
    ensures op.Observe? ==> op.db in a && b == a
  {
    if op.CreateDb? { DefMapExact(op.defs); }
  }

  /** A condition of the request that the revision of the document does not meet. */
  predicate Unmet(cond: MatchCond, rev: Revision) {
    cond.isSet && !cond.wildcard && cond.revision != rev
  }

  /** The documents an operation is about to store. */
  predicate Brings(op: Op, a: Store, json: Json) {
    match op
    case CreateDoc(db, id, given) => Find(a, db, id).None? && json == given
    case ImportDocs(_, documents) => json in documents
    case ReplaceDoc(db, id, given, cond) => Find(a, db, id).Some? && !Unmet(cond, Find(a, db, id).value.rev) && json == given
    case PatchDoc(db, id, cond, patch) =>
      Find(a, db, id).Some? && !Unmet(cond, Find(a, db, id).value.rev) && patch(Find(a, db, id).value.json) == Some(json)
    case _ => false
  }

  /** When each error is the answer. */
  ghost predicate Reason(op: Op, a: Store, e: Error) {
    match e
    case InvalidIndex => op.CreateDb? && !ValidList(op.defs)
    case DbExists => op.CreateDb? && ValidList(op.defs) && op.db in a
    case DbNotFound => (op.DeleteDb? || op.CreateDoc? || op.ImportDocs? || op.Observe?) && op.db !in a
    case DocExists => op.CreateDoc? && Find(a, op.db, op.id).Some?
    case DocNotFound => (op.ReplaceDoc? || op.PatchDoc? || op.DeleteDoc?) && Find(a, op.db, op.id).None?
    case PreconditionFailed =>
      && (op.ReplaceDoc? || op.PatchDoc? || op.DeleteDoc?)
      && Find(a, op.db, op.id).Some? && Unmet(op.cond, Find(a, op.db, op.id).value.rev)
    case InvalidPatch =>
      && op.PatchDoc? && Find(a, op.db, op.id).Some? && !Unmet(op.cond, Find(a, op.db, op.id).value.rev)
      && op.patch(Find(a, op.db, op.id).value.json).None?
    case InvalidIndexValue => op.db in a && exists json :: Brings(op, a, json) && Unfit(json, a[op.db].defs)
    case _ => false
  }

  /** An operation is refused exactly for its reason. */
  lemma RefusedExactly(op: Op, a: Store, e: Error)
    ensures Judge(op, a) == Some(e) <==> Reason(op, a, e)
  {
    if op.db in a && (op.CreateDoc? || op.ImportDocs? || op.ReplaceDoc? || op.PatchDoc?) { UnfitRefused(op, a); }
  }

  lemma UnfitRefused(op: Op, a: Store)
    requires op.db in a && (op.CreateDoc? || op.ImportDocs? || op.ReplaceDoc? || op.PatchDoc?)
    ensures Judge(op, a) == Some(InvalidIndexValue) <==> exists json :: Brings(op, a, json) && Unfit(json, a[op.db].defs)
  {
    forall json ensures Accepts(json, a[op.db].defs) <==> !Unfit(json, a[op.db].defs) {
      IndexedMeans(json, a[op.db].defs);
    }
    if op.CreateDoc? || op.ReplaceDoc? {
      assert forall json :: Brings(op, a, json) ==> json == op.json;
      assert Judge(op, a) == Some(InvalidIndexValue) ==> Brings(op, a, op.json);
    } else if op.PatchDoc? {
      if Judge(op, a) == Some(InvalidIndexValue) { assert Brings(op, a, op.patch(Find(a, op.db, op.id).value.json).value); }
    } else {
      forall i | 0 <= i < |op.documents| ensures Brings(op, a, op.documents[i]) {}
    }
  }
}

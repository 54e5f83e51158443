/**
 What holds over whole runs of the machine: in every interleaving each state represents a store, the index is
 what the documents make it, some thread can go on, and conditional writes do not overtake one another.
 */
module Runs {
  import opened Bytes
  import opened Picks
  import opened Json
  import opened KeyValue
  import opened Names
  import opened Catalog
  import opened Operations
  import opened Locking
  import opened Machine
  import opened Refinement
  import Keys

  /** A run from a store at rest: `events[i]`, of thread `tids[i]`, leads from `states[i]` to the next. */
  ghost predicate Run(states: seq<State>, tids: seq<Tid>, events: seq<Event>, a: Store) {
    && |states| == |events| + 1 && |tids| == |events|
    && states[0].threads == map[] && Represents(states[0].kv, a)
    && forall i :: 0 <= i < |events| ==> Step(states[i], tids[i], events[i], states[i + 1])
  }

  /** The events, one at a time and each in one go. */
  ghost predicate History(stores: seq<Store>, events: seq<Event>) {
    && |stores| == |events| + 1
    && forall i :: 0 <= i < |events| ==> Follows(events[i], stores[i], stores[i + 1])
  }

  lemma RestIsGood(s: State, a: Store)
    requires s.threads == map[] && Represents(s.kv, a)
    ensures Good(s, a)
  {
    assert ClaimsOf(s).Keys == {};
  }

  /** Every interleaving of the writing operations has the effect of its commits in order, each a single step. */
  lemma {:induction false} RunRefines(states: seq<State>, tids: seq<Tid>, events: seq<Event>, a: Store) returns (stores: seq<Store>)
    requires Run(states, tids, events, a)
    ensures Traces(states, stores, events) && stores[0] == a
    decreases |events|
  {
    if events == [] {
      RestIsGood(states[0], a);
      stores := [a];
    } else {
      var n := |events| - 1;
      RunPrefix(states, tids, events, a);
      stores := RunRefines(states[..n + 1], tids[..n], events[..n], a);
      LastStep(states, tids, events, a);
      stores := TraceNext(states, stores, events, tids[n]);
    }
  }

  /** The stores the states of a run represent, one after the other. */
  ghost predicate Traces(states: seq<State>, stores: seq<Store>, events: seq<Event>) {
    && History(stores, events) && |states| == |stores|
    && forall i :: 0 <= i < |states| ==> Good(states[i], stores[i])
  }

  lemma TraceNext(states: seq<State>, stores: seq<Store>, events: seq<Event>, t: Tid) returns (longer: seq<Store>)
    requires events != [] && |states| == |events| + 1
    requires var n := |events| - 1; Traces(states[..n + 1], stores, events[..n]) && Step(states[n], t, events[n], states[n + 1])
    ensures Traces(states, longer, events) && longer[0] == stores[0]
  {
    var n := |events| - 1;
    assert Good(states[..n + 1][n], stores[n]);
    var b := NextStore(states[n], stores[n], t, events[n], states[n + 1]);
    HistoryNext(stores, events, b);
    GoodNext(states, stores, b);
    longer := stores + [b];
  }

  lemma NextStore(s: State, a: Store, t: Tid, e: Event, s': State) returns (b: Store)
    requires Good(s, a) && Step(s, t, e, s')
    ensures Follows(e, a, b) && Good(s', b)
  {
    StepRefines(s, a, t, e, s');
    b := After(e, a);
  }

  lemma LastStep(states: seq<State>, tids: seq<Tid>, events: seq<Event>, a: Store)
    requires Run(states, tids, events, a) && events != []
    ensures var n := |events| - 1; Step(states[n], tids[n], events[n], states[n + 1])
  {
  }

  lemma RunPrefix(states: seq<State>, tids: seq<Tid>, events: seq<Event>, a: Store)
    requires Run(states, tids, events, a) && events != []
    ensures Run(states[..|events|], tids[..|events| - 1], events[..|events| - 1], a)
  {
    var n := |events| - 1;
    var p, q, r := states[..n + 1], tids[..n], events[..n];
    forall i | 0 <= i < |r| ensures Step(p[i], q[i], r[i], p[i + 1]) {
      assert Step(states[i], tids[i], events[i], states[i + 1]);
    }
  }

  lemma HistoryNext(stores: seq<Store>, events: seq<Event>, b: Store)
    requires events != [] && History(stores, events[..|events| - 1]) && Follows(events[|events| - 1], stores[|stores| - 1], b)
    ensures History(stores + [b], events)
  {
    var all, n := stores + [b], |events| - 1;
    forall i | 0 <= i < |events| ensures Follows(events[i], all[i], all[i + 1]) {
      if i < n { assert Follows(events[..n][i], stores[i], stores[i + 1]); }
    }
  }

  lemma GoodNext(states: seq<State>, stores: seq<Store>, b: Store)
    requires |states| == |stores| + 1 && Good(states[|stores|], b)
    requires forall i :: 0 <= i < |stores| ==> Good(states[..|stores|][i], stores[i])
    ensures forall i :: 0 <= i < |states| ==> Good(states[i], (stores + [b])[i])
  {
    var all := stores + [b];
    forall i | 0 <= i < |states| ensures Good(states[i], all[i]) {
      if i < |stores| { assert states[..|stores|][i] == states[i]; }
    }
  }

  // ---------------------------------------------------------------------------
  // The index

  /** The path a definition in the key space gives an index. */
  function StoredPath(kv: Kv<Record>, db: bytes, index: bytes): Option<bytes> {
    var r := Get(kv, Keys.Encode(Keys.DefKey(db, index)));
    if r.Some? && r.value.DefRecord? then Some(r.value.path) else None
  }

  /** The document in a place of the key space. */
  function StoredJson(kv: Kv<Record>, db: bytes, id: bytes): Option<Json> {
    var r := Get(kv, Keys.Encode(Keys.DocKey(db, id)));
    if r.Some? && r.value.DocRecord? then Some(r.value.doc.json) else None
  }

  /** The index holds exactly the entries that the stored documents and definitions call for. */
  ghost predicate IndexExact(kv: Kv<Record>) {
    forall db, index, value, id :: Keys.Valid(Keys.EntryKey(db, index, value, id)) ==>
                                     (Keys.Encode(Keys.EntryKey(db, index, value, id)) in kv <==>
                                      && StoredPath(kv, db, index).Some? && StoredJson(kv, db, id).Some?
                                      && IndexedValue(StoredJson(kv, db, id).value, StoredPath(kv, db, index).value) == Present(value))
  }

  /** Nothing is stored but records of databases that exist. */
  ghost predicate NoStrays(kv: Kv<Record>) {
    forall b :: b in kv ==>
                  exists k :: Keys.Valid(k) && b == Keys.Encode(k) && Keys.Encode(Keys.DbKey(k.db)) in kv
  }

  lemma StoredThere(kv: Kv<Record>, a: Store, db: bytes, index: bytes, id: bytes)
    requires Represents(kv, a) && ValidName(db) && ValidName(index) && ValidId(id)
    ensures StoredPath(kv, db, index) == FindDef(a, db, index)
    ensures StoredJson(kv, db, id) == match Find(a, db, id) case None => None case Some(doc) => Some(doc.json)
  {
    assert Keys.Valid(Keys.DefKey(db, index)) && Keys.Valid(Keys.DocKey(db, id));
    assert Get(kv, Keys.Encode(Keys.DefKey(db, index))) == Expected(a, Keys.DefKey(db, index));
    assert Get(kv, Keys.Encode(Keys.DocKey(db, id))) == Expected(a, Keys.DocKey(db, id));
  }

  lemma IndexIsExact(kv: Kv<Record>, a: Store)
    requires Represents(kv, a)
    ensures IndexExact(kv)
  {
    forall db, index, value, id | Keys.Valid(Keys.EntryKey(db, index, value, id))
      ensures Keys.Encode(Keys.EntryKey(db, index, value, id)) in kv <==>
              && StoredPath(kv, db, index).Some? && StoredJson(kv, db, id).Some?
              && IndexedValue(StoredJson(kv, db, id).value, StoredPath(kv, db, index).value) == Present(value)
    {
      EntryExact(kv, a, db, index, value, id);
    }
  }

  lemma EntryExact(kv: Kv<Record>, a: Store, db: bytes, index: bytes, value: bytes, id: bytes)
    requires Represents(kv, a) && Keys.Valid(Keys.EntryKey(db, index, value, id))
    ensures Keys.Encode(Keys.EntryKey(db, index, value, id)) in kv <==>
            && StoredPath(kv, db, index).Some? && StoredJson(kv, db, id).Some?
            && IndexedValue(StoredJson(kv, db, id).value, StoredPath(kv, db, index).value) == Present(value)
  {
    var k := Keys.EntryKey(db, index, value, id);
    assert Get(kv, Keys.Encode(k)) == Expected(a, k);
    StoredThere(kv, a, db, index, id);
    EntryThere(a, db, index, value, id);
  }

  lemma EntryThere(a: Store, db: bytes, index: bytes, value: bytes, id: bytes)
    ensures HasEntry(a, db, index, value, id) <==>
            && FindDef(a, db, index).Some? && Find(a, db, id).Some?
            && IndexedValue(Find(a, db, id).value.json, FindDef(a, db, index).value) == Present(value)
  {
  }

  lemma NothingStray(kv: Kv<Record>, a: Store)
    requires Represents(kv, a)
    ensures NoStrays(kv)
  {
    forall b | b in kv ensures exists k :: Keys.Valid(k) && b == Keys.Encode(k) && Keys.Encode(Keys.DbKey(k.db)) in kv {
      assert IsKey(b);
      var k :| Keys.Valid(k) && b == Keys.Encode(k);
      ExistingDatabase(kv, a, k);
    }
  }

  lemma ExistingDatabase(kv: Kv<Record>, a: Store, k: Keys.Key)
    requires Represents(kv, a) && Keys.Valid(k) && Keys.Encode(k) in kv
    ensures Keys.Encode(Keys.DbKey(k.db)) in kv
  {
    assert Get(kv, Keys.Encode(k)) == Expected(a, k);
    assert k.db in a;
    assert Keys.Valid(Keys.DbKey(k.db));
    assert Get(kv, Keys.Encode(Keys.DbKey(k.db))) == Expected(a, Keys.DbKey(k.db));
  }

  /** In every state of every interleaving the index is what recomputing it would give, and nothing is left over. */
  lemma IndexAlwaysExact(states: seq<State>, tids: seq<Tid>, events: seq<Event>, a: Store)
    requires Run(states, tids, events, a)
    ensures forall i :: 0 <= i < |states| ==> IndexExact(states[i].kv) && NoStrays(states[i].kv)
  {
    var stores := RunRefines(states, tids, events, a);
    forall i | 0 <= i < |states| ensures IndexExact(states[i].kv) && NoStrays(states[i].kv) {
      assert Good(states[i], stores[i]);
      IndexIsExact(states[i].kv, stores[i]);
      NothingStray(states[i].kv, stores[i]);
    }
  }

  // ---------------------------------------------------------------------------
  // Conditional updates

  /** A write that goes through only on revision `rev` of a document. */
  predicate Conditioned(op: Op, db: bytes, id: bytes, rev: Revision) {
    && (op.ReplaceDoc? || op.PatchDoc? || op.DeleteDoc?)
    && op.db == db && op.id == id
    && op.cond.isSet && !op.cond.wildcard && op.cond.revision == rev
  }

  predicate AtRevision(a: Store, db: bytes, id: bytes, rev: Revision) {
    Find(a, db, id).Some? && Find(a, db, id).value.rev == rev
  }

  /** A conditioned write finds the revision and leaves another, or none. */
  lemma ConditionedWrite(op: Op, a: Store, c: Choice, b: Store, db: bytes, id: bytes, rev: Revision)
    requires Atomic(op, a, c, b) && Conditioned(op, db, id, rev)
    ensures AtRevision(a, db, id, rev) && !AtRevision(b, db, id, rev)
  {
    var doc := if op.DeleteDoc? then None else Some(Doc(NewJson(op, Find(a, db, id).value.json).value, c.rev));
    FindUpdated(a, db, id, doc, db, id);
  }

  /** Only a write of that very document can bring a revision back. */
  lemma Restores(op: Op, a: Store, c: Choice, b: Store, db: bytes, id: bytes, rev: Revision)
    requires Atomic(op, a, c, b) && !AtRevision(a, db, id, rev) && AtRevision(b, db, id, rev)
    ensures op.db == db && id in Touched(op, c) && !WholeDatabase(op)
  {
    if WholeDatabase(op) {
      WholeRestoresNothing(op, a, c, b, db, id);
    } else {
      PostFrame(op, a, c);
      assert db != op.db ==> Find(b, db, id) == Find(a, db, id);
    }
  }

  lemma WholeRestoresNothing(op: Op, a: Store, c: Choice, b: Store, db: bytes, id: bytes)
    requires Atomic(op, a, c, b) && WholeDatabase(op)
    ensures Find(b, db, id).None? || Find(b, db, id) == Find(a, db, id)
  {
    PostFrameWhole(op, a, c);
  }

  /** The last step before `j` that brought the revision back. */
  lemma {:induction false} Restoration(stores: seq<Store>, i: nat, j: nat, db: bytes, id: bytes, rev: Revision) returns (k: nat)
    requires i < j < |stores| && !AtRevision(stores[i], db, id, rev) && AtRevision(stores[j], db, id, rev)
    ensures i <= k < j && !AtRevision(stores[k], db, id, rev) && AtRevision(stores[k + 1], db, id, rev)
    decreases j - i
  {
    if AtRevision(stores[i + 1], db, id, rev) {
      k := i;
    } else {
      k := Restoration(stores, i + 1, j, db, id, rev);
    }
  }

  /** The event writes the document. */
  predicate WritesDoc(e: Event, db: bytes, id: bytes) {
    e.Committed? && !WholeDatabase(e.op) && e.op.db == db && id in Touched(e.op, e.choice)
  }

  /**
   Of the writes conditioned on one revision at most one succeeds, in any interleaving, unless
   in between another write of the document happens to draw that revision again.
   */
  lemma AtMostOneSucceeds(stores: seq<Store>, events: seq<Event>, i: nat, j: nat, db: bytes, id: bytes, rev: Revision)
    returns (k: nat)
    requires History(stores, events) && i < j < |events|
    requires events[i].Committed? && Conditioned(events[i].op, db, id, rev)
    requires events[j].Committed? && Conditioned(events[j].op, db, id, rev)
    ensures i < k < j && WritesDoc(events[k], db, id)
    ensures !AtRevision(stores[k], db, id, rev) && AtRevision(stores[k + 1], db, id, rev)
  {
    assert Follows(events[i], stores[i], stores[i + 1]) && Follows(events[j], stores[j], stores[j + 1]);
    ConditionedWrite(events[i].op, stores[i], events[i].choice, stores[i + 1], db, id, rev);
    ConditionedWrite(events[j].op, stores[j], events[j].choice, stores[j + 1], db, id, rev);
    k := Restoration(stores, i + 1, j, db, id, rev);
    assert Follows(events[k], stores[k], stores[k + 1]);
    Restores(events[k].op, stores[k], events[k].choice, stores[k + 1], db, id, rev);
  }

  function StoredRevision(kv: Kv<Record>, db: bytes, id: bytes): Option<Revision> {
    var r := Get(kv, Keys.Encode(Keys.DocKey(db, id)));
    if r.Some? && r.value.DocRecord? then Some(r.value.doc.rev) else None
  }

  lemma StoredAtRevision(kv: Kv<Record>, a: Store, db: bytes, id: bytes, rev: Revision)
    requires Represents(kv, a) && ValidName(db) && ValidId(id)
    ensures StoredRevision(kv, db, id) == Some(rev) <==> AtRevision(a, db, id, rev)
  {
    assert Keys.Valid(Keys.DocKey(db, id));
    assert Get(kv, Keys.Encode(Keys.DocKey(db, id))) == Expected(a, Keys.DocKey(db, id));
  }

  /** The same of the machine and what it stores. */
  lemma ConditionalWrites(states: seq<State>, tids: seq<Tid>, events: seq<Event>, a: Store, i: nat, j: nat,
                          db: bytes, id: bytes, rev: Revision) returns (k: nat)
    requires Run(states, tids, events, a) && i < j < |events| && ValidName(db) && ValidId(id)
    requires events[i].Committed? && Conditioned(events[i].op, db, id, rev)
    requires events[j].Committed? && Conditioned(events[j].op, db, id, rev)
    ensures i < k < j && WritesDoc(events[k], db, id)
    ensures StoredRevision(states[k].kv, db, id) != Some(rev) && StoredRevision(states[k + 1].kv, db, id) == Some(rev)
  {
    var stores := RunRefines(states, tids, events, a);
    k := AtMostOneSucceeds(stores, events, i, j, db, id, rev);
    assert Good(states[k], stores[k]) && Good(states[k + 1], stores[k + 1]);
    StoredAtRevision(states[k].kv, stores[k], db, id, rev);
    StoredAtRevision(states[k + 1].kv, stores[k + 1], db, id, rev);
  }

  /** In every state, what a thread has found in a document's place under its locks is what is there. */
  lemma SeenIsStored(states: seq<State>, tids: seq<Tid>, events: seq<Event>, a: Store, i: nat, t: Tid, id: bytes)
    requires Run(states, tids, events, a) && i < |states| && t in states[i].threads && id in states[i].threads[t].seen.docs && ValidId(id)
    ensures var th := states[i].threads[t];
            var place := Get(states[i].kv, Keys.Encode(Keys.DocKey(th.op.db, id)));
            match th.seen.docs[id]
            case Free => place.None?
            case Occupied => place.Some?
            case Holding(doc) => place.Some? && place.value.DocRecord? && place.value.doc == doc
  {
    var stores := RunRefines(states, tids, events, a);
    assert Good(states[i], stores[i]);
    var th := states[i].threads[t];
    SeenThere(th, stores[i], id);
    StoredAsSeen(states[i].kv, stores[i], th.op.db, id, th.seen.docs[id]);
  }

  lemma SeenThere(th: Thread, a: Store, id: bytes)
    requires Sound(th, a) && id in th.seen.docs
    ensures ValidName(th.op.db) && Sees(th.seen.docs[id], Find(a, th.op.db, id))
  {
  }

  lemma StoredAsSeen(kv: Kv<Record>, a: Store, db: bytes, id: bytes, sight: Sighting)
    requires Represents(kv, a) && ValidName(db) && ValidId(id) && Sees(sight, Find(a, db, id))
    ensures var place := Get(kv, Keys.Encode(Keys.DocKey(db, id)));
            match sight
            case Free => place.None?
            case Occupied => place.Some?
            case Holding(doc) => place.Some? && place.value.DocRecord? && place.value.doc == doc
  {
    var k := Keys.DocKey(db, id);
    assert Keys.Valid(k);
    assert Get(kv, Keys.Encode(k)) == Expected(a, k);
  }

  // ---------------------------------------------------------------------------
  // What is stored after a write

  /** In any interleaving, a committed write to a document has left in its place what it was given. */
  lemma WriteIsStored(states: seq<State>, tids: seq<Tid>, events: seq<Event>, a: Store, i: nat)
    requires Run(states, tids, events, a) && i < |events| && events[i].Committed?
    ensures var op, before, after := events[i].op, states[i].kv, states[i + 1].kv;
            && (op.CreateDoc? ==>
                  StoredJson(before, op.db, op.id).None? && StoredJson(after, op.db, op.id) == Some(op.json))
            && (op.ReplaceDoc? ==>
                  StoredJson(before, op.db, op.id).Some? && StoredJson(after, op.db, op.id) == Some(op.json))
            && (op.PatchDoc? ==>
                  StoredJson(before, op.db, op.id).Some? && op.patch(StoredJson(before, op.db, op.id).value).Some?
                  && StoredJson(after, op.db, op.id) == op.patch(StoredJson(before, op.db, op.id).value))
            && (op.DeleteDoc? ==> StoredJson(before, op.db, op.id).Some? && StoredJson(after, op.db, op.id).None?)
            && (op.CreateDoc? || op.ReplaceDoc? || op.PatchDoc? ==> StoredRevision(after, op.db, op.id) == Some(events[i].choice.rev))
  {
    var stores := RunRefines(states, tids, events, a);
    assert Good(states[i], stores[i]) && Good(states[i + 1], stores[i + 1]);
    assert Follows(events[i], stores[i], stores[i + 1]);
    WriteShows(events[i].op, states[i].kv, stores[i], events[i].choice, states[i + 1].kv, stores[i + 1]);
  }

  lemma WriteShows(op: Op, kv: Kv<Record>, a: Store, c: Choice, kv': Kv<Record>, b: Store)
    requires Represents(kv, a) && Represents(kv', b) && WellFormed(op) && Atomic(op, a, c, b)
    ensures op.CreateDoc? ==> StoredJson(kv, op.db, op.id).None? && StoredJson(kv', op.db, op.id) == Some(op.json)
    ensures op.ReplaceDoc? ==> StoredJson(kv, op.db, op.id).Some? && StoredJson(kv', op.db, op.id) == Some(op.json)
    ensures op.PatchDoc? ==>
              StoredJson(kv, op.db, op.id).Some? && op.patch(StoredJson(kv, op.db, op.id).value).Some?
              && StoredJson(kv', op.db, op.id) == op.patch(StoredJson(kv, op.db, op.id).value)
    ensures op.DeleteDoc? ==> StoredJson(kv, op.db, op.id).Some? && StoredJson(kv', op.db, op.id).None?
    ensures op.CreateDoc? || op.ReplaceDoc? || op.PatchDoc? ==> StoredRevision(kv', op.db, op.id) == Some(c.rev)
  {
    DocumentWritten(op, a, c, b);
    if op.CreateDoc? || op.ReplaceDoc? || op.PatchDoc? || op.DeleteDoc? {
      StoredDocument(kv, a, op.db, op.id);
      StoredDocument(kv', b, op.db, op.id);
    }
  }

  lemma StoredDocument(kv: Kv<Record>, a: Store, db: bytes, id: bytes)
    requires Represents(kv, a) && ValidName(db) && ValidId(id)
    ensures StoredJson(kv, db, id) == match Find(a, db, id) case None => None case Some(doc) => Some(doc.json)
    ensures StoredRevision(kv, db, id) == match Find(a, db, id) case None => None case Some(doc) => Some(doc.rev)
  {
    assert Keys.Valid(Keys.DocKey(db, id));
    assert Get(kv, Keys.Encode(Keys.DocKey(db, id))) == Expected(a, Keys.DocKey(db, id));
  }

  // ---------------------------------------------------------------------------
  // Bulk import

  /** Committed, an import has added one document for each input, under identifiers that were free, and nothing else. */
  lemma ImportAddsAll(op: Op, a: Store, c: Choice, b: Store)
    requires op.ImportDocs? && Atomic(op, a, c, b)
    ensures |c.ids| == |op.documents| == |c.revs| && Distinct(c.ids)
    ensures forall i :: 0 <= i < |c.ids| ==>
              Find(a, op.db, c.ids[i]).None? && Find(b, op.db, c.ids[i]) == Some(Doc(op.documents[i], c.revs[i]))
    ensures forall x, id :: (x != op.db || id !in c.ids) ==> Find(b, x, id) == Find(a, x, id)
  {
    PutAllAdds(a, op.db, c.ids, op.documents, c.revs);
    PutAllFrame(a, op.db, c.ids, op.documents, c.revs);
    forall x, id | x != op.db || id !in c.ids ensures Find(b, x, id) == Find(a, x, id) {
      assert x != op.db ==> (x in a <==> x in b);
    }
  }

  /** In any interleaving: all the documents of an import or, if it fails, none. */
  lemma ImportAllOrNothing(states: seq<State>, tids: seq<Tid>, events: seq<Event>, a: Store, i: nat) returns (stores: seq<Store>)
    requires Run(states, tids, events, a) && i < |events| && !events[i].Silent? && events[i].op.ImportDocs?
    ensures |stores| == |states| && Represents(states[i].kv, stores[i]) && Represents(states[i + 1].kv, stores[i + 1])
    ensures events[i].Failed? ==> states[i + 1].kv == states[i].kv
    ensures events[i].Committed? ==>
              forall n :: 0 <= n < |events[i].choice.ids| ==>
                Find(stores[i], events[i].op.db, events[i].choice.ids[n]).None?
                && Find(stores[i + 1], events[i].op.db, events[i].choice.ids[n]).Some?
    ensures events[i].Committed? ==> Atomic(events[i].op, stores[i], events[i].choice, stores[i + 1])
  {
    stores := RunRefines(states, tids, events, a);
    assert Good(states[i], stores[i]) && Good(states[i + 1], stores[i + 1]);
    assert Step(states[i], tids[i], events[i], states[i + 1]);
    assert Follows(events[i], stores[i], stores[i + 1]);
    if events[i].Committed? { ImportAddsAll(events[i].op, stores[i], events[i].choice, stores[i + 1]); }
  }
}

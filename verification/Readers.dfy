/**
 Queries among the writers. A query checks the database, reads the definitions and takes a snapshot at three different
 moments, with any writes to documents in between; it still answers for one store of the run.
 */
module Readers {
  import opened Bytes
  import opened KeyValue
  import opened Catalog
  import opened Operations
  import opened Locking
  import opened Machine
  import opened Refinement
  import opened Runs
  import opened Bounds
  import opened IndexEntry
  import opened Answers
  import opened QueryIndex
  import opened PathQuery
  import opened Plans
  import JsonPath
  import V = IndexValue

  /** The `i`th event is a reader taking its snapshot. */
  ghost predicate Snapshot(events: seq<Event>, i: nat) {
    i < |events| && events[i].Committed? && events[i].op.Observe?
  }

  /** What a reader has read before is true of the store its snapshot represents. */
  ghost predicate ReadsOne(th: Thread, kv: Kv<Record>, a: Store) {
    && Represents(kv, a) && th.op.db in a
    && th.seen.db == Some(Some(a[th.op.db].key)) && th.seen.defs == Some(a[th.op.db].defs)
  }

  lemma SnapshotSound(kv: Kv<Record>, th: Thread, a: Store, c: Choice, kv': Kv<Record>, th': Thread)
    requires Represents(kv, a) && Sound(th, a) && Commits(kv, th, c, kv', th') && th.op.Observe?
    ensures ReadsOne(th, kv, a) && kv' == kv
  {
    CommitVerdict(th, a);
  }

  /** Whatever is interleaved with it, a reader has read one store of the run, and leaves the key space as it is. */
  lemma ReaderSeesOneStore(states: seq<State>, tids: seq<Tid>, events: seq<Event>, a: Store, i: nat) returns (stores: seq<Store>)
    requires Run(states, tids, events, a) && Snapshot(events, i)
    ensures Traces(states, stores, events) && stores[0] == a
    ensures tids[i] in states[i].threads && states[i].threads[tids[i]].op == events[i].op
    ensures ReadsOne(states[i].threads[tids[i]], states[i].kv, stores[i]) && states[i + 1].kv == states[i].kv
  {
    stores := RunRefines(states, tids, events, a);
    assert Good(states[i], stores[i]);
    assert Step(states[i], tids[i], events[i], states[i + 1]);
    SnapshotStep(states[i], stores[i], tids[i], events[i], states[i + 1]);
  }

  lemma SnapshotStep(s: State, a: Store, t: Tid, e: Event, s': State)
    requires Good(s, a) && Step(s, t, e, s') && e.Committed? && e.op.Observe?
    ensures t in s.threads && s.threads[t].op == e.op && ReadsOne(s.threads[t], s.kv, a) && s'.kv == s.kv
  {
    SnapshotSound(s.kv, s.threads[t], a, e.choice, s'.kv, s'.threads[t]);
  }

  /** The check for the index that a query makes on the definitions it has read. */
  predicate IndexThere(th: Thread, index: bytes) {
    th.seen.defs.Some? && index in th.seen.defs.value
  }

  /**
   In any interleaving a query that comes to its snapshot answers for that store of the run: its check for the index
   is right, every entry its iterator meets can be read, and what it reads is the answer.
   */
  lemma QueryAnswers(states: seq<State>, tids: seq<Tid>, events: seq<Event>, a: Store, i: nat, q: Query, after: Option<Entry>)
    returns (stores: seq<Store>)
    requires Run(states, tids, events, a) && Snapshot(events, i) && events[i].op.db == q.db
    requires Answerable(q) && (after.Some? ==> V.Valid(after.value.value))
    ensures Traces(states, stores, events) && stores[0] == a && tids[i] in states[i].threads
    ensures IndexThere(states[i].threads[tids[i]], q.index) <==> Refusal(stores[i], q).None?
    ensures ReadsAs(states[i].kv, q, after, AnswerTo(stores[i], q, after)) && Listed(AnswerTo(stores[i], q, after), stores[i], q, after)
  {
    stores := ReaderSeesOneStore(states, tids, events, a, i);
    ReadsAnswer(states[i].kv, stores[i], q, after);
  }

  /** A reader that gives up without an outside reason does so because there is no such database at that moment. */
  lemma ReaderRefused(states: seq<State>, tids: seq<Tid>, events: seq<Event>, a: Store, i: nat) returns (stores: seq<Store>)
    requires Run(states, tids, events, a) && i < |events| && events[i].Failed? && events[i].op.Observe? && !Environmental(events[i].error)
    ensures Traces(states, stores, events) && stores[0] == a
    ensures events[i].error == DbNotFound && events[i].op.db !in stores[i]
  {
    stores := RunRefines(states, tids, events, a);
    assert Follows(events[i], stores[i], stores[i + 1]);
    NoDatabaseThere(events[i], stores[i], stores[i + 1]);
  }

  lemma NoDatabaseThere(e: Event, a: Store, b: Store)
    requires Follows(e, a, b) && e.Failed? && e.op.Observe? && !Environmental(e.error)
    ensures e.error == DbNotFound && e.op.db !in a
  {
  }

  // ---------------------------------------------------------------------------
  // Plans in runs

  /** The event makes or deletes the database. */
  predicate Remakes(e: Event, db: bytes) {
    e.Committed? && WholeDatabase(e.op) && e.op.db == db
  }

  lemma DefsKept(e: Event, a: Store, b: Store, db: bytes)
    requires Follows(e, a, b) && !Remakes(e, db) && db in a
    ensures db in b && b[db].defs == a[db].defs
  {
    if e.Committed? {
      if WholeDatabase(e.op) { PostFrameWhole(e.op, a, e.choice); } else { PostFrame(e.op, a, e.choice); }
    }
  }

  /** Definitions change only with their database. */
  lemma {:induction false} DefsLast(stores: seq<Store>, events: seq<Event>, i: nat, j: nat, db: bytes)
    requires History(stores, events) && i <= j < |stores| && db in stores[i]
    requires forall k :: i <= k < j ==> !Remakes(events[k], db)
    ensures db in stores[j] && stores[j][db].defs == stores[i][db].defs
    decreases j - i
  {
    if i < j {
      assert Follows(events[i], stores[i], stores[i + 1]);
      DefsKept(events[i], stores[i], stores[i + 1], db);
      DefsLast(stores, events, i + 1, j, db);
    }
  }

  /** The definitions a reader has read have the index for the path. */
  predicate SeesPlan(s: State, t: Tid, index: bytes, path: JsonPath.Path) {
    t in s.threads && s.threads[t].seen.defs.Some? && StandsFor(s.threads[t].seen.defs.value, index, path)
  }

  lemma ReaderSaw(states: seq<State>, tids: seq<Tid>, events: seq<Event>, a: Store, stores: seq<Store>, i: nat)
    requires Run(states, tids, events, a) && Snapshot(events, i) && Traces(states, stores, events)
    ensures tids[i] in states[i].threads && states[i].threads[tids[i]].op == events[i].op
    ensures ReadsOne(states[i].threads[tids[i]], states[i].kv, stores[i])
  {
    assert Good(states[i], stores[i]) && Step(states[i], tids[i], events[i], states[i + 1]);
    SnapshotStep(states[i], stores[i], tids[i], events[i], states[i + 1]);
  }

  /**
   A path query plans in one reader and runs in a later one. If the later one still sees the index for the path, what
   its iterator reads are the documents the path matches in that store of the run. So it does unless the database was
   made anew in between.
   */
  lemma PlannedAnswers(states: seq<State>, tids: seq<Tid>, events: seq<Event>, a: Store, i: nat, j: nat, q: Query, path: JsonPath.Path)
    returns (stores: seq<Store>)
    requires Run(states, tids, events, a) && Snapshot(events, i) && Snapshot(events, j) && i < j
    requires events[i].op.db == events[j].op.db == q.db && Answerable(q) && SeesPlan(states[i], tids[i], q.index, path)
    ensures Traces(states, stores, events) && stores[0] == a
    ensures (forall k :: i < k < j ==> !Remakes(events[k], q.db)) ==> SeesPlan(states[j], tids[j], q.index, path)
    ensures SeesPlan(states[j], tids[j], q.index, path) ==>
              var entries := AnswerTo(stores[j], q, None);
              && ReadsAs(states[j].kv, q, None, entries)
              && forall id :: id in Ids(entries) <==> PathMatching(stores[j], q.db, path, q.op, q.value, id)
  {
    stores := ReaderSeesOneStore(states, tids, events, a, j);
    ReaderSaw(states, tids, events, a, stores, i);
    if forall k :: i < k < j ==> !Remakes(events[k], q.db) { DefsLast(stores, events, i, j, q.db); }
    if SeesPlan(states[j], tids[j], q.index, path) { PlanReads(states[j].kv, stores[j], q, path); }
  }
}

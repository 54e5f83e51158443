/**
 The machine is never stuck: while an operation is under way, some thread can take a step.
 */
module Progress {
  import opened Bytes
  import opened KeyValue
  import opened Catalog
  import opened Operations
  import opened Engine
  import opened Programs
  import opened Locking
  import opened Machine
  import opened Refinement
  import opened Runs
  import opened Batches
  import opened Ids
  import opened Sizes

  /** An operation that has not returned yet. */
  predicate UnderWay(th: Thread) {
    !th.phase.Finished? || th.taken > 0
  }

  /** A step of a thread that is not a failure for outside reasons. */
  ghost predicate OwnStep(s: State, t: Tid, e: Event, s': State) {
    t in s.threads && Step(s, t, e, s') && !(e.Failed? && Environmental(e.error))
  }

  function Moved(s: State, t: Tid, th: Thread): State {
    State(s.kv, s.threads[t := th])
  }

  lemma CanFinish(s: State, t: Tid, e: Error) returns (s': State)
    requires t in s.threads && Next(s.threads[t]).Some? && Next(s.threads[t]) != Some(Acquire)
    requires Stop(s.threads[t]) == Some(e) || Environmental(e)
    ensures Step(s, t, Failed(s.threads[t].op, e), s')
  {
    s' := Moved(s, t, Finish(s.threads[t], Refused(e)));
  }

  lemma StopIsNotEnvironmental(op: Op, seen: Seen, committing: bool)
    ensures Verdict(op, seen, committing).Some? ==> !Environmental(Verdict(op, seen, committing).value)
  {
  }

  lemma CanLock(s: State, t: Tid) returns (s': State)
    requires t in s.threads && ValidClaims(ClaimsOf(s)) && Next(s.threads[t]) == Some(Acquire) && !Blocked(ClaimsOf(s), t)
    ensures Step(s, t, Silent, s')
  {
    var th := s.threads[t];
    s' := Moved(s, t, if WholeDatabase(th.op) && !th.announced then th.(announced := true)
                      else Advance(th).(taken := th.taken + 1, announced := false));
    assert Locks(ClaimsOf(s), t, th, s'.threads[t]);
  }

  lemma CanUnlock(s: State, t: Tid) returns (s': State)
    requires t in s.threads && !s.threads[t].phase.Running? && UnderWay(s.threads[t])
    ensures Step(s, t, Silent, s')
  {
    var th := s.threads[t];
    var th' := if th.phase.Finished? || th.taken > 1 then th.(taken := th.taken - 1)
               else th.(phase := Running, pc := DRAW_PC, ids := []);
    assert Unlocks(th, th');
    s' := Moved(s, t, th');
  }

  /** A read that the store can always answer. */
  lemma CanRead(kv: Kv<Record>, th: Thread, a: Store) returns (th': Thread)
    requires Represents(kv, a) && Sound(th, a) && Next(th).Some? && Stop(th).None?
    requires !Next(th).value.Acquire? && !Next(th).value.DrawIds? && !Next(th).value.Commit?
    ensures Executes(kv, th, th')
  {
    AtGuarded(PlanFor(th), th.pc);
    match Next(th).value {
      case Validate => {
        th' := Advance(th);
      }
      case ReadDatabase => {
        th' := CanReadDatabase(kv, th, a);
      }
      case ReadDefinitions => {
        DatabaseThere(th, a);
        DefsStoredExact(kv, a, th.op.db, a[th.op.db].defs);
        th' := Advance(th).(seen := th.seen.(defs := Some(a[th.op.db].defs)));
      }
      case ReadDocument(id) => {
        th' := CanReadDocument(kv, th, a, id);
      }
    }
  }

  lemma CanReadDatabase(kv: Kv<Record>, th: Thread, a: Store) returns (th': Thread)
    requires Represents(kv, a) && Sound(th, a)
    ensures ReadsDatabase(kv, th, th')
  {
    ReadsDbKey(kv, a, th.op.db);
    var r := ReadDbKey(kv, th.op.db);
    th' := Advance(th).(seen := th.seen.(db := Some(if r.Found? then Some(r.value) else None)));
  }

  lemma CanReadDocument(kv: Kv<Record>, th: Thread, a: Store, id: bytes) returns (th': Thread)
    requires Represents(kv, a) && Sound(th, a) && Next(th) == Some(ReadDocument(id)) && Stop(th).None?
    ensures ReadsDocument(kv, th, id, th')
  {
    AtGuarded(PlanFor(th), th.pc);
    DatabaseThere(th, a);
    IdsValid(th, id);
    LookExact(th.op, kv, a, id);
    var sight := Look(th.op, kv, a[th.op.db].key, id);
    th' := if th.op.ImportDocs? && sight != Some(Free) then th.(phase := Retrying, seen := th.seen.(docs := map[]))
           else Advance(th).(seen := th.seen.(docs := th.seen.docs[id := sight.value]));
  }

  lemma CanReadStep(s: State, a: Store, t: Tid) returns (s': State)
    requires Represents(s.kv, a) && t in s.threads && Sound(s.threads[t], a) && Next(s.threads[t]).Some? && Stop(s.threads[t]).None?
    requires !Next(s.threads[t]).value.Acquire? && !Next(s.threads[t]).value.DrawIds? && !Next(s.threads[t]).value.Commit?
    ensures Step(s, t, Silent, s')
  {
    var th' := CanRead(s.kv, s.threads[t], a);
    s' := Moved(s, t, th');
  }

  /** The document a thread has seen, if its operation looks inside one. */
  lemma SeenInside(th: Thread, a: Store)
    requires Sound(th, a) && Next(th) == Some(Commit) && Stop(th).None?
    requires th.op.ReplaceDoc? || th.op.PatchDoc? || th.op.DeleteDoc?
    ensures th.op.id in th.seen.docs && th.seen.docs[th.op.id].Holding?
    ensures !th.op.DeleteDoc? ==> NewJson(th.op, th.seen.docs[th.op.id].doc.json).Some?
  {
    AtGuarded(PlanFor(th), th.pc);
    AtCommit(PlanFor(th));
    assert th.op.id in IdsOf(PlanFor(th));
  }

  lemma ImportDrawn(th: Thread)
    requires Placed(th) && Next(th) == Some(Commit) && th.op.ImportDocs?
    ensures Drawn(th.op, th.ids)
  {
    AtGuarded(PlanFor(th), th.pc);
  }

  lemma CommitBatch(th: Thread, a: Store, c: Choice) returns (batch: Batch)
    requires Valid(a) && Sound(th, a) && Next(th) == Some(Commit) && Stop(th).None? && Draws(th, c)
    ensures BatchFor(th.op, ViewOf(th.seen), c, batch)
  {
    CommitVerdict(th, a);
    if !WholeDatabase(th.op) { assert ValidDatabase(a[th.op.db]); }
    if th.op.ImportDocs? { ImportDrawn(th); }
    if th.op.ReplaceDoc? || th.op.PatchDoc? || th.op.DeleteDoc? { SeenInside(th, a); }
    batch := BatchExists(th.op, ViewOf(th.seen), c);
  }

  /** A draw the thread could make. */
  function SomeDraw(th: Thread): (c: Choice)
    ensures Draws(th, c)
  {
    var rev := if (th.op.ReplaceDoc? || th.op.PatchDoc?) && th.op.id in th.seen.docs && th.seen.docs[th.op.id].Holding?
               then th.seen.docs[th.op.id].doc.rev + 1 else 0;
    Choice(0, rev, th.ids, if th.op.ImportDocs? then seq(|th.op.documents|, _ => 0) else [])
  }

  /** There are identifiers for an import to draw that are not among those given, such as the ones in use. */
  lemma CanDraw(s: State, t: Tid, taken: set<bytes>) returns (s': State)
    requires t in s.threads && Placed(s.threads[t]) && Next(s.threads[t]) == Some(DrawIds) && Stop(s.threads[t]).None?
    requires |taken| <= MAX_INT
    ensures Step(s, t, Silent, s') && forall id :: id in s'.threads[t].ids ==> id !in taken
  {
    var th := s.threads[t];
    DrawPlace(PlanFor(th), th.pc);
    var ids := EnoughIds(taken, |th.op.documents|);
    assert Drawn(th.op, ids);
    s' := Moved(s, t, Advance(th).(ids := ids));
    assert DrawsIds(th, s'.threads[t]);
  }

  /** A thread that has found no reason to stop can commit. */
  lemma CanCommit(s: State, a: Store, t: Tid) returns (c: Choice, s': State)
    requires Represents(s.kv, a) && t in s.threads && Sound(s.threads[t], a)
    requires Next(s.threads[t]) == Some(Commit) && Stop(s.threads[t]).None?
    ensures Step(s, t, Committed(s.threads[t].op, c), s')
  {
    var th := s.threads[t];
    c := SomeDraw(th);
    var batch := CommitBatch(th, a, c);
    s' := State(Apply(s.kv, batch), s.threads[t := Finish(th, Done)]);
    assert Commits(s.kv, th, c, s'.kv, s'.threads[t]);
  }

  /** A thread that is not at a lock goes on, or gives up for a reason. */
  lemma CanRun(s: State, a: Store, t: Tid) returns (e: Event, s': State)
    requires Represents(s.kv, a) && t in s.threads && Sound(s.threads[t], a)
    requires Next(s.threads[t]).Some? && Next(s.threads[t]) != Some(Acquire)
    ensures OwnStep(s, t, e, s')
  {
    var th := s.threads[t];
    if Stop(th).Some? {
      StopIsNotEnvironmental(th.op, th.seen, Next(th) == Some(Commit));
      e := Failed(th.op, Stop(th).value);
      s' := CanFinish(s, t, Stop(th).value);
    } else if Next(th) == Some(DrawIds) {
      e := Silent;
      s' := CanDraw(s, t, {});
    } else if Next(th) == Some(Commit) {
      var c;
      c, s' := CanCommit(s, a, t);
      e := Committed(th.op, c);
    } else {
      e := Silent;
      s' := CanReadStep(s, a, t);
    }
  }

  lemma NotRunning(th: Thread)
    requires Placed(th) && Next(th).None?
    ensures !th.phase.Running?
  {
  }

  /** A thread that waits for no lock has a step of its own. */
  lemma CanStep(s: State, a: Store, t: Tid) returns (e: Event, s': State)
    requires Represents(s.kv, a) && ValidClaims(ClaimsOf(s)) && t in s.threads && Sound(s.threads[t], a)
    requires UnderWay(s.threads[t]) && !Blocked(ClaimsOf(s), t)
    ensures OwnStep(s, t, e, s')
  {
    var th := s.threads[t];
    e := Silent;
    if Next(th).None? {
      NotRunning(th);
      s' := CanUnlock(s, t);
    } else if Next(th) == Some(Acquire) {
      s' := CanLock(s, t);
    } else {
      e, s' := CanRun(s, a, t);
    }
  }

  /** A thread that others wait for is under way. */
  lemma EngagedIsUnderWay(th: Thread)
    requires Placed(th) && Engaged(ClaimOf(th))
    ensures UnderWay(th)
  {
  }

  /** No deadlock: if any operation is under way, one that is under way can go on. */
  lemma SomeThreadSteps(s: State, a: Store, t: Tid) returns (u: Tid, e: Event, s': State)
    requires Good(s, a) && t in s.threads && UnderWay(s.threads[t])
    ensures u in s.threads && UnderWay(s.threads[u]) && OwnStep(s, u, e, s')
  {
    u := FindRunnable(ClaimsOf(s), t);
    assert u != t ==> Sound(s.threads[u], a);
    if u != t { EngagedIsUnderWay(s.threads[u]); }
    e, s' := CanStep(s, a, u);
  }

  /** So in every state of every interleaving. */
  lemma NeverDeadlocked(states: seq<State>, tids: seq<Tid>, events: seq<Event>, a: Store, i: nat, t: Tid)
    requires Run(states, tids, events, a) && i < |states| && t in states[i].threads && UnderWay(states[i].threads[t])
    ensures exists u, e, s' :: u in states[i].threads && UnderWay(states[i].threads[u]) && OwnStep(states[i], u, e, s')
  {
    var stores := RunRefines(states, tids, events, a);
    assert Good(states[i], stores[i]);
    var u, e, s' := SomeThreadSteps(states[i], stores[i], t);
  }
}

/**
 Every interleaving of the machine is a sequence of atomic operations on the store: locks keep
 what a thread has read unchanged until it commits, so it commits as if it had run alone.
 */
module Refinement {
  import opened Bytes
  import opened KeyValue
  import opened Names
  import opened Catalog
  import opened Operations
  import opened Engine
  import opened Programs
  import opened Locking
  import opened Machine
  import Keys

  // ---------------------------------------------------------------------------
  // Reads on a represented store

  lemma DefsStoredExact(kv: Kv<Record>, a: Store, db: bytes, defs: Defs)
    requires Represents(kv, a) && ValidName(db) && db in a
    ensures DefsStored(kv, db, defs) <==> defs == a[db].defs
  {
    forall index | ValidName(index)
      ensures Get(kv, Keys.Encode(Keys.DefKey(db, index))) ==
              (if index in a[db].defs then Some(DefRecord(a[db].defs[index])) else None)
    {
      assert Keys.Valid(Keys.DefKey(db, index));
      assert Get(kv, Keys.Encode(Keys.DefKey(db, index))) == Expected(a, Keys.DefKey(db, index));
    }
    DefNamesValid(a, db);
    assert DefsStored(kv, db, a[db].defs);
    if DefsStored(kv, db, defs) {
      SameDefinitions(kv, db, defs, a[db].defs);
    }
  }

  lemma DefNamesValid(a: Store, db: bytes)
    requires Valid(a) && db in a
    ensures forall index :: index in a[db].defs ==> ValidName(index)
  {
  }

  lemma SameDefinitions(kv: Kv<Record>, db: bytes, x: Defs, y: Defs)
    requires DefsStored(kv, db, x) && DefsStored(kv, db, y)
    ensures x == y
  {
    forall index: bytes ensures index in x <==> index in y {
      if index in x || index in y { assert ValidName(index); }
    }
    forall index | index in x ensures x[index] == y[index] {
      assert ValidName(index);
    }
  }

  lemma LookExact(op: Op, kv: Kv<Record>, a: Store, id: bytes)
    requires Represents(kv, a) && ValidName(op.db) && ValidId(id) && op.db in a
    ensures var sight := Look(op, kv, a[op.db].key, id);
            && sight.Some? && Sees(sight.value, Find(a, op.db, id))
            && (if Creates(op) then !sight.value.Holding? else !sight.value.Occupied?)
  {
    ReadsDoc(kv, a, op.db, id);
    if Creates(op) { PlaceTaken(kv, a, op.db, id); }
  }

  // ---------------------------------------------------------------------------
  // Claims

  lemma ClaimsUpdate(s: State, s': State, t: Tid)
    requires t in s'.threads && s'.threads == s.threads[t := s'.threads[t]]
    ensures ClaimsOf(s') == ClaimsOf(s)[t := ClaimOf(s'.threads[t])]
  {
  }

  /** One thread's place in the state changes, and nothing is written. */
  lemma GoodUpdate(s: State, a: Store, t: Tid, s': State)
    requires Good(s, a) && t in s'.threads && s'.threads == s.threads[t := s'.threads[t]] && s'.kv == s.kv
    requires Sound(s'.threads[t], a)
    requires ValidClaims(ClaimsOf(s)[t := ClaimOf(s'.threads[t])]) && Exclusive(ClaimsOf(s)[t := ClaimOf(s'.threads[t])])
    ensures Good(s', a)
  {
    ClaimsUpdate(s, s', t);
  }

  lemma SpawnStep(s: State, a: Store, t: Tid, s': State)
    requires Good(s, a) && t !in s.threads && t in s'.threads && s'.threads == s.threads[t := s'.threads[t]] && s'.kv == s.kv
    requires Starts(s'.threads[t])
    ensures Good(s', a)
  {
    StartSound(s'.threads[t], a);
    NewExclusive(ClaimsOf(s), t, ClaimOf(s'.threads[t]));
    GoodUpdate(s, a, t, s');
  }

  lemma StartSound(th: Thread, a: Store)
    requires Starts(th)
    ensures Sound(th, a) && ValidClaim(ClaimOf(th))
  {
    PlacedClaim(th);
  }

  // ---------------------------------------------------------------------------
  // Instructions

  /** The thread's next instruction has added to what it has seen. */
  predicate Adds(seen: Seen, i: Instr, seen': Seen) {
    && (seen'.db.Some? <==> seen.db.Some? || i.ReadDatabase?)
    && (seen'.defs.Some? <==> seen.defs.Some? || i.ReadDefinitions?)
    && seen'.docs.Keys == seen.docs.Keys + (if i.ReadDocument? then {i.id} else {})
  }

  /** Keeps its place in the locking order. */
  ghost predicate Stays(th: Thread, th': Thread) {
    PlanFor(th') == PlanFor(th) && th'.taken == th.taken && !th'.announced
  }

  lemma PlaceNext(plan: Plan, pc: nat, taken: nat, announced: bool, seen: Seen, seen': Seen)
    requires PlacedAt(plan, pc, taken, announced, seen) && !At(plan, pc).Commit? && Adds(seen, At(plan, pc), seen')
    ensures PlacedAt(plan, pc + 1, taken + (if At(plan, pc).Acquire? then 1 else 0), false, seen')
  {
    AtGuarded(plan, pc);
    AtNext(plan, pc);
    SeenNext(plan, pc, seen, seen');
  }

  lemma AdvancePlaced(th: Thread, seen: Seen)
    requires Placed(th) && Next(th).Some? && Kinds(th.op, seen.docs) && Adds(th.seen, Next(th).value, seen)
    requires !Next(th).value.Acquire? && !Next(th).value.DrawIds? && !Next(th).value.Commit?
    ensures Placed(Advance(th).(seen := seen)) && Stays(th, Advance(th).(seen := seen))
  {
    var plan, th' := PlanFor(th), Advance(th).(seen := seen);
    PlaceNext(plan, th.pc, th.taken, th.announced, th.seen, seen);
    DrawNext(plan, th.pc);
    assert PlanFor(th') == plan;
  }

  lemma DrawNext(plan: Plan, pc: nat)
    requires pc <= CommitPc(plan) && !At(plan, pc).DrawIds?
    ensures plan.Many? ==> (pc <= DRAW_PC <==> pc + 1 <= DRAW_PC)
  {
  }

  lemma SeenNext(plan: Plan, pc: nat, seen: Seen, seen': Seen)
    requires pc < CommitPc(plan) && HasSeen(plan, pc, seen) && Adds(seen, At(plan, pc), seen')
    ensures HasSeen(plan, pc + 1, seen')
  {
    AtNext(plan, pc);
  }

  lemma AdvanceSound(th: Thread, seen: Seen, a: Store)
    requires Sound(th, a) && Next(th).Some? && Kinds(th.op, seen.docs) && Adds(th.seen, Next(th).value, seen)
    requires !Next(th).value.Acquire? && !Next(th).value.DrawIds? && !Next(th).value.Commit?
    requires Current(seen, PlanFor(th), th.taken, a)
    ensures Sound(Advance(th).(seen := seen), a) && Stays(th, Advance(th).(seen := seen))
  {
    AdvancePlaced(th, seen);
  }

  lemma ValidateSound(th: Thread, a: Store, th': Thread)
    requires Sound(th, a) && Next(th) == Some(Validate) && th' == Advance(th)
    ensures Sound(th', a) && Stays(th, th')
  {
    AdvanceSound(th, th.seen, a);
    assert th' == Advance(th).(seen := th.seen);
  }

  lemma ReadDatabaseSound(kv: Kv<Record>, th: Thread, a: Store, th': Thread)
    requires Represents(kv, a) && Sound(th, a) && Next(th) == Some(ReadDatabase) && ReadsDatabase(kv, th, th')
    ensures Sound(th', a) && Stays(th, th')
  {
    ReadsDbKey(kv, a, th.op.db);
    AtGuarded(PlanFor(th), th.pc);
    AdvanceSound(th, th'.seen, a);
  }

  lemma ReadDefinitionsSound(kv: Kv<Record>, th: Thread, a: Store, th': Thread)
    requires Represents(kv, a) && Sound(th, a) && Next(th) == Some(ReadDefinitions) && ReadsDefinitions(kv, th, th')
    requires Stop(th).None?
    ensures Sound(th', a) && Stays(th, th')
  {
    var defs :| DefsStored(kv, th.op.db, defs) && th' == Advance(th).(seen := th.seen.(defs := Some(defs)));
    AtGuarded(PlanFor(th), th.pc);
    DatabaseThere(th, a);
    DefsStoredExact(kv, a, th.op.db, defs);
    DefinitionsSound(th, a);
  }

  lemma DefinitionsSound(th: Thread, a: Store)
    requires Sound(th, a) && Next(th) == Some(ReadDefinitions) && th.op.db in a
    ensures var th' := Advance(th).(seen := th.seen.(defs := Some(a[th.op.db].defs))); Sound(th', a) && Stays(th, th')
  {
    AtGuarded(PlanFor(th), th.pc);
    AdvanceSound(th, th.seen.(defs := Some(a[th.op.db].defs)), a);
  }

  /** An operation on documents that goes on after reading the database has found it. */
  lemma DatabaseThere(th: Thread, a: Store)
    requires Sound(th, a) && !WholeDatabase(th.op) && th.seen.db.Some? && Stop(th).None?
    ensures th.op.db in a && th.seen.db.value == Some(a[th.op.db].key)
  {
  }

  lemma IdsValid(th: Thread, id: bytes)
    requires Placed(th) && id in IdsOf(PlanFor(th))
    ensures ValidId(id)
  {
  }

  lemma ReadDocumentSound(kv: Kv<Record>, th: Thread, a: Store, id: bytes, th': Thread)
    requires Represents(kv, a) && Sound(th, a) && Next(th) == Some(ReadDocument(id)) && ReadsDocument(kv, th, id, th')
    requires Stop(th).None?
    ensures Sound(th', a) && Stays(th, th')
  {
    AtGuarded(PlanFor(th), th.pc);
    DatabaseThere(th, a);
    IdsValid(th, id);
    LookExact(th.op, kv, a, id);
    var sight := Look(th.op, kv, a[th.op.db].key, id).value;
    if th.op.ImportDocs? && sight != Free {
      RetrySound(th, a);
    } else {
      SightingSound(th, a, id, sight);
    }
  }

  lemma SightingSound(th: Thread, a: Store, id: bytes, sight: Sighting)
    requires Sound(th, a) && Next(th) == Some(ReadDocument(id)) && Sees(sight, Find(a, th.op.db, id))
    requires if Creates(th.op) then !sight.Holding? else !sight.Occupied?
    requires th.op.ImportDocs? ==> sight.Free?
    ensures var th' := Advance(th).(seen := th.seen.(docs := th.seen.docs[id := sight])); Sound(th', a) && Stays(th, th')
  {
    var seen := th.seen.(docs := th.seen.docs[id := sight]);
    AtGuarded(PlanFor(th), th.pc);
    HoldsDocument(PlanFor(th), id);
    SightingCurrent(th.seen, PlanFor(th), th.taken, a, id, sight);
    SightingKinds(th.op, th.seen.docs, id, sight);
    SightingAdds(th.seen, id, sight);
    AdvanceSound(th, seen, a);
  }

  lemma SightingCurrent(seen: Seen, plan: Plan, taken: nat, a: Store, id: bytes, sight: Sighting)
    requires 1 <= taken <= LockCount(plan) && Current(seen, plan, taken, a)
    requires Sees(sight, Find(a, plan.db, id)) && Holds(plan, taken, DocLockOf(plan.db, id))
    ensures Current(seen.(docs := seen.docs[id := sight]), plan, taken, a)
  {
  }

  lemma SightingKinds(op: Op, docs: map<bytes, Sighting>, id: bytes, sight: Sighting)
    requires Kinds(op, docs) && (op.ImportDocs? ==> sight.Free?)
    requires if Creates(op) then !sight.Holding? else !sight.Occupied?
    ensures Kinds(op, docs[id := sight])
  {
  }

  lemma SightingAdds(seen: Seen, id: bytes, sight: Sighting)
    ensures Adds(seen, ReadDocument(id), seen.(docs := seen.docs[id := sight]))
  {
  }

  lemma RetrySound(th: Thread, a: Store)
    requires Sound(th, a) && Next(th).Some? && Next(th).value.ReadDocument? && th.op.ImportDocs?
    ensures var th' := th.(phase := Retrying, seen := th.seen.(docs := map[])); Sound(th', a) && Stays(th, th')
  {
    AtGuarded(PlanFor(th), th.pc);
  }

  /** With one lock held it is the database's, whatever the identifiers. */
  lemma FirstLock(op: Op, ids: seq<bytes>, ids': seq<bytes>, l: Lock)
    requires Holds(PlanOf(op, ids'), 1, l)
    ensures Holds(PlanOf(op, ids), 1, l)
  {
    assert l == LockAt(PlanOf(op, ids'), 0) == LockAt(PlanOf(op, ids), 0);
  }

  lemma DrawPlaces(op: Op, ids: seq<bytes>, seen: Seen)
    requires op.ImportDocs?
    ensures HasSeen(PlanOf(op, ids), DRAW_PC, seen) <==> seen.db.Some? && seen.defs.Some? && seen.docs == map[]
    ensures HasSeen(PlanOf(op, ids), LOCK_PC, seen) <==> seen.db.Some? && seen.defs.Some? && seen.docs == map[]
    ensures TakenAt(PlanOf(op, ids), DRAW_PC) == 1 && TakenAt(PlanOf(op, ids), LOCK_PC) == 1
  {
    assert ReadAt(PlanOf(op, ids), LOCK_PC) == [];
  }

  lemma DrawPlace(plan: Plan, pc: nat)
    requires pc <= CommitPc(plan) && At(plan, pc).DrawIds?
    ensures plan.Many? && pc == DRAW_PC
  {
  }

  /** Holding the database lock alone, what has been read of the database stays current under another draw. */
  lemma RedrawCurrent(op: Op, ids: seq<bytes>, ids': seq<bytes>, seen: Seen, a: Store)
    requires op.ImportDocs? && seen.docs == map[] && Current(seen, PlanOf(op, ids), 1, a)
    ensures Current(seen, PlanOf(op, ids'), 1, a)
  {
  }

  /** The locks held are among those held before. */
  ghost predicate NoMoreLocks(th: Thread, th': Thread)
    requires ValidClaim(ClaimOf(th)) && ValidClaim(ClaimOf(th'))
  {
    forall l :: Has(ClaimOf(th'), l) ==> Has(ClaimOf(th), l)
  }

  lemma DrawIdsSound(th: Thread, a: Store, th': Thread)
    requires Sound(th, a) && Next(th) == Some(DrawIds) && DrawsIds(th, th')
    ensures Sound(th', a) && !th'.announced && th'.taken == 1 && th.taken == 1
  {
    var ids :| Drawn(th.op, ids) && th' == Advance(th).(ids := ids);
    DrawPlace(PlanFor(th), th.pc);
    DrawPlaces(th.op, th.ids, th.seen);
    DrawPlaces(th.op, ids, th.seen);
    RedrawCurrent(th.op, th.ids, ids, th.seen, a);
  }

  lemma RewindSound(th: Thread, a: Store, th': Thread)
    requires Sound(th, a) && th.phase.Retrying? && th.taken <= 1 && th' == th.(phase := Running, pc := DRAW_PC, ids := [])
    ensures Sound(th', a) && !th'.announced && th'.taken == 1 && th.taken == 1
  {
    DrawPlaces(th.op, [], th.seen);
    RedrawCurrent(th.op, th.ids, [], th.seen, a);
  }

  lemma UnlockSound(th: Thread, a: Store, th': Thread)
    requires Sound(th, a) && !th.phase.Running? && th.taken > 0 && (th.phase.Retrying? ==> th.taken > 1)
    requires th' == th.(taken := th.taken - 1)
    ensures Sound(th', a) && PlanFor(th') == PlanFor(th) && th'.taken < th.taken && !th'.announced
  {
  }

  lemma FinishSound(th: Thread, a: Store, outcome: Outcome)
    requires Sound(th, a) && Next(th).Some? && Next(th) != Some(Acquire)
    ensures Sound(Finish(th, outcome), a) && Stays(th, Finish(th, outcome))
  {
  }

  lemma HoldsFewer(plan: Plan, taken: nat, more: nat, l: Lock)
    requires taken <= more <= LockCount(plan) && Holds(plan, taken, l)
    ensures Holds(plan, more, l)
  {
  }

  /** Same plan and no more locks, or down to the database lock. */
  ghost predicate Lighter(th: Thread, th': Thread) {
    && th'.op == th.op && !th'.announced
    && ((PlanFor(th') == PlanFor(th) && th'.taken <= th.taken) || (th'.taken == 1 && th.taken == 1))
  }

  lemma FewerLocks(th: Thread, th': Thread)
    requires Placed(th) && Placed(th') && Lighter(th, th')
    ensures ValidClaim(ClaimOf(th)) && ValidClaim(ClaimOf(th')) && NoMoreLocks(th, th')
  {
    PlacedClaim(th);
    PlacedClaim(th');
    forall l | Has(ClaimOf(th'), l) ensures Has(ClaimOf(th), l) {
      if PlanFor(th') == PlanFor(th) {
        HoldsFewer(PlanFor(th), th'.taken, th.taken, l);
      } else {
        FirstLock(th.op, th.ids, th'.ids, l);
      }
    }
  }

  /** Every instruction but those that lock and commit. */
  lemma ExecutesSound(kv: Kv<Record>, th: Thread, a: Store, th': Thread)
    requires Represents(kv, a) && Sound(th, a) && Executes(kv, th, th')
    ensures Sound(th', a) && Lighter(th, th')
  {
    match Next(th).value {
      case Validate => ValidateSound(th, a, th');
      case ReadDatabase => ReadDatabaseSound(kv, th, a, th');
      case ReadDefinitions => ReadDefinitionsSound(kv, th, a, th');
      case ReadDocument(id) => ReadDocumentSound(kv, th, a, id, th');
      case DrawIds => DrawIdsSound(th, a, th');
    }
  }

  lemma UnlocksSound(th: Thread, a: Store, th': Thread)
    requires Sound(th, a) && Unlocks(th, th')
    ensures Sound(th', a) && Lighter(th, th')
  {
    if th.phase.Retrying? && th.taken <= 1 {
      RewindSound(th, a, th');
    } else {
      UnlockSound(th, a, th');
    }
  }

  // ---------------------------------------------------------------------------
  // Locks

  lemma LockPlaced(th: Thread)
    requires Placed(th) && Next(th) == Some(Acquire)
    ensures Placed(Advance(th).(taken := th.taken + 1, announced := false))
  {
    var plan, th' := PlanFor(th), Advance(th).(taken := th.taken + 1, announced := false);
    PlaceNext(plan, th.pc, th.taken, th.announced, th.seen, th.seen);
    DrawNext(plan, th.pc);
    assert PlanFor(th') == plan;
  }

  lemma MoreCurrent(seen: Seen, plan: Plan, taken: nat, more: nat, a: Store)
    requires taken <= more <= LockCount(plan) && Current(seen, plan, taken, a)
    ensures Current(seen, plan, more, a)
  {
    forall id | id in seen.docs ensures Holds(plan, more, DocLockOf(plan.db, id)) {
      HoldsFewer(plan, taken, more, DocLockOf(plan.db, id));
    }
  }

  lemma LockSound(th: Thread, a: Store)
    requires Sound(th, a) && Next(th) == Some(Acquire)
    ensures Sound(Advance(th).(taken := th.taken + 1, announced := false), a)
  {
    AtGuarded(PlanFor(th), th.pc);
    LockPlaced(th);
    MoreCurrent(th.seen, PlanFor(th), th.taken, th.taken + 1, a);
  }

  lemma AnnounceSound(th: Thread, a: Store)
    requires Sound(th, a) && Next(th) == Some(Acquire) && WholeDatabase(th.op)
    ensures Sound(th.(announced := true), a)
  {
  }

  lemma WantsDatabase(th: Thread)
    requires Placed(th) && Next(th) == Some(Acquire)
    ensures ValidClaim(ClaimOf(th)) && (Wanted(ClaimOf(th)).DbWrite? <==> WholeDatabase(th.op))
  {
    PlacedClaim(th);
    AtGuarded(PlanFor(th), th.pc);
  }

  lemma LockClaims(cs: Claims, t: Tid, th: Thread, th': Thread)
    requires ValidClaims(cs) && Exclusive(cs) && t in cs && cs[t] == ClaimOf(th) && Locks(cs, t, th, th')
    requires Placed(th) && Placed(th')
    ensures ValidClaims(cs[t := ClaimOf(th')]) && Exclusive(cs[t := ClaimOf(th')])
  {
    WantsDatabase(th);
    PlacedClaim(th');
    if WholeDatabase(th.op) && !th.announced {
      assert ClaimOf(th') == cs[t].(announced := true);
      AnnounceExclusive(cs, t);
    } else {
      assert ClaimOf(th') == Taking(cs[t], ClaimOf(th').waiting);
      TakeExclusive(cs, t, ClaimOf(th').waiting);
    }
  }

  lemma LocksSound(cs: Claims, t: Tid, th: Thread, a: Store, th': Thread)
    requires ValidClaims(cs) && t in cs && Locks(cs, t, th, th') && Sound(th, a)
    ensures Sound(th', a)
  {
    if WholeDatabase(th.op) && !th.announced {
      AnnounceSound(th, a);
    } else {
      LockSound(th, a);
    }
  }

  lemma LockStep(s: State, a: Store, t: Tid, s': State)
    requires Good(s, a) && t in s.threads && t in s'.threads && s'.threads == s.threads[t := s'.threads[t]] && s'.kv == s.kv
    requires Locks(ClaimsOf(s), t, s.threads[t], s'.threads[t])
    ensures Good(s', a)
  {
    LocksSound(ClaimsOf(s), t, s.threads[t], a, s'.threads[t]);
    LockClaims(ClaimsOf(s), t, s.threads[t], s'.threads[t]);
    GoodUpdate(s, a, t, s');
  }

  // ---------------------------------------------------------------------------
  // Verdicts

  /** A thread that stops has a reason that holds of the store at that moment. */
  lemma VerdictJustified(op: Op, seen: Seen, committing: bool, plan: Plan, taken: nat, a: Store)
    requires taken <= LockCount(plan) && plan.db == op.db && Current(seen, plan, taken, a) && Kinds(op, seen.docs)
    requires Verdict(op, seen, committing).Some? && (seen.defs.Some? && op.CreateDoc? ==> op.id in seen.docs)
    requires seen.docs != map[] || seen.defs.Some? ==> seen.db.Some?
    ensures Judge(op, a) == Verdict(op, seen, committing)
  {
    if op.ReplaceDoc? || op.PatchDoc? || op.DeleteDoc? {
      SeenDocJustified(op, seen, plan, taken, a);
    }
  }

  lemma SeenDocJustified(op: Op, seen: Seen, plan: Plan, taken: nat, a: Store)
    requires taken <= LockCount(plan) && plan.db == op.db && Current(seen, plan, taken, a) && Kinds(op, seen.docs)
    requires (op.ReplaceDoc? || op.PatchDoc? || op.DeleteDoc?) && JudgeSeenDoc(op, seen).Some?
    ensures Judge(op, a) == JudgeSeenDoc(op, seen)
  {
    if seen.db == Some(None) {
      assert Find(a, op.db, op.id).None?;
    } else {
      assert Sees(seen.docs[op.id], Find(a, op.db, op.id));
      SightJustified(op, seen.docs[op.id], seen, a);
    }
  }

  lemma SightJustified(op: Op, sight: Sighting, seen: Seen, a: Store)
    requires op.ReplaceDoc? || op.PatchDoc? || op.DeleteDoc?
    requires seen.db != Some(None) && op.id in seen.docs && seen.docs[op.id] == sight && !sight.Occupied?
    requires Sees(sight, Find(a, op.db, op.id)) && (seen.defs.Some? ==> op.db in a && seen.defs.value == a[op.db].defs)
    requires JudgeSeenDoc(op, seen).Some?
    ensures Judge(op, a) == JudgeSeenDoc(op, seen)
  {
  }

  /** A thread that has read everything and found no reason to stop would not be refused. */
  lemma VerdictComplete(op: Op, ids: seq<bytes>, seen: Seen, taken: nat, a: Store)
    requires taken <= LockCount(PlanOf(op, ids)) && Current(seen, PlanOf(op, ids), taken, a) && Kinds(op, seen.docs)
    requires HasSeen(PlanOf(op, ids), CommitPc(PlanOf(op, ids)), seen) && Verdict(op, seen, true).None?
    ensures Judge(op, a).None? && (!WholeDatabase(op) ==> op.db in a && seen.db == Some(Some(a[op.db].key)) && seen.defs == Some(a[op.db].defs))
  {
    AtCommit(PlanOf(op, ids));
    if !WholeDatabase(op) && !op.ImportDocs? && !op.Observe? {
      assert op.id in IdsOf(PlanOf(op, ids));
      assert op.id in seen.docs;
    }
  }

  lemma StopJustified(th: Thread, a: Store)
    requires Sound(th, a) && Next(th).Some? && Stop(th).Some?
    ensures Judge(th.op, a) == Stop(th)
  {
    SeenInOrder(PlanFor(th), th.pc, th.seen);
    VerdictJustified(th.op, th.seen, Next(th) == Some(Commit), PlanFor(th), th.taken, a);
  }

  lemma SeenInOrder(plan: Plan, pc: nat, seen: Seen)
    requires pc <= CommitPc(plan) && HasSeen(plan, pc, seen)
    ensures seen.docs != map[] || seen.defs.Some? ==> seen.db.Some?
    ensures seen.defs.Some? && plan.One? ==> plan.id in seen.docs
  {
    if !seen.db.Some? {
      assert ReadAt(plan, pc) == [];
      assert seen.docs.Keys == {};
    }
  }

  /** On a represented store no record is ever found broken. */
  lemma NeverCorrupt(kv: Kv<Record>, th: Thread, a: Store)
    requires Represents(kv, a) && Sound(th, a) && Next(th).Some? && Stop(th).None?
    ensures !FindsCorruption(kv, th)
  {
    AtGuarded(PlanFor(th), th.pc);
    match Next(th).value {
      case ReadDatabase => ReadsDbKey(kv, a, th.op.db);
      case ReadDefinitions => {
        DatabaseThere(th, a);
        DefsStoredExact(kv, a, th.op.db, a[th.op.db].defs);
      }
      case ReadDocument(id) => {
        DatabaseThere(th, a);
        IdsValid(th, id);
        LookExact(th.op, kv, a, id);
      }
      case Commit => StoredAccepted(th, a);
      case Validate =>
      case Acquire =>
      case DrawIds =>
    }
  }

  lemma StoredAccepted(th: Thread, a: Store)
    requires Valid(a) && Sound(th, a) && Next(th) == Some(Commit) && Stop(th).None?
    ensures forall id :: id in th.seen.docs && th.seen.docs[id].Holding? ==> Accepts(th.seen.docs[id].doc.json, ViewOf(th.seen).defs)
  {
    CommitVerdict(th, a);
    if WholeDatabase(th.op) {
      WholeSeesNothing(th);
    } else {
      SeenAccepted(th.seen, PlanFor(th), th.taken, a);
    }
  }

  lemma SeenAccepted(seen: Seen, plan: Plan, taken: nat, a: Store)
    requires Valid(a) && taken <= LockCount(plan) && Current(seen, plan, taken, a) && plan.db in a
    ensures forall id :: id in seen.docs && seen.docs[id].Holding? ==> Accepts(seen.docs[id].doc.json, a[plan.db].defs)
  {
    forall id | id in seen.docs && seen.docs[id].Holding? ensures Accepts(seen.docs[id].doc.json, a[plan.db].defs) {
      assert Find(a, plan.db, id) == Some(seen.docs[id].doc);
      assert ValidDoc(id, a[plan.db].docs[id], a[plan.db].defs);
    }
  }

  lemma WholeSeesNothing(th: Thread)
    requires Placed(th) && th.phase.Running? && WholeDatabase(th.op)
    ensures th.seen.docs == map[]
  {
    assert ReadAt(PlanFor(th), th.pc) == [];
    assert th.seen.docs.Keys == {};
  }

  lemma CommitVerdict(th: Thread, a: Store)
    requires Sound(th, a) && Next(th) == Some(Commit) && Stop(th).None?
    ensures Judge(th.op, a).None?
    ensures !WholeDatabase(th.op) ==> th.op.db in a && th.seen.db == Some(Some(a[th.op.db].key)) && th.seen.defs == Some(a[th.op.db].defs)
  {
    AtGuarded(PlanFor(th), th.pc);
    VerdictComplete(th.op, th.ids, th.seen, th.taken, a);
  }

  lemma RefuseJustified(kv: Kv<Record>, th: Thread, a: Store, e: Error, th': Thread)
    requires Represents(kv, a) && Sound(th, a) && Refuses(kv, th, e, th')
    ensures Environmental(e) || Judge(th.op, a) == Some(e)
  {
    if Stop(th).Some? && !Environmental(e) {
      StopJustified(th, a);
    } else if !Environmental(e) {
      NeverCorrupt(kv, th, a);
    }
  }

  // ---------------------------------------------------------------------------
  // Commits

  lemma SeenAgrees(seen: Seen, plan: Plan, taken: nat, a: Store)
    requires taken <= LockCount(plan) && Current(seen, plan, taken, a) && plan.db in a
    requires seen.db == Some(Some(a[plan.db].key)) && seen.defs == Some(a[plan.db].defs)
    ensures Agrees(ViewOf(seen), a, plan.db)
  {
  }

  lemma DrawsPermitted(th: Thread, a: Store, c: Choice)
    requires Sound(th, a) && Next(th) == Some(Commit) && Draws(th, c)
    ensures Permitted(th.op, a, c)
  {
    AllSeen(th);
    if th.op.ImportDocs? {
      forall i | 0 <= i < |c.ids| ensures Find(a, th.op.db, c.ids[i]).None? {
        SeenFree(th, a, c.ids[i]);
      }
    } else if th.op.ReplaceDoc? || th.op.PatchDoc? {
      assert th.op.id in IdsOf(PlanFor(th));
      assert Sees(th.seen.docs[th.op.id], Find(a, th.op.db, th.op.id));
    }
  }

  /** At its commit a thread has looked at all its documents. */
  lemma AllSeen(th: Thread)
    requires Placed(th) && Next(th) == Some(Commit)
    ensures forall id :: id in th.seen.docs <==> id in IdsOf(PlanFor(th))
    ensures Kinds(th.op, th.seen.docs) && (th.op.ImportDocs? ==> Drawn(th.op, th.ids))
  {
    AtGuarded(PlanFor(th), th.pc);
    AtCommit(PlanFor(th));
  }

  lemma SeenFree(th: Thread, a: Store, id: bytes)
    requires Sound(th, a) && th.op.ImportDocs? && id in th.seen.docs && Kinds(th.op, th.seen.docs)
    ensures Find(a, th.op.db, id).None?
  {
    assert Sees(th.seen.docs[id], Find(a, th.op.db, id));
  }

  /** A commit does to the key space what the operation does to the store. */
  lemma CommitRefines(kv: Kv<Record>, th: Thread, a: Store, c: Choice, kv': Kv<Record>, th': Thread)
    requires Represents(kv, a) && Sound(th, a) && Commits(kv, th, c, kv', th')
    ensures Judge(th.op, a).None? && Permitted(th.op, a, c) && Represents(kv', Post(th.op, a, c))
  {
    CommitVerdict(th, a);
    DrawsPermitted(th, a, c);
    if !WholeDatabase(th.op) { SeenAgrees(th.seen, PlanFor(th), th.taken, a); }
    var batch :| BatchFor(th.op, ViewOf(th.seen), c, batch) && kv' == Apply(kv, batch);
    CommitRepresents(kv, a, th.op, ViewOf(th.seen), c, batch);
  }

  lemma TouchedIsPlanned(op: Op, ids: seq<bytes>, c: Choice)
    requires op.ImportDocs? ==> c.ids == ids
    ensures Touched(op, c) == set id | id in IdsOf(PlanOf(op, ids))
  {
  }

  /** What another thread has read outlives the commit. */
  lemma CurrentAfterWhole(op: Op, a: Store, c: Choice, seen: Seen, plan: Plan, taken: nat)
    requires WholeDatabase(op) && Judge(op, a).None? && Permitted(op, a, c)
    requires taken <= LockCount(plan) && Current(seen, plan, taken, a) && (taken >= 1 ==> plan.db != op.db)
    ensures Current(seen, plan, taken, Post(op, a, c))
  {
    PostFrameWhole(op, a, c);
    if seen != NOTHING {
      assert plan.db in a <==> plan.db in Post(op, a, c);
      assert forall id :: Find(Post(op, a, c), plan.db, id) == Find(a, plan.db, id);
    }
  }

  lemma CurrentAfterDocs(op: Op, a: Store, c: Choice, seen: Seen, plan: Plan, taken: nat)
    requires !WholeDatabase(op) && Judge(op, a).None? && Permitted(op, a, c)
    requires taken <= LockCount(plan) && Current(seen, plan, taken, a)
    requires plan.db == op.db ==> forall id :: id in seen.docs ==> id !in Touched(op, c)
    ensures Current(seen, plan, taken, Post(op, a, c))
  {
    PostFrame(op, a, c);
    var b := Post(op, a, c);
    assert plan.db in a <==> plan.db in b;
    assert plan.db in a ==> a[plan.db].key == b[plan.db].key && a[plan.db].defs == b[plan.db].defs;
    forall id | id in seen.docs ensures Sees(seen.docs[id], Find(b, plan.db, id)) {
      assert Find(b, plan.db, id) == Find(a, plan.db, id);
    }
  }

  lemma CurrentAfter(th: Thread, a: Store, c: Choice, u: Thread)
    requires Sound(th, a) && Next(th) == Some(Commit) && Draws(th, c) && Sound(u, a)
    requires Judge(th.op, a).None? && Permitted(th.op, a, c)
    requires ValidClaim(ClaimOf(th)) && ValidClaim(ClaimOf(u)) && Apart(ClaimOf(th), ClaimOf(u))
    ensures Sound(u, Post(th.op, a, c))
  {
    AtGuarded(PlanFor(th), th.pc);
    AtCommit(PlanFor(th));
    if WholeDatabase(th.op) {
      if u.taken >= 1 { DatabasesDiffer(ClaimOf(th), ClaimOf(u)); }
      CurrentAfterWhole(th.op, a, c, u.seen, PlanFor(u), u.taken);
    } else {
      if u.op.db == th.op.db { Untouched(th, c, u); }
      CurrentAfterDocs(th.op, a, c, u.seen, PlanFor(u), u.taken);
    }
  }

  lemma Untouched(th: Thread, c: Choice, u: Thread)
    requires ValidClaim(ClaimOf(th)) && ValidClaim(ClaimOf(u)) && Apart(ClaimOf(th), ClaimOf(u))
    requires th.taken == LockCount(PlanFor(th)) && u.op.db == th.op.db && Draws(th, c)
    requires forall id :: id in u.seen.docs ==> Holds(PlanFor(u), u.taken, DocLockOf(u.op.db, id))
    ensures forall id :: id in u.seen.docs ==> id !in Touched(th.op, c)
  {
    TouchedIsPlanned(th.op, th.ids, c);
    forall id | id in u.seen.docs ensures id !in Touched(th.op, c) {
      DocumentsDiffer(ClaimOf(th), ClaimOf(u), id);
    }
  }

  lemma OthersAfter(s: State, a: Store, t: Tid, c: Choice, u: Tid)
    requires Good(s, a) && t in s.threads && u in s.threads && u != t
    requires Next(s.threads[t]) == Some(Commit) && Draws(s.threads[t], c)
    requires Judge(s.threads[t].op, a).None? && Permitted(s.threads[t].op, a, c)
    ensures Sound(s.threads[u], Post(s.threads[t].op, a, c))
  {
    assert Apart(ClaimsOf(s)[t], ClaimsOf(s)[u]);
    PlacedClaim(s.threads[t]);
    PlacedClaim(s.threads[u]);
    CurrentAfter(s.threads[t], a, c, s.threads[u]);
  }

  /** A finished thread has nothing left that a write could make untrue. */
  lemma FinishedSound(th: Thread, a: Store, b: Store)
    requires Sound(th, a) && th.phase.Finished?
    ensures Sound(th, b)
  {
  }

  lemma AllAfter(s: State, a: Store, t: Tid, c: Choice, s': State)
    requires Good(s, a) && t in s.threads && t in s'.threads && s'.threads == s.threads[t := s'.threads[t]]
    requires Next(s.threads[t]) == Some(Commit) && Draws(s.threads[t], c)
    requires Judge(s.threads[t].op, a).None? && Permitted(s.threads[t].op, a, c)
    requires Sound(s'.threads[t], Post(s.threads[t].op, a, c))
    ensures forall u :: u in s'.threads ==> Sound(s'.threads[u], Post(s.threads[t].op, a, c))
  {
    forall u | u in s'.threads ensures Sound(s'.threads[u], Post(s.threads[t].op, a, c)) {
      if u != t { OthersAfter(s, a, t, c, u); }
    }
  }

  lemma CommitStep(s: State, a: Store, t: Tid, c: Choice, s': State)
    requires Good(s, a) && t in s.threads && t in s'.threads && s'.threads == s.threads[t := s'.threads[t]]
    requires Commits(s.kv, s.threads[t], c, s'.kv, s'.threads[t])
    ensures Judge(s.threads[t].op, a).None? && Permitted(s.threads[t].op, a, c)
    ensures Good(s', Post(s.threads[t].op, a, c))
  {
    var th, th' := s.threads[t], s'.threads[t];
    CommitRefines(s.kv, th, a, c, s'.kv, th');
    var b := Post(th.op, a, c);
    FinishSound(th, a, Done);
    FinishedSound(th', a, b);
    AllAfter(s, a, t, c, s');
    QuietClaims(s, t, s');
  }

  lemma QuietClaims(s: State, t: Tid, s': State)
    requires ValidClaims(ClaimsOf(s)) && Exclusive(ClaimsOf(s)) && t in s.threads
    requires t in s'.threads && s'.threads == s.threads[t := s'.threads[t]]
    requires Placed(s.threads[t]) && Placed(s'.threads[t]) && Lighter(s.threads[t], s'.threads[t])
    ensures ValidClaims(ClaimsOf(s')) && Exclusive(ClaimsOf(s'))
  {
    FewerLocks(s.threads[t], s'.threads[t]);
    ClaimsUpdate(s, s', t);
    FewerExclusive(ClaimsOf(s), t, ClaimOf(s'.threads[t]));
  }

  // ---------------------------------------------------------------------------
  // Every step

  /** What an event does to the store. */
  ghost predicate Follows(e: Event, a: Store, b: Store) {
    match e
    case Silent => b == a
    case Committed(op, c) => WellFormed(op) && Atomic(op, a, c, b)
    case Failed(op, error) => b == a && (Environmental(error) || Judge(op, a) == Some(error))
  }

  function After(e: Event, a: Store): Store
    requires e.Committed? ==> Judge(e.op, a).None? && Permitted(e.op, a, e.choice)
  {
    if e.Committed? then Post(e.op, a, e.choice) else a
  }

  lemma LightStep(s: State, a: Store, t: Tid, s': State)
    requires Good(s, a) && t in s.threads && t in s'.threads && s'.threads == s.threads[t := s'.threads[t]] && s'.kv == s.kv
    requires Sound(s'.threads[t], a) && Lighter(s.threads[t], s'.threads[t])
    ensures Good(s', a)
  {
    QuietClaims(s, t, s');
    ClaimsUpdate(s, s', t);
    GoodUpdate(s, a, t, s');
  }

  lemma SilentStep(s: State, a: Store, t: Tid, s': State)
    requires Good(s, a) && Step(s, t, Silent, s')
    ensures Good(s', a)
  {
    if t !in s.threads {
      SpawnStep(s, a, t, s');
    } else if Locks(ClaimsOf(s), t, s.threads[t], s'.threads[t]) {
      LockStep(s, a, t, s');
    } else {
      if Executes(s.kv, s.threads[t], s'.threads[t]) {
        ExecutesSound(s.kv, s.threads[t], a, s'.threads[t]);
      } else {
        UnlocksSound(s.threads[t], a, s'.threads[t]);
      }
      LightStep(s, a, t, s');
    }
  }

  /** Each step of any thread is a step of the store, or none at all. */
  lemma StepRefines(s: State, a: Store, t: Tid, e: Event, s': State)
    requires Good(s, a) && Step(s, t, e, s')
    ensures e.Committed? ==> Judge(e.op, a).None? && Permitted(e.op, a, e.choice)
    ensures Follows(e, a, After(e, a)) && Good(s', After(e, a))
  {
    match e {
      case Silent => SilentStep(s, a, t, s');
      case Committed(op, c) => CommitStep(s, a, t, c, s');
      case Failed(op, error) =>
        RefuseJustified(s.kv, s.threads[t], a, error, s'.threads[t]);
        FinishSound(s.threads[t], a, Refused(error));
        LightStep(s, a, t, s');
    }
  }
}

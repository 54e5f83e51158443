/**
 Any number of operations at once, those that write and those that only read. A thread runs the program of its operation one
 instruction at a time, in any interleaving with the others; reads look at the key space as it is at
 that moment, and the only write is the commit of one batch.
 */
module Machine {
  import opened Bytes
  import opened Picks
  import opened Json
  import opened KeyValue
  import opened Names
  import opened Catalog
  import opened Definitions
  import opened Operations
  import opened Engine
  import opened Programs
  import opened Locking
  import Keys

  /** What a thread finds in a document's place. An operation that creates documents does not look inside. */
  datatype Sighting = Free | Occupied | Holding(doc: Doc)

  /** What a thread has read so far. The database may have been found missing. */
  datatype Seen = Seen(db: Option<Option<SecretKey>>, defs: Option<Defs>, docs: map<bytes, Sighting>)

  const NOTHING: Seen := Seen(None, None, map[])

  /** A retrying import gives up its document locks to draw other identifiers. */
  datatype Phase = Running | Retrying | Finished(outcome: Outcome)

  datatype Thread = Thread(op: Op, ids: seq<bytes>, pc: nat, taken: nat, announced: bool, seen: Seen, phase: Phase)

  datatype State = State(kv: Kv<Record>, threads: map<Tid, Thread>)

  function PlanOf(op: Op, ids: seq<bytes>): (plan: Plan)
    ensures plan.db == op.db
  {
    if WholeDatabase(op) then Whole(op.db)
    else if op.Observe? then Shared(op.db)
    else if op.ImportDocs? then Many(op.db, ids)
    else One(op.db, op.id)
  }

  function PlanFor(th: Thread): Plan {
    PlanOf(th.op, th.ids)
  }

  function ClaimOf(th: Thread): Claim {
    Claim(PlanFor(th), th.taken, Next(th) == Some(Acquire), th.announced)
  }

  function ClaimsOf(s: State): Claims {
    map t | t in s.threads :: ClaimOf(s.threads[t])
  }

  /** The instruction a running thread is at. */
  function Next(th: Thread): Option<Instr> {
    if th.phase.Running? && th.pc <= CommitPc(PlanFor(th)) then Some(At(PlanFor(th), th.pc)) else None
  }

  // ---------------------------------------------------------------------------
  // What a thread makes of what it has read

  function JudgeSeenDoc(op: Op, seen: Seen): Option<Error>
    requires op.ReplaceDoc? || op.PatchDoc? || op.DeleteDoc?
  {
    if seen.db == Some(None) then Some(DocNotFound)
    else if op.id !in seen.docs then None
    else
      match seen.docs[op.id]
      case Free => Some(DocNotFound)
      case Occupied => None
      case Holding(doc) =>
        if !MatchRevision(op.cond, doc.rev) then Some(PreconditionFailed)
        else if op.DeleteDoc? then None
        else JudgeSeenChange(NewJson(op, doc.json), seen.defs)
  }

  function JudgeSeenChange(json: Option<Json>, defs: Option<Defs>): Option<Error> {
    if json.None? then Some(InvalidPatch)
    else if defs.Some? && !Accepts(json.value, defs.value) then Some(InvalidIndexValue)
    else None
  }

  /** The reason to stop here. An import computes index values only when it fills its batch. */
  function Verdict(op: Op, seen: Seen, committing: bool): Option<Error> {
    match op
    case CreateDb(_, defs) =>
      if !ValidList(defs) then Some(InvalidIndex)
      else if seen.db.Some? && seen.db.value.Some? then Some(DbExists) else None
    case DeleteDb(_) => if seen.db == Some(None) then Some(DbNotFound) else None
    case Observe(_) => if seen.db == Some(None) then Some(DbNotFound) else None
    case CreateDoc(_, id, json) =>
      if seen.db == Some(None) then Some(DbNotFound)
      else if id in seen.docs && seen.docs[id] != Free then Some(DocExists)
      else if seen.defs.Some? && !Accepts(json, seen.defs.value) then Some(InvalidIndexValue)
      else None
    case ImportDocs(_, documents) =>
      if seen.db == Some(None) then Some(DbNotFound)
      else if committing && seen.defs.Some? && exists i :: 0 <= i < |documents| && !Accepts(documents[i], seen.defs.value)
      then Some(InvalidIndexValue)
      else None
    case DeleteDoc(_, _, _) => JudgeSeenDoc(op, seen)
    case ReplaceDoc(_, _, _, _) => JudgeSeenDoc(op, seen)
    case PatchDoc(_, _, _, _) => JudgeSeenDoc(op, seen)
  }

  function Stop(th: Thread): Option<Error> {
    Verdict(th.op, th.seen, Next(th) == Some(Commit))
  }

  /** Failures that do not depend on what the store holds. */
  predicate Environmental(e: Error) {
    e.Unavailable? || e.BulkLimit?
  }

  /** Whether the operation opens the document or only looks whether there is one. */
  predicate Creates(op: Op) {
    op.CreateDoc? || op.ImportDocs?
  }

  /** What is found in a document's place; none if the record is broken. */
  function Look(op: Op, kv: Kv<Record>, key: SecretKey, id: bytes): Option<Sighting> {
    if Creates(op) then Some(if Keys.Encode(Keys.DocKey(op.db, id)) in kv then Occupied else Free)
    else
      match ReadDoc(kv, op.db, id, key)
      case Missing => Some(Free)
      case Found(doc) => Some(Holding(doc))
      case Broken => None
  }

  /** The definitions of a database as the key space has them. */
  ghost predicate DefsStored(kv: Kv<Record>, db: bytes, defs: Defs) {
    && (forall index :: index in defs ==> ValidName(index))
    && forall index :: ValidName(index) ==>
                         Get(kv, Keys.Encode(Keys.DefKey(db, index))) == (if index in defs then Some(DefRecord(defs[index])) else None)
  }

  predicate Drawn(op: Op, ids: seq<bytes>)
    requires op.ImportDocs?
  {
    |ids| == |op.documents| && Distinct(ids) && forall i :: 0 <= i < |ids| ==> ValidId(ids[i])
  }

  // ---------------------------------------------------------------------------
  // Steps of one thread

  function Advance(th: Thread): Thread {
    th.(pc := th.pc + 1)
  }

  function Finish(th: Thread, outcome: Outcome): Thread {
    th.(phase := Finished(outcome), seen := NOTHING)
  }

  ghost predicate ReadsDatabase(kv: Kv<Record>, th: Thread, th': Thread) {
    var r := ReadDbKey(kv, th.op.db);
    && !r.Broken?
    && th' == Advance(th).(seen := th.seen.(db := Some(if r.Found? then Some(r.value) else None)))
  }

  ghost predicate ReadsDefinitions(kv: Kv<Record>, th: Thread, th': Thread) {
    exists defs :: DefsStored(kv, th.op.db, defs) && th' == Advance(th).(seen := th.seen.(defs := Some(defs)))
  }

  ghost predicate ReadsDocument(kv: Kv<Record>, th: Thread, id: bytes, th': Thread) {
    && th.seen.db.Some? && th.seen.db.value.Some?
    && var sight := Look(th.op, kv, th.seen.db.value.value, id);
       && sight.Some?
       && th' == if th.op.ImportDocs? && sight != Some(Free) then th.(phase := Retrying, seen := th.seen.(docs := map[]))
                 else Advance(th).(seen := th.seen.(docs := th.seen.docs[id := sight.value]))
  }

  ghost predicate DrawsIds(th: Thread, th': Thread) {
    th.op.ImportDocs? && exists ids :: Drawn(th.op, ids) && th' == Advance(th).(ids := ids)
  }

  /** The next instruction, when it neither takes a lock nor commits. */
  ghost predicate Executes(kv: Kv<Record>, th: Thread, th': Thread) {
    && Next(th).Some? && Stop(th).None?
    && match Next(th).value
       case Validate => th' == Advance(th)
       case Acquire => false
       case ReadDatabase => ReadsDatabase(kv, th, th')
       case ReadDefinitions => ReadsDefinitions(kv, th, th')
       case ReadDocument(id) => ReadsDocument(kv, th, id, th')
       case DrawIds => DrawsIds(th, th')
       case Commit => false
  }

  /** Takes the next lock, or announces the writer that will. */
  ghost predicate Locks(cs: Claims, t: Tid, th: Thread, th': Thread) {
    && Next(th) == Some(Acquire) && ValidClaims(cs) && t in cs && !Blocked(cs, t)
    && th' == if WholeDatabase(th.op) && !th.announced then th.(announced := true)
              else Advance(th).(taken := th.taken + 1, announced := false)
  }

  /** Gives up the last lock taken, after the end or before an import draws again. */
  ghost predicate Unlocks(th: Thread, th': Thread) {
    || (th.phase.Finished? && th.taken > 0 && th' == th.(taken := th.taken - 1))
    || (th.phase.Retrying? && th.taken > 1 && th' == th.(taken := th.taken - 1))
    || (th.phase.Retrying? && th.taken <= 1 && th' == th.(phase := Running, pc := DRAW_PC, ids := []))
  }

  /** A record the thread needs cannot be read, or the index does not take a document that is stored. */
  ghost predicate FindsCorruption(kv: Kv<Record>, th: Thread)
    requires Next(th).Some?
  {
    match Next(th).value
    case ReadDatabase => ReadDbKey(kv, th.op.db).Broken?
    case ReadDefinitions => forall defs :: !DefsStored(kv, th.op.db, defs)
    case ReadDocument(id) => th.seen.db.Some? && th.seen.db.value.Some? && Look(th.op, kv, th.seen.db.value.value, id).None?
    case Commit =>
      exists id :: id in th.seen.docs && th.seen.docs[id].Holding? && !Accepts(th.seen.docs[id].doc.json, ViewOf(th.seen).defs)
    case _ => false
  }

  ghost predicate Refuses(kv: Kv<Record>, th: Thread, e: Error, th': Thread) {
    && Next(th).Some? && Next(th) != Some(Acquire)
    && (Stop(th) == Some(e) || Environmental(e) || (e.CorruptData? && Stop(th).None? && FindsCorruption(kv, th)))
    && th' == Finish(th, Refused(e))
  }

  function ViewOf(seen: Seen): View {
    View(
      if seen.db.Some? && seen.db.value.Some? then seen.db.value.value else 0,
      if seen.defs.Some? then seen.defs.value else map[],
      map id | id in seen.docs && seen.docs[id].Holding? :: Some(seen.docs[id].doc))
  }

  /** The random draws of a commit: a revision that is new to the document seen. */
  predicate Draws(th: Thread, c: Choice) {
    match th.op
    case ImportDocs(_, documents) => c.ids == th.ids && |c.revs| == |documents|
    case ReplaceDoc(_, id, _, _) => NewRevision(th.seen, id, c.rev)
    case PatchDoc(_, id, _, _) => NewRevision(th.seen, id, c.rev)
    case _ => true
  }

  predicate NewRevision(seen: Seen, id: bytes, rev: Revision) {
    id in seen.docs && seen.docs[id].Holding? ==> rev != seen.docs[id].doc.rev
  }

  ghost predicate Commits(kv: Kv<Record>, th: Thread, c: Choice, kv': Kv<Record>, th': Thread) {
    && Next(th) == Some(Commit) && Stop(th).None? && Draws(th, c)
    && (exists batch :: BatchFor(th.op, ViewOf(th.seen), c, batch) && kv' == Apply(kv, batch))
    && th' == Finish(th, Done)
  }

  // ---------------------------------------------------------------------------
  // Steps of the machine

  datatype Event =
    | Silent
    | Committed(op: Op, choice: Choice)
    | Failed(op: Op, error: Error)

  function StartPc(op: Op): nat {
    if op.DeleteDb? then 1 else 0
  }

  ghost predicate Starts(th: Thread) {
    WellFormed(th.op) && th == Thread(th.op, [], StartPc(th.op), 0, false, NOTHING, Running)
  }

  ghost predicate Step(s: State, t: Tid, e: Event, s': State) {
    && t in s'.threads && s'.threads == s.threads[t := s'.threads[t]]
    && var th' := s'.threads[t];
       if t !in s.threads then e.Silent? && s'.kv == s.kv && Starts(th')
       else
         var th := s.threads[t];
         match e
         case Silent => s'.kv == s.kv && (Executes(s.kv, th, th') || Locks(ClaimsOf(s), t, th, th') || Unlocks(th, th'))
         case Committed(op, c) => op == th.op && Commits(s.kv, th, c, s'.kv, th')
         case Failed(op, error) => s'.kv == s.kv && op == th.op && Refuses(s.kv, th, error, th')
  }

  // ---------------------------------------------------------------------------
  // The invariant

  /** Where a thread can be, what it holds and what it has read there. */
  ghost predicate Placed(th: Thread) {
    && WellFormed(th.op)
    && (th.op.ImportDocs? && th.ids != [] ==> Drawn(th.op, th.ids))
    && (th.announced ==> th.phase.Running?)
    && match th.phase
       case Running => PlacedRunning(th, PlanFor(th))
       case Retrying =>
         && th.op.ImportDocs? && 1 <= th.taken <= LockCount(PlanFor(th))
         && th.seen.db.Some? && th.seen.defs.Some? && th.seen.docs == map[]
       case Finished(_) => th.taken <= LockCount(PlanFor(th)) && th.seen == NOTHING
  }

  ghost predicate PlacedRunning(th: Thread, plan: Plan)
    requires plan == PlanFor(th)
  {
    && PlacedAt(plan, th.pc, th.taken, th.announced, th.seen)
    && (th.op.ImportDocs? ==> (if th.pc <= DRAW_PC then th.ids == [] else Drawn(th.op, th.ids)))
    && Kinds(th.op, th.seen.docs)
  }

  /** Holds the locks, and has seen what is to be seen, at this place. */
  predicate PlacedAt(plan: Plan, pc: nat, taken: nat, announced: bool, seen: Seen) {
    && pc <= CommitPc(plan)
    && taken == TakenAt(plan, pc)
    && (announced ==> plan.Whole? && At(plan, pc).Acquire?)
    && HasSeen(plan, pc, seen)
  }

  /** A thread has seen what the instructions before its place read. */
  predicate HasSeen(plan: Plan, pc: nat, seen: Seen)
    requires pc <= CommitPc(plan)
  {
    && (seen.db.Some? <==> HasReadDatabase(plan, pc))
    && (seen.defs.Some? <==> HasReadDefinitions(plan, pc))
    && seen.docs.Keys == (set id | id in ReadAt(plan, pc))
  }

  /** What an operation can have found in the places it has looked at and gone on. */
  predicate Kinds(op: Op, docs: map<bytes, Sighting>) {
    && (Creates(op) ==> forall id :: id in docs ==> !docs[id].Holding?)
    && (!Creates(op) ==> forall id :: id in docs ==> !docs[id].Occupied?)
    && (op.ImportDocs? ==> forall id :: id in docs ==> docs[id].Free?)
  }

  predicate Sees(sight: Sighting, doc: Option<Doc>) {
    match sight
    case Free => doc.None?
    case Occupied => doc.Some?
    case Holding(d) => doc == Some(d)
  }

  /** Everything a thread has read is still so, and is guarded by a lock it holds. */
  ghost predicate Current(seen: Seen, plan: Plan, taken: nat, a: Store)
    requires taken <= LockCount(plan)
  {
    && (seen != NOTHING ==> taken >= 1)
    && (seen.db.Some? ==> seen.db.value == (if plan.db in a then Some(a[plan.db].key) else None))
    && (seen.defs.Some? ==> plan.db in a && seen.defs.value == a[plan.db].defs)
    && (forall id :: id in seen.docs ==> Sees(seen.docs[id], Find(a, plan.db, id)))
    && (forall id :: id in seen.docs ==> Holds(plan, taken, DocLockOf(plan.db, id)))
  }

  ghost predicate Sound(th: Thread, a: Store) {
    && Placed(th)
    && th.taken <= LockCount(PlanFor(th))
    && Current(th.seen, PlanFor(th), th.taken, a)
  }

  ghost predicate Good(s: State, a: Store) {
    && Represents(s.kv, a)
    && (forall t :: t in s.threads ==> Sound(s.threads[t], a))
    && ValidClaims(ClaimsOf(s)) && Exclusive(ClaimsOf(s))
  }

  lemma PlacedClaim(th: Thread)
    requires Placed(th)
    ensures ValidClaim(ClaimOf(th))
  {
    if th.phase.Running? {
      AtGuarded(PlanFor(th), th.pc);
    }
  }
}

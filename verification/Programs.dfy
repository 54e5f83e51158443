/**
 The order in which an operation takes its locks, reads and commits. Locks are released in
 the opposite order when an operation returns, so what a thread holds is always the first
 so many of the locks its plan takes.
 */
module Programs {
  import opened Bytes
  import opened Stripes

  /** A database stripe held for reading or for writing, or a document stripe. */
  datatype Lock = DbRead(stripe: nat) | DbWrite(stripe: nat) | DocLock(stripe: nat)

  /** Database locks come before document locks, and those in the order of their stripes. */
  function Rank(l: Lock): nat {
    if l.DocLock? then 1 + l.stripe else 0
  }

  /** Two threads cannot hold both: a write lock excludes every other lock on its stripe, a mutex itself. */
  predicate Conflict(l: Lock, m: Lock) {
    && l.stripe == m.stripe
    && (l.DocLock? <==> m.DocLock?)
    && !(l.DbRead? && m.DbRead?)
  }

  /** What an operation locks: a whole database, a database it only reads, one document, or the documents an import creates. */
  datatype Plan =
    | Whole(db: bytes)
    | Shared(db: bytes)
    | One(db: bytes, id: bytes)
    | Many(db: bytes, ids: seq<bytes>)

  datatype Instr =
    | Validate
    | Acquire
    | ReadDatabase
    | ReadDefinitions
    | ReadDocument(id: bytes)
    | DrawIds
    | Commit

  function DbLockOf(plan: Plan): Lock {
    if plan.Whole? then DbWrite(DbStripe(plan.db)) else DbRead(DbStripe(plan.db))
  }

  function DocLockOf(db: bytes, id: bytes): Lock {
    DocLock(DocStripe(db, id))
  }

  /** The document stripes a plan locks, in the order it locks them. */
  function DocStripes(plan: Plan): (stripes: seq<nat>)
    ensures forall i :: 0 <= i < |stripes| ==> stripes[i] < DOC_STRIPES
    ensures forall i, j :: 0 <= i < j < |stripes| ==> stripes[i] < stripes[j]
  {
    match plan
    case Whole(_) => []
    case Shared(_) => []
    case One(db, id) => [DocStripe(db, id)]
    case Many(db, ids) => StripesOf(db, ids)
  }

  function LockCount(plan: Plan): nat {
    1 + |DocStripes(plan)|
  }

  /** The lock a plan takes after `i` others. */
  function LockAt(plan: Plan, i: nat): Lock
    requires i < LockCount(plan)
  {
    LockIn(DbLockOf(plan), DocStripes(plan), i)
  }

  function LockIn(first: Lock, stripes: seq<nat>, i: nat): Lock
    requires i <= |stripes|
  {
    if i == 0 then first else DocLock(stripes[i - 1])
  }

  /** One of the first `taken` locks of a plan. */
  predicate Holds(plan: Plan, taken: nat, l: Lock)
    requires taken <= LockCount(plan)
  {
    HoldsIn(DbLockOf(plan), DocStripes(plan), taken, l)
  }

  predicate HoldsIn(first: Lock, stripes: seq<nat>, taken: nat, l: Lock)
    requires taken <= 1 + |stripes|
  {
    exists i :: 0 <= i < taken && LockIn(first, stripes, i) == l
  }

  lemma HoldsMoreIn(first: Lock, stripes: seq<nat>, taken: nat, l: Lock)
    requires taken <= |stripes|
    ensures HoldsIn(first, stripes, taken + 1, l) <==> HoldsIn(first, stripes, taken, l) || l == LockIn(first, stripes, taken)
  {
    if HoldsIn(first, stripes, taken, l) {
      var i :| 0 <= i < taken && LockIn(first, stripes, i) == l;
      assert 0 <= i < taken + 1;
    }
    assert 0 <= taken < taken + 1;
  }

  // The places of an import's program.
  const DRAW_PC: nat := 3
  const LOCK_PC: nat := 4

  /** Where the program commits. */
  function CommitPc(plan: Plan): nat {
    match plan
    case Whole(_) => 3
    case Shared(_) => 3
    case One(_, _) => 5
    case Many(_, ids) => LOCK_PC + |DocStripes(plan)| + |ids|
  }

  /** The instruction at a place in the program of a plan. */
  function At(plan: Plan, pc: nat): Instr
    requires pc <= CommitPc(plan)
  {
    match plan
    case Whole(_) => [Validate, Acquire, ReadDatabase, Commit][pc]
    case Shared(_) => [Acquire, ReadDatabase, ReadDefinitions, Commit][pc]
    case One(_, id) => [Acquire, Acquire, ReadDatabase, ReadDocument(id), ReadDefinitions, Commit][pc]
    case Many(_, ids) =>
      if pc < LOCK_PC then [Acquire, ReadDatabase, ReadDefinitions, DrawIds][pc]
      else if pc < LOCK_PC + |DocStripes(plan)| then Acquire
      else if pc < CommitPc(plan) then ReadDocument(ids[pc - LOCK_PC - |DocStripes(plan)|])
      else Commit
  }

  /** How many locks are held before the instruction. */
  function TakenAt(plan: Plan, pc: nat): (taken: nat)
    requires pc <= CommitPc(plan)
    ensures taken <= LockCount(plan)
  {
    match plan
    case Whole(_) => if pc <= 1 then 0 else 1
    case Shared(_) => if pc == 0 then 0 else 1
    case One(_, _) => if pc <= 2 then pc else 2
    case Many(_, _) =>
      if pc == 0 then 0
      else if pc <= LOCK_PC then 1
      else if pc <= LOCK_PC + |DocStripes(plan)| then pc - DRAW_PC
      else LockCount(plan)
  }

  /** The identifiers of the documents looked at before the instruction. */
  function ReadAt(plan: Plan, pc: nat): seq<bytes>
    requires pc <= CommitPc(plan)
  {
    match plan
    case Whole(_) => []
    case Shared(_) => []
    case One(_, id) => if pc <= 3 then [] else [id]
    case Many(_, ids) =>
      if pc <= LOCK_PC + |DocStripes(plan)| then [] else ids[..pc - LOCK_PC - |DocStripes(plan)|]
  }

  /** The identifiers of the documents a plan is about. */
  function IdsOf(plan: Plan): seq<bytes> {
    match plan
    case Whole(_) => []
    case Shared(_) => []
    case One(_, id) => [id]
    case Many(_, ids) => ids
  }

  predicate HasReadDatabase(plan: Plan, pc: nat) {
    pc > (if plan.Many? || plan.Shared? then 1 else 2)
  }

  predicate HasReadDefinitions(plan: Plan, pc: nat) {
    !plan.Whole? && pc > (if plan.Many? || plan.Shared? then 2 else 4)
  }

  // ---------------------------------------------------------------------------
  // What every program keeps to

  /** Each step leaves behind what the next place in the program relies on. */
  lemma AtNext(plan: Plan, pc: nat)
    requires pc < CommitPc(plan)
    ensures !At(plan, pc).Commit?
    ensures TakenAt(plan, pc + 1) == TakenAt(plan, pc) + (if At(plan, pc).Acquire? then 1 else 0)
    ensures ReadAt(plan, pc + 1) == ReadAt(plan, pc) + (if At(plan, pc).ReadDocument? then [At(plan, pc).id] else [])
    ensures HasReadDatabase(plan, pc + 1) <==> HasReadDatabase(plan, pc) || At(plan, pc).ReadDatabase?
    ensures HasReadDefinitions(plan, pc + 1) <==> HasReadDefinitions(plan, pc) || At(plan, pc).ReadDefinitions?
  {
    TakenNext(plan, pc);
    ReadNext(plan, pc);
    assert At(plan, pc).ReadDatabase? <==> pc == (if plan.Many? || plan.Shared? then 1 else 2);
    assert At(plan, pc).ReadDefinitions? <==> !plan.Whole? && pc == (if plan.Many? || plan.Shared? then 2 else 4);
  }

  lemma TakenNext(plan: Plan, pc: nat)
    requires pc < CommitPc(plan)
    ensures TakenAt(plan, pc + 1) == TakenAt(plan, pc) + (if At(plan, pc).Acquire? then 1 else 0)
  {
  }

  lemma ReadNext(plan: Plan, pc: nat)
    requires pc < CommitPc(plan)
    ensures ReadAt(plan, pc + 1) == ReadAt(plan, pc) + (if At(plan, pc).ReadDocument? then [At(plan, pc).id] else [])
  {
    if plan.Many? { ReadNextMany(plan, pc, |DocStripes(plan)|); }
  }

  lemma ReadNextMany(plan: Plan, pc: nat, n: nat)
    requires plan.Many? && n == |DocStripes(plan)| && pc < CommitPc(plan)
    ensures ReadAt(plan, pc + 1) == ReadAt(plan, pc) + (if At(plan, pc).ReadDocument? then [At(plan, pc).id] else [])
  {
    if pc >= LOCK_PC + n {
      var k := pc - LOCK_PC - n;
      PrefixNext(plan.ids, k);
      assert At(plan, pc) == ReadDocument(plan.ids[k]);
    }
  }

  lemma PrefixNext(ids: seq<bytes>, k: nat)
    requires k < |ids|
    ensures ids[..k + 1] == ids[..k] + [ids[k]]
  {
  }

  /** At the commit every lock is held and everything has been read. */
  lemma AtCommit(plan: Plan)
    ensures var pc := CommitPc(plan);
            && At(plan, pc).Commit? && TakenAt(plan, pc) == LockCount(plan)
            && ReadAt(plan, pc) == IdsOf(plan) && HasReadDatabase(plan, pc)
            && (!plan.Whole? ==> HasReadDefinitions(plan, pc))
  {
  }

  /** Nothing is read without the database lock; no document without its lock and the database's key. */
  lemma AtGuarded(plan: Plan, pc: nat)
    requires pc <= CommitPc(plan)
    ensures var i := At(plan, pc);
            && (i.ReadDatabase? || i.ReadDefinitions? || i.ReadDocument? || i.Commit? ==> TakenAt(plan, pc) >= 1)
            && (i.ReadDefinitions? || i.ReadDocument? || i.DrawIds? || i.Commit? ==> HasReadDatabase(plan, pc))
            && (i.ReadDocument? ==> TakenAt(plan, pc) == LockCount(plan) && i.id in IdsOf(plan))
            && (i.Acquire? ==> TakenAt(plan, pc) < LockCount(plan))
            && (i.Commit? <==> pc == CommitPc(plan))
  {
  }

  /** The locks of a plan rise, the database lock first. */
  lemma LocksAscend(plan: Plan, i: nat, j: nat)
    requires i < j < LockCount(plan)
    ensures Rank(LockAt(plan, i)) < Rank(LockAt(plan, j)) <= DOC_STRIPES
  {
  }

  /** A plan that holds all its locks holds those of its documents. */
  lemma HoldsDocument(plan: Plan, id: bytes)
    requires id in IdsOf(plan)
    ensures Holds(plan, LockCount(plan), DocLockOf(plan.db, id))
  {
    var stripe := DocStripe(plan.db, id);
    StripeTaken(plan, id);
    var i :| 0 <= i < |DocStripes(plan)| && DocStripes(plan)[i] == stripe;
    assert LockAt(plan, i + 1) == DocLockOf(plan.db, id);
  }

  lemma StripeTaken(plan: Plan, id: bytes)
    requires id in IdsOf(plan)
    ensures DocStripe(plan.db, id) in DocStripes(plan)
  {
    if plan.Many? {
      var i :| 0 <= i < |plan.ids| && plan.ids[i] == id;
      assert DocStripe(plan.db, plan.ids[i]) in StripesOf(plan.db, plan.ids);
    }
  }

  lemma HoldsDatabase(plan: Plan, taken: nat)
    requires 1 <= taken <= LockCount(plan)
    ensures Holds(plan, taken, DbLockOf(plan))
  {
    assert LockAt(plan, 0) == DbLockOf(plan);
  }
}

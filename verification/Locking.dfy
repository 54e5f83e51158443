/**
 Who holds and who waits for which lock. A database stripe is a readers-writer lock on which a
 waiting writer shuts out new readers: a writer first announces itself, which one writer at a time can do,
 and enters when the readers are gone. A document stripe is a mutex.
 */
module Locking {
  import opened Bytes
  import opened Stripes
  import opened Programs

  type Tid = nat

  /** A thread as the locks see it. It holds the first `taken` locks of its plan and may be waiting for the next. */
  datatype Claim = Claim(plan: Plan, taken: nat, waiting: bool, announced: bool)

  type Claims = map<Tid, Claim>

  predicate ValidClaim(c: Claim) {
    && c.taken <= LockCount(c.plan)
    && (c.waiting ==> c.taken < LockCount(c.plan))
    && (c.announced ==> c.waiting && c.taken == 0 && c.plan.Whole?)
  }

  predicate ValidClaims(cs: Claims) {
    forall t :: t in cs ==> ValidClaim(cs[t])
  }

  predicate Has(c: Claim, l: Lock)
    requires ValidClaim(c)
  {
    Holds(c.plan, c.taken, l)
  }

  /** The lock a waiting thread waits for. */
  function Wanted(c: Claim): Lock
    requires ValidClaim(c) && c.waiting
  {
    LockAt(c.plan, c.taken)
  }

  /** Holds the stripe's writer slot, as the writer that is in or as the one that is announced. */
  predicate Writer(c: Claim, stripe: nat)
    requires ValidClaim(c)
  {
    Has(c, DbWrite(stripe)) || (c.announced && DbStripe(c.plan.db) == stripe)
  }

  /** Whether `d` stands in the way of the next lock step of `c`. */
  predicate Obstructs(d: Claim, c: Claim)
    requires ValidClaim(c) && ValidClaim(d) && c.waiting
  {
    var l := Wanted(c);
    if l.DocLock? then Has(d, l)
    else if c.announced then Has(d, DbRead(l.stripe))
    else Writer(d, l.stripe)
  }

  predicate Blocked(cs: Claims, t: Tid)
    requires ValidClaims(cs) && t in cs
  {
    cs[t].waiting && exists u :: u in cs && u != t && Obstructs(cs[u], cs[t])
  }

  // ---------------------------------------------------------------------------
  // Deadlock freedom

  /** A thread that others may have to wait for. */
  predicate Engaged(c: Claim) {
    c.taken > 0 || c.announced
  }

  /** Falls from a waiting thread to one that it waits for. */
  function Depth(c: Claim): (n: nat)
    requires ValidClaim(c)
  {
    if !c.waiting then 0
    else
      WantedRank(c);
      2 * (DOC_STRIPES + 1 - Rank(Wanted(c))) + (if c.announced then 0 else 1)
  }

  lemma WantedRank(c: Claim)
    requires ValidClaim(c) && c.waiting
    ensures Rank(Wanted(c)) <= DOC_STRIPES
    ensures forall i :: 0 <= i < c.taken ==> Rank(LockAt(c.plan, i)) < Rank(Wanted(c))
  {
    forall i | 0 <= i < c.taken ensures Rank(LockAt(c.plan, i)) < Rank(Wanted(c)) {
      LocksAscend(c.plan, i, c.taken);
    }
    if c.taken > 0 { LocksAscend(c.plan, 0, c.taken); }
  }

  lemma HeldBelowWanted(c: Claim, l: Lock)
    requires ValidClaim(c) && c.waiting && Has(c, l)
    ensures Rank(l) < Rank(Wanted(c))
  {
    WantedRank(c);
  }

  lemma ObstructorIsNearer(c: Claim, d: Claim)
    requires ValidClaim(c) && ValidClaim(d) && c.waiting && Obstructs(d, c)
    ensures Depth(d) < Depth(c) && Engaged(d)
  {
    WantedRank(c);
    var l := Wanted(c);
    if d.waiting {
      WantedRank(d);
      if l.DocLock? {
        HeldBelowWanted(d, l);
      } else if c.announced {
        HeldBelowWanted(d, DbRead(l.stripe));
      } else if Has(d, DbWrite(l.stripe)) {
        HeldBelowWanted(d, DbWrite(l.stripe));
      }
    }
  }

  /** Following who waits for whom ends at a thread that is not blocked. */
  lemma {:induction false} FindRunnable(cs: Claims, t: Tid) returns (u: Tid)
    requires ValidClaims(cs) && t in cs
    ensures u in cs && !Blocked(cs, u)
    ensures u == t || Engaged(cs[u])
    decreases Depth(cs[t])
  {
    u := t;
    if Blocked(cs, t) {
      var v :| v in cs && v != t && Obstructs(cs[v], cs[t]);
      ObstructorIsNearer(cs[t], cs[v]);
      u := FindRunnable(cs, v);
    }
  }

  // ---------------------------------------------------------------------------
  // Mutual exclusion

  ghost predicate Apart(c: Claim, d: Claim)
    requires ValidClaim(c) && ValidClaim(d)
  {
    && (forall l, m :: Has(c, l) && Has(d, m) ==> !Conflict(l, m))
    && (c.announced ==> !Writer(d, DbStripe(c.plan.db)))
    && (d.announced ==> !Writer(c, DbStripe(d.plan.db)))
  }

  ghost predicate Exclusive(cs: Claims)
    requires ValidClaims(cs)
  {
    forall t, u :: t in cs && u in cs && t != u ==> Apart(cs[t], cs[u])
  }

  lemma ApartSymmetric(c: Claim, d: Claim)
    requires ValidClaim(c) && ValidClaim(d) && Apart(c, d)
    ensures Apart(d, c)
  {
    forall l, m | Has(d, l) && Has(c, m) ensures !Conflict(l, m) {
      ConflictSymmetric(l, m);
    }
  }

  lemma ConflictSymmetric(l: Lock, m: Lock)
    ensures Conflict(l, m) <==> Conflict(m, l)
  {
  }

  /** The claims of one thread give way to others that clash with nobody's. */
  lemma ExclusiveUpdate(cs: Claims, t: Tid, c: Claim)
    requires ValidClaims(cs) && Exclusive(cs) && ValidClaim(c)
    requires forall u :: u in cs && u != t ==> Apart(c, cs[u])
    ensures ValidClaims(cs[t := c]) && Exclusive(cs[t := c])
  {
    forall u | u in cs && u != t ensures Apart(cs[u], c) {
      ApartSymmetric(c, cs[u]);
    }
  }

  /** What a claim holds after taking the lock it wanted. */
  function Taking(c: Claim, waiting: bool): Claim {
    Claim(c.plan, c.taken + 1, waiting, false)
  }

  lemma HoldsMore(plan: Plan, taken: nat, l: Lock)
    requires taken < LockCount(plan)
    ensures Holds(plan, taken + 1, l) <==> Holds(plan, taken, l) || l == LockAt(plan, taken)
  {
    HoldsMoreIn(DbLockOf(plan), DocStripes(plan), taken, l);
  }

  /** A plan holds one kind of database lock, on one stripe. */
  lemma DatabaseLocks(c: Claim, l: Lock)
    requires ValidClaim(c) && Has(c, l) && !l.DocLock?
    ensures l == DbLockOf(c.plan)
  {
  }

  lemma TakeDocApart(c: Claim, d: Claim, waiting: bool)
    requires ValidClaim(c) && ValidClaim(d) && c.waiting && Apart(c, d) && !Obstructs(d, c)
    requires Wanted(c).DocLock? && ValidClaim(Taking(c, waiting))
    ensures Apart(Taking(c, waiting), d)
  {
    var e := Taking(c, waiting);
    forall l, m | Has(e, l) && Has(d, m) ensures !Conflict(l, m) {
      HoldsMore(c.plan, c.taken, l);
    }
    if d.announced {
      HoldsMore(c.plan, c.taken, DbWrite(DbStripe(d.plan.db)));
    }
  }

  lemma TakeDbApart(c: Claim, d: Claim, waiting: bool)
    requires ValidClaim(c) && ValidClaim(d) && c.waiting && Apart(c, d) && !Obstructs(d, c)
    requires !Wanted(c).DocLock? && (Wanted(c).DbWrite? ==> c.announced) && ValidClaim(Taking(c, waiting))
    ensures Apart(Taking(c, waiting), d)
  {
    var e := Taking(c, waiting);
    forall l, m | Has(e, l) && Has(d, m) ensures !Conflict(l, m) {
      HoldsMore(c.plan, c.taken, l);
      if !m.DocLock? { DatabaseLocks(d, m); }
    }
    if d.announced {
      HoldsMore(c.plan, c.taken, DbWrite(DbStripe(d.plan.db)));
    }
  }

  /** Taking a lock nobody obstructs keeps everybody apart. */
  lemma TakeExclusive(cs: Claims, t: Tid, waiting: bool)
    requires ValidClaims(cs) && Exclusive(cs) && t in cs && cs[t].waiting && !Blocked(cs, t)
    requires Wanted(cs[t]).DbWrite? ==> cs[t].announced
    requires ValidClaim(Taking(cs[t], waiting))
    ensures ValidClaims(cs[t := Taking(cs[t], waiting)]) && Exclusive(cs[t := Taking(cs[t], waiting)])
  {
    forall u | u in cs && u != t ensures Apart(Taking(cs[t], waiting), cs[u]) {
      assert !Obstructs(cs[u], cs[t]);
      if Wanted(cs[t]).DocLock? {
        TakeDocApart(cs[t], cs[u], waiting);
      } else {
        TakeDbApart(cs[t], cs[u], waiting);
      }
    }
    ExclusiveUpdate(cs, t, Taking(cs[t], waiting));
  }

  /** So does announcing a writer where there is none. */
  lemma AnnounceExclusive(cs: Claims, t: Tid)
    requires ValidClaims(cs) && Exclusive(cs) && t in cs && cs[t].waiting && !Blocked(cs, t)
    requires Wanted(cs[t]).DbWrite? && !cs[t].announced
    ensures ValidClaims(cs[t := cs[t].(announced := true)]) && Exclusive(cs[t := cs[t].(announced := true)])
  {
    var c := cs[t].(announced := true);
    assert c.plan.Whole? && c.taken == 0;
    forall u | u in cs && u != t ensures Apart(c, cs[u]) {
      assert !Obstructs(cs[u], cs[t]) && Apart(cs[t], cs[u]);
    }
    ExclusiveUpdate(cs, t, c);
  }

  /** Giving up locks, or going on without taking one, keeps everybody apart. */
  lemma FewerApart(c: Claim, d: Claim, e: Claim)
    requires ValidClaim(c) && ValidClaim(d) && ValidClaim(e) && Apart(c, d) && !e.announced
    requires forall l :: Has(e, l) ==> Has(c, l)
    ensures Apart(e, d)
  {
  }

  lemma FewerExclusive(cs: Claims, t: Tid, e: Claim)
    requires ValidClaims(cs) && Exclusive(cs) && t in cs && ValidClaim(e) && !e.announced
    requires forall l :: Has(e, l) ==> Has(cs[t], l)
    ensures ValidClaims(cs[t := e]) && Exclusive(cs[t := e])
  {
    forall u | u in cs && u != t ensures Apart(e, cs[u]) {
      FewerApart(cs[t], cs[u], e);
    }
    ExclusiveUpdate(cs, t, e);
  }

  /** A newcomer holds nothing. */
  lemma NewExclusive(cs: Claims, t: Tid, e: Claim)
    requires ValidClaims(cs) && Exclusive(cs) && ValidClaim(e) && e.taken == 0 && !e.announced
    ensures ValidClaims(cs[t := e]) && Exclusive(cs[t := e])
  {
    forall u | u in cs && u != t ensures Apart(e, cs[u]) {
      assert forall l :: !Has(e, l);
    }
    ExclusiveUpdate(cs, t, e);
  }

  // ---------------------------------------------------------------------------
  // What locks keep others from

  /** Threads that hold locks on two databases, one of them for writing, work on different databases. */
  lemma DatabasesDiffer(c: Claim, d: Claim)
    requires ValidClaim(c) && ValidClaim(d) && Apart(c, d) && c.taken >= 1 && d.taken >= 1 && c.plan.Whole?
    ensures c.plan.db != d.plan.db
  {
    HoldsDatabase(c.plan, c.taken);
    HoldsDatabase(d.plan, d.taken);
    assert Has(c, DbLockOf(c.plan)) && Has(d, DbLockOf(d.plan));
  }

  lemma NotBoth(c: Claim, d: Claim, l: Lock)
    requires ValidClaim(c) && ValidClaim(d) && Apart(c, d) && l.DocLock? && Has(d, l)
    ensures !Has(c, l)
  {
    assert Conflict(l, l);
  }

  /** Threads that have locked documents of one database have locked different ones. */
  lemma DocumentsDiffer(c: Claim, d: Claim, id: bytes)
    requires ValidClaim(c) && ValidClaim(d) && Apart(c, d) && c.plan.db == d.plan.db
    requires c.taken == LockCount(c.plan) && Has(d, DocLockOf(d.plan.db, id))
    ensures id !in IdsOf(c.plan)
  {
    NotBoth(c, d, DocLockOf(d.plan.db, id));
    if id in IdsOf(c.plan) {
      HoldsDocument(c.plan, id);
      assert false;
    }
  }

  // ---------------------------------------------------------------------------
  // What threads wait for

  /** Another thread is in as the writer of the stripe, or is announced as the next. */
  predicate WriterThere(cs: Claims, t: Tid, stripe: nat)
    requires ValidClaims(cs)
  {
    exists u :: u in cs && u != t && (Has(cs[u], DbWrite(stripe)) || (cs[u].announced && Wanted(cs[u]) == DbWrite(stripe)))
  }

  predicate HolderThere(cs: Claims, t: Tid, l: Lock)
    requires ValidClaims(cs)
  {
    exists u :: u in cs && u != t && Has(cs[u], l)
  }

  /** Exactly when a thread has to wait: a new reader or writer for a writer, an announced writer for readers, a mutex for its holder. */
  lemma BlockedExactly(cs: Claims, t: Tid)
    requires ValidClaims(cs) && t in cs && cs[t].waiting
    ensures Wanted(cs[t]).DbRead? ==> (Blocked(cs, t) <==> WriterThere(cs, t, Wanted(cs[t]).stripe))
    ensures Wanted(cs[t]).DbWrite? && !cs[t].announced ==> (Blocked(cs, t) <==> WriterThere(cs, t, Wanted(cs[t]).stripe))
    ensures Wanted(cs[t]).DbWrite? && cs[t].announced ==> (Blocked(cs, t) <==> HolderThere(cs, t, DbRead(Wanted(cs[t]).stripe)))
    ensures Wanted(cs[t]).DocLock? ==> (Blocked(cs, t) <==> HolderThere(cs, t, Wanted(cs[t])))
  {
    forall u, stripe | u in cs ensures Writer(cs[u], stripe) <==>
        Has(cs[u], DbWrite(stripe)) || (cs[u].announced && Wanted(cs[u]) == DbWrite(stripe))
    {
      if cs[u].announced { assert Wanted(cs[u]) == DbLockOf(cs[u].plan); }
    }
  }

  /**
   A thread waits only for one that conflicts: a reader for a writer of its stripe, a writer for any user of its
   stripe, and a document for an operation on a document of its stripe. Readers do not wait for one another.
   */
  lemma WaitsForConflict(cs: Claims, t: Tid) returns (u: Tid)
    requires ValidClaims(cs) && t in cs && Blocked(cs, t)
    ensures u in cs && u != t && Engaged(cs[u])
    ensures Wanted(cs[t]).DbRead? ==> cs[u].plan.Whole? && DbStripe(cs[u].plan.db) == DbStripe(cs[t].plan.db)
    ensures Wanted(cs[t]).DbWrite? ==> DbStripe(cs[u].plan.db) == DbStripe(cs[t].plan.db)
    ensures Wanted(cs[t]).DocLock? ==> Wanted(cs[t]).stripe in DocStripes(cs[u].plan)
  {
    u :| u in cs && u != t && Obstructs(cs[u], cs[t]);
    var c, d := cs[t], cs[u];
    if Wanted(c).DocLock? {
      assert Has(d, Wanted(c));
    } else {
      assert Wanted(c) == DbLockOf(c.plan);
      if c.announced {
        DatabaseLocks(d, DbRead(Wanted(c).stripe));
      } else if Has(d, DbWrite(Wanted(c).stripe)) {
        DatabaseLocks(d, DbWrite(Wanted(c).stripe));
      }
    }
  }
}

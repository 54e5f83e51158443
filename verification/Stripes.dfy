/**
 Lock stripes: which of the 64 database locks and 256 document locks guards what, and the
 order in which bulk import takes the locks of many documents.
 */
module Stripes {
  import opened Bytes
  import opened Sizes

  const DB_STRIPES: nat := 64
  const DOC_STRIPES: nat := 256
  const FNV_OFFSET: nat := 14695981039346656037
  const FNV_PRIME: nat := 1099511628211

  /** Bitwise exclusive or. */
  function Xor(a: nat, b: nat): nat
    decreases a + b
  {
    if a == 0 then b
    else if b == 0 then a
    else (if a % 2 == b % 2 then 0 else 1) + 2 * Xor(a / 2, b / 2)
  }

  /** `hashPart`: 64-bit FNV-1a. */
  function HashPart(hash: nat, value: bytes): nat
    decreases |value|
  {
    if value == [] then hash else HashPart(Xor(hash, value[0]) * FNV_PRIME % WORD, value[1..])
  }

  /** The low six bits of the hash. */
  function DbStripe(db: bytes): (stripe: nat)
    ensures stripe < DB_STRIPES
  {
    HashPart(FNV_OFFSET, db) % DB_STRIPES
  }

  /** The low eight bits of the hash of both names with a zero byte between them. */
  function DocStripe(db: bytes, id: bytes): (stripe: nat)
    ensures stripe < DOC_STRIPES
  {
    HashPart(HashPart(HashPart(FNV_OFFSET, db), [0x00]), id) % DOC_STRIPES
  }

  /** The stripes that guard the documents. */
  function Needed(db: bytes, ids: seq<bytes>): set<nat> {
    set i | 0 <= i < |ids| :: DocStripe(db, ids[i])
  }

  /** The stripes of the set from `first` on, ascending. */
  function StripesFrom(needed: set<nat>, first: nat): (stripes: seq<nat>)
    requires first <= DOC_STRIPES
    ensures forall i :: 0 <= i < |stripes| ==> first <= stripes[i] < DOC_STRIPES && stripes[i] in needed
    ensures forall i, j :: 0 <= i < j < |stripes| ==> stripes[i] < stripes[j]
    ensures forall s :: first <= s < DOC_STRIPES && s in needed ==> s in stripes
    decreases DOC_STRIPES - first
  {
    if first == DOC_STRIPES then []
    else if first in needed then [first] + StripesFrom(needed, first + 1)
    else StripesFrom(needed, first + 1)
  }

  /** The stripes of a set of documents in the order `lockDocs` takes them. */
  function StripesOf(db: bytes, ids: seq<bytes>): (stripes: seq<nat>)
    ensures forall i :: 0 <= i < |stripes| ==> stripes[i] < DOC_STRIPES
    ensures forall i, j :: 0 <= i < j < |stripes| ==> stripes[i] < stripes[j]
    ensures forall i :: 0 <= i < |ids| ==> DocStripe(db, ids[i]) in stripes
  {
    assert forall i :: 0 <= i < |ids| ==> DocStripe(db, ids[i]) in Needed(db, ids);
    StripesFrom(Needed(db, ids), 0)
  }

  /** `lockDocs`: marks the stripes in an array, then takes the marked ones from the lowest up. */
  method LockDocs(db: bytes, ids: seq<bytes>) returns (taken: seq<nat>)
    ensures taken == StripesOf(db, ids)
  {
    var stripes := MarkStripes(db, ids);
    ghost var needed := Needed(db, ids);
    taken := [];
    var stripe := 0;
    while stripe < DOC_STRIPES
      invariant 0 <= stripe <= DOC_STRIPES && Marks(stripes, needed)
      invariant taken + StripesFrom(needed, stripe) == StripesFrom(needed, 0)
    {
      NextStripe(needed, stripe, taken);
      if stripes[stripe] {
        taken := taken + [stripe];
      }
      stripe := stripe + 1;
    }
  }

  ghost predicate Marks(stripes: array<bool>, needed: set<nat>)
    reads stripes
  {
    stripes.Length == DOC_STRIPES && forall s :: 0 <= s < DOC_STRIPES ==> (stripes[s] <==> s in needed)
  }

  method MarkStripes(db: bytes, ids: seq<bytes>) returns (stripes: array<bool>)
    ensures fresh(stripes) && Marks(stripes, Needed(db, ids))
  {
    stripes := new bool[DOC_STRIPES](_ => false);
    var i := 0;
    while i < |ids|
      invariant 0 <= i <= |ids| && fresh(stripes) && Marks(stripes, Needed(db, ids[..i]))
    {
      NeededNext(db, ids, i);
      stripes[DocStripe(db, ids[i])] := true;
      i := i + 1;
    }
    assert ids[..i] == ids;
  }

  lemma NextStripe(needed: set<nat>, stripe: nat, taken: seq<nat>)
    requires stripe < DOC_STRIPES
    ensures taken + StripesFrom(needed, stripe)
         == (if stripe in needed then taken + [stripe] else taken) + StripesFrom(needed, stripe + 1)
  {
  }

  lemma NeededNext(db: bytes, ids: seq<bytes>, i: nat)
    requires i < |ids|
    ensures Needed(db, ids[..i + 1]) == Needed(db, ids[..i]) + {DocStripe(db, ids[i])}
  {
    var next := ids[..i + 1];
    forall s | s in Needed(db, next) ensures s in Needed(db, ids[..i]) + {DocStripe(db, ids[i])} {
      var j :| 0 <= j < |next| && DocStripe(db, next[j]) == s;
      if j < i { assert ids[..i][j] == next[j]; }
    }
    forall s | s in Needed(db, ids[..i]) ensures s in Needed(db, next) {
      var j :| 0 <= j < i && DocStripe(db, ids[..i][j]) == s;
      assert next[j] == ids[..i][j];
    }
    assert next[i] == ids[i];
  }

  /** Exclusive or goes bit by bit. */
  lemma XorBits(a: nat, b: nat)
    ensures Xor(a, b) % 2 == (a + b) % 2 && Xor(a, b) / 2 == Xor(a / 2, b / 2)
  {
  }

  /** The hash takes the bytes one after the other, so that of two parts is that of both together. */
  lemma {:induction false} HashConcat(hash: nat, a: bytes, b: bytes)
    ensures HashPart(hash, a + b) == HashPart(HashPart(hash, a), b)
    ensures b != [] ==> HashPart(hash, [b[0]]) == Xor(hash, b[0]) * 1099511628211 % 0x1_0000_0000_0000_0000
    decreases |a|
  {
    if a == [] {
      assert a + b == b;
    } else {
      assert (a + b)[1..] == a[1..] + b;
      HashConcat(Xor(hash, a[0]) * FNV_PRIME % WORD, a[1..], b);
    }
    if b != [] { assert [b[0]][1..] == []; }
  }

  /** The stripe of a document is the low byte of the hash of both names with a zero byte between them. */
  lemma StripeOfNames(db: bytes, id: bytes)
    ensures DocStripe(db, id) == HashPart(14695981039346656037, db + [0x00] + id) % 256
    ensures DbStripe(db) == HashPart(14695981039346656037, db) % 64
  {
    HashConcat(FNV_OFFSET, db, [0x00]);
    HashConcat(FNV_OFFSET, db + [0x00], id);
  }
}

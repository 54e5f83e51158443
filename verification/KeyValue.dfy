/**
 The contract of the ordered key-value engine: an ordered map from byte keys, atomic
 batches, and iterators over the keys between two bounds. A snapshot is the map at one moment.
 */
module KeyValue {
  import opened Bytes

  type Kv<V> = map<bytes, V>

  datatype Write<V> =
    | Set(key: bytes, value: V)
    | Delete(key: bytes)
    | DeleteRange(lower: bytes, upper: bytes)

  function Get<V>(kv: Kv<V>, k: bytes): Option<V> {
    if k in kv then Some(kv[k]) else None
  }

  predicate InRange(k: bytes, lower: bytes, upper: bytes) {
    AtMost(lower, k) && Less(k, upper)
  }

  function ApplyOne<V>(kv: Kv<V>, w: Write<V>): Kv<V> {
    match w
    case Set(k, v) => kv[k := v]
    case Delete(k) => kv - {k}
    case DeleteRange(lower, upper) => map k | k in kv && !InRange(k, lower, upper) :: kv[k]
  }

  /** A batch takes effect in the order it was filled. */
  function Apply<V>(kv: Kv<V>, batch: seq<Write<V>>): Kv<V> {
    if batch == [] then kv else ApplyOne(Apply(kv, batch[..|batch| - 1]), batch[|batch| - 1])
  }

  /** What one write makes of a key: nothing, or its new state. */
  function Touch<V>(w: Write<V>, k: bytes): Option<Option<V>> {
    match w
    case Set(key, v) => if key == k then Some(Some(v)) else None
    case Delete(key) => if key == k then Some(None) else None
    case DeleteRange(lower, upper) => if InRange(k, lower, upper) then Some(None) else None
  }

  /** What a batch makes of a key: what its last write to the key does. */
  function Effect<V>(batch: seq<Write<V>>, k: bytes): Option<Option<V>> {
    if batch == [] then None
    else
      var last := Touch(batch[|batch| - 1], k);
      if last.Some? then last else Effect(batch[..|batch| - 1], k)
  }

  lemma {:induction false} ApplyEffect<V>(kv: Kv<V>, batch: seq<Write<V>>, k: bytes)
    ensures Get(Apply(kv, batch), k) == (if Effect(batch, k).Some? then Effect(batch, k).value else Get(kv, k))
    decreases |batch|
  {
    if batch != [] { ApplyEffect(kv, batch[..|batch| - 1], k); }
  }

  lemma EffectAppend<V>(batch: seq<Write<V>>, w: Write<V>, k: bytes)
    ensures Effect(batch + [w], k) == (if Touch(w, k).Some? then Touch(w, k) else Effect(batch, k))
  {
    assert (batch + [w])[..|batch|] == batch;
  }

  lemma {:induction false} ApplyConcat<V>(kv: Kv<V>, a: seq<Write<V>>, b: seq<Write<V>>)
    ensures Apply(kv, a + b) == Apply(Apply(kv, a), b)
    decreases |b|
  {
    if b == [] {
      assert a + b == a;
    } else {
      ApplyConcat(kv, a, b[..|b| - 1]);
      assert (a + b)[..|a + b| - 1] == a + b[..|b| - 1];
    }
  }

  // ---------------------------------------------------------------------------
  // Keys in order

  predicate StrictlySorted(q: seq<bytes>) {
    forall i, j {:trigger Less(q[i], q[j])} :: 0 <= i < j < |q| ==> Less(q[i], q[j])
  }

  predicate IsLeast(k: bytes, s: set<bytes>) {
    k in s && forall j | j in s :: AtMost(k, j)
  }

  lemma {:induction false} LeastExists(s: set<bytes>) returns (k: bytes)
    requires s != {}
    ensures IsLeast(k, s)
    decreases |s|
  {
    k :| k in s;
    LessIrreflexive(k);
    if s - {k} == {} {
      assert s == {k};
    } else {
      var m := LeastExists(s - {k});
      assert s == (s - {k}) + {k};
      if Less(m, k) {
        LessAsymmetric(m, k);
        k := m;
      } else {
        forall j | j in s ensures AtMost(k, j) {
          if j != k {
            assert j in s - {k};
            BelowPrefix(k, m, j);
          }
        }
      }
    }
  }

  lemma LeastUnique(s: set<bytes>)
    requires s != {}
    ensures exists k :: IsLeast(k, s)
    ensures forall j, k :: IsLeast(j, s) && IsLeast(k, s) ==> j == k
  {
    var m := LeastExists(s);
    forall j: bytes, k: bytes | IsLeast(j, s) && IsLeast(k, s) ensures j == k {
      LessTotal(j, k);
    }
  }

  function Least(s: set<bytes>): (k: bytes)
    requires s != {}
    ensures IsLeast(k, s)
  {
    LeastUnique(s);
    var k :| IsLeast(k, s);
    k
  }

  /** The keys of a set in ascending order. */
  function Ascending(s: set<bytes>): (q: seq<bytes>)
    ensures forall k :: k in q <==> k in s
    ensures StrictlySorted(q)
    decreases |s|
  {
    if s == {} then []
    else
      var k := Least(s);
      var rest := Ascending(s - {k});
      AscendingStep(s, k, rest);
      [k] + rest
  }

  lemma AscendingStep(s: set<bytes>, k: bytes, rest: seq<bytes>)
    requires IsLeast(k, s) && StrictlySorted(rest) && forall j :: j in rest <==> j in s - {k}
    ensures StrictlySorted([k] + rest)
    ensures forall j :: j in [k] + rest <==> j in s
  {
    var q := [k] + rest;
    forall i, j | 0 <= i < j < |q| ensures Less(q[i], q[j]) {
      if i == 0 {
        assert q[j] in rest;
        LessTotal(k, q[j]);
      } else {
        assert q[i] == rest[i - 1] && q[j] == rest[j - 1];
      }
    }
    forall j ensures j in q <==> j in s {
      assert j in q <==> j == k || j in rest;
    }
  }

  /** Ascending order is the only strictly sorted arrangement. */
  lemma {:induction false} SortedUnique(p: seq<bytes>, q: seq<bytes>)
    requires StrictlySorted(p) && StrictlySorted(q) && forall k :: k in p <==> k in q
    ensures p == q
    decreases |p|
  {
    if p == [] {
      assert forall i :: 0 <= i < |q| ==> q[i] in q;
    } else {
      assert p[0] in p;
      assert q != [];
      assert q[0] in q;
      HeadIsLeast(p, q[0]);
      HeadIsLeast(q, p[0]);
      LessTotal(p[0], q[0]);
      forall k ensures k in p[1..] <==> k in q[1..] {
        TailMembers(p, k);
        TailMembers(q, k);
      }
      SortedUnique(p[1..], q[1..]);
      assert p == [p[0]] + p[1..] && q == [q[0]] + q[1..];
    }
  }

  lemma HeadIsLeast(q: seq<bytes>, k: bytes)
    requires StrictlySorted(q) && k in q
    ensures AtMost(q[0], k)
  {
    var i :| 0 <= i < |q| && q[i] == k;
    if i == 0 { LessIrreflexive(k); } else { LessAsymmetric(q[0], q[i]); }
  }

  lemma TailMembers(q: seq<bytes>, k: bytes)
    requires StrictlySorted(q) && q != []
    ensures k in q[1..] <==> k in q && k != q[0]
  {
    if k in q && k != q[0] {
      var i :| 0 <= i < |q| && q[i] == k;
      assert q[1..][i - 1] == k;
    }
    if k in q[1..] {
      var i :| 0 <= i < |q[1..]| && q[1..][i] == k;
      assert q[i + 1] == k;
      LessIrreflexive(k);
    }
  }

  /** The keys of the map between two bounds. */
  function KeysWithin<V>(kv: Kv<V>, lower: bytes, upper: Option<bytes>): set<bytes> {
    set k | k in kv && Within(k, lower, upper)
  }

  /** The keys that come after `after`; all of them if there is none. */
  function Above(q: seq<bytes>, after: Option<bytes>): (r: seq<bytes>) {
    if q == [] then []
    else if after.None? || Less(after.value, q[0]) then q
    else Above(q[1..], after)
  }

  lemma {:induction false} AboveExact(q: seq<bytes>, after: Option<bytes>)
    requires StrictlySorted(q)
    ensures |Above(q, after)| <= |q| && Above(q, after) == q[|q| - |Above(q, after)|..]
    ensures StrictlySorted(Above(q, after))
    ensures forall k :: k in Above(q, after) <==> k in q && (after.Some? ==> Less(after.value, k))
    decreases |q|
  {
    if q != [] && after.Some? {
      if Less(after.value, q[0]) {
        forall k | k in q ensures Less(after.value, k) {
          HeadIsLeast(q, k);
          LessAtMost(after.value, q[0], k);
        }
      } else {
        AboveExact(q[1..], after);
        forall k: bytes ensures k in q[1..] && Less(after.value, k) <==> k in q && Less(after.value, k) {
          TailMembers(q, k);
        }
        var r := Above(q[1..], after);
        assert q[1..][|q[1..]| - |r|..] == q[|q| - |r|..];
      }
    }
  }

  // ---------------------------------------------------------------------------
  // The iterator

  class Iterator<V> {
    const kv: Kv<V>
    const keys: seq<bytes>
    var position: nat

    ghost predicate Valid()
      reads this
    {
      position <= |keys| && StrictlySorted(keys) && forall k :: k in keys ==> k in kv
    }

    constructor (kv: Kv<V>, lower: bytes, upper: Option<bytes>)
      ensures Valid() && this.kv == kv
      ensures keys == Ascending(KeysWithin(kv, lower, upper))
    {
      this.kv := kv;
      this.keys := Ascending(KeysWithin(kv, lower, upper));
      position := 0;
    }

    /** Whether the iterator stands on a key. */
    predicate AtKey()
      reads this
    {
      position < |keys|
    }

    /** The keys that are left, the current one first. */
    ghost function Rest(): (rest: seq<bytes>)
      requires Valid()
      reads this
      ensures AtKey() <==> rest != []
      ensures AtKey() ==> rest[0] == Key()
    {
      keys[position..]
    }

    function Key(): bytes
      requires AtKey()
      reads this
    {
      keys[position]
    }

    function CurrentValue(): V
      requires Valid() && AtKey()
      reads this
    {
      kv[keys[position]]
    }

    method First() returns (valid: bool)
      requires Valid()
      modifies this
      ensures Valid() && valid == AtKey() && position == 0
    {
      position := 0;
      valid := position < |keys|;
    }

    /** Moves to the least key that is not below `k`. */
    method SeekGE(k: bytes) returns (valid: bool)
      requires Valid()
      modifies this
      ensures Valid() && valid == AtKey()
      ensures forall i :: 0 <= i < position ==> Less(keys[i], k)
      ensures valid ==> AtMost(k, keys[position])
    {
      position := 0;
      while position < |keys| && Less(keys[position], k)
        invariant position <= |keys|
        invariant forall i :: 0 <= i < position ==> Less(keys[i], k)
      {
        position := position + 1;
      }
      valid := position < |keys|;
    }

    method Next() returns (valid: bool)
      requires Valid() && AtKey()
      modifies this
      ensures Valid() && valid == AtKey() && position == old(position) + 1
      ensures Rest() == old(Rest())[1..]
    {
      position := position + 1;
      valid := position < |keys|;
    }

    /** Positions the iterator behind a cursor: seek, then step over the cursor itself. */
    method StartAfter(after: Option<bytes>) returns (valid: bool)
      requires Valid()
      modifies this
      ensures Valid() && valid == AtKey()
      ensures Rest() == keys[position..] == Above(keys, after)
    {
      AboveExact(keys, after);
      if after.None? {
        valid := First();
        return;
      }
      valid := SeekGE(after.value);
      LessIrreflexive(after.value);
      forall i | 0 <= i < position ensures AtMost(keys[i], after.value) {
        LessAsymmetric(keys[i], after.value);
      }
      if valid {
        LessTotal(after.value, keys[position]);
        if keys[position] == after.value {
          valid := Next();
        }
      }
      PositionIsAbove(keys, after, position);
    }
  }

  /** A position is right behind the cursor if the keys before it are not after it and its own key is. */
  lemma {:induction false} PositionIsAbove(q: seq<bytes>, after: Option<bytes>, position: nat)
    requires StrictlySorted(q) && after.Some? && position <= |q|
    requires forall i :: 0 <= i < position ==> AtMost(q[i], after.value)
    requires position < |q| ==> Less(after.value, q[position])
    ensures q[position..] == Above(q, after)
    decreases |q|
  {
    if q != [] && position > 0 {
      assert AtMost(q[0], after.value);
      PositionIsAbove(q[1..], after, position - 1);
      assert q[1..][position - 1..] == q[position..];
    }
  }
}

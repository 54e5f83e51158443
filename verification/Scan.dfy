/**
 The loop that queries and listings share: from a cursor on, read one item from each key until
 there is one more than the page holds or the range ends.
 */
module Scan {
  import opened Bytes
  import opened KeyValue

  /** The keys of a range that lie behind a cursor. */
  function KeysBehind<V>(kv: Kv<V>, lower: bytes, upper: Option<bytes>, after: Option<bytes>): seq<bytes> {
    Above(Ascending(KeysWithin(kv, lower, upper)), after)
  }

  lemma KeysBehindExact<V>(kv: Kv<V>, lower: bytes, upper: Option<bytes>, after: Option<bytes>)
    ensures StrictlySorted(KeysBehind(kv, lower, upper, after))
    ensures forall k :: k in KeysBehind(kv, lower, upper, after) <==>
                          k in kv && Within(k, lower, upper) && (after.Some? ==> Less(after.value, k))
  {
    AboveExact(Ascending(KeysWithin(kv, lower, upper)), after);
  }

  /** How a key and its value are read: not at all if they are not as they should be. */
  type Reader<!V, !T> = (bytes, V) -> Option<T>

  predicate Readable<V, T>(kv: Kv<V>, keys: seq<bytes>, read: Reader<V, T>, present: T -> bool) {
    forall i :: 0 <= i < |keys| ==>
                  keys[i] in kv && read(keys[i], kv[keys[i]]).Some? && present(read(keys[i], kv[keys[i]]).value)
  }

  function Items<V, T>(kv: Kv<V>, keys: seq<bytes>, read: Reader<V, T>, present: T -> bool): (items: seq<T>)
    requires Readable(kv, keys, read, present)
    ensures |items| == |keys| && forall i :: 0 <= i < |keys| ==> Some(items[i]) == read(keys[i], kv[keys[i]])
  {
    seq(|keys|, i requires 0 <= i < |keys| => read(keys[i], kv[keys[i]]).value)
  }

  /** What follows the first item at the cursor; nothing if there is none. */
  function BehindItem<T>(items: seq<T>, atCursor: T -> bool): seq<T> {
    if items == [] then []
    else if atCursor(items[0]) then items[1..]
    else BehindItem(items[1..], atCursor)
  }

  function UpTo<T>(items: seq<T>, n: nat): seq<T> {
    if |items| > n then items[..n] else items
  }

  /** The items of the range, or of the part of it behind the first item at the cursor. */
  function Wanted<T>(items: seq<T>, past: bool, atCursor: T -> bool): seq<T> {
    if past then items else BehindItem(items, atCursor)
  }

  /** One item more, or one item nearer to the cursor. */
  lemma WantedNext<T>(items: seq<T>, rest: seq<T>, past: bool, atCursor: T -> bool, whole: seq<T>)
    requires rest != [] && items + Wanted(rest, past, atCursor) == whole
    ensures past ==> (items + [rest[0]]) + Wanted(rest[1..], true, atCursor) == whole
    ensures !past ==> items + Wanted(rest[1..], atCursor(rest[0]), atCursor) == whole
  {
    assert rest == [rest[0]] + rest[1..];
  }

  lemma WantedEnd<T>(items: seq<T>, rest: seq<T>, past: bool, atCursor: T -> bool, whole: seq<T>, limit: nat)
    requires items + Wanted(rest, past, atCursor) == whole && |items| <= limit + 1
    requires |items| == limit + 1 || rest == []
    ensures items == UpTo(whole, limit + 1)
  {
  }

  method Collect<V, T>(kv: Kv<V>, lower: bytes, upper: Option<bytes>, after: Option<bytes>, limit: nat,
                       read: Reader<V, T>, present: T -> bool, alreadyPast: bool, atCursor: T -> bool)
    returns (r: Option<seq<T>>)
    ensures var keys := KeysBehind(kv, lower, upper, after);
            Readable(kv, keys, read, present) ==>
              r == Some(UpTo(Wanted(Items(kv, keys, read, present), alreadyPast, atCursor), limit + 1))
    ensures alreadyPast ==> ReadsFront(kv, KeysBehind(kv, lower, upper, after), limit + 1, read, present, r)
  {
    var iter := new Iterator(kv, lower, upper);
    var start := iter.StartAfter(after);
    ghost var keys := iter.Rest();
    assert keys == KeysBehind(kv, lower, upper, after);
    ghost var fine := Readable(kv, keys, read, present);
    ghost var rest := if fine then Items(kv, keys, read, present) else [];
    if fine { ItemsLeft(kv, keys, read, present); }
    r := CollectFrom(iter, start, limit, read, present, alreadyPast, atCursor, fine, rest);
  }

  /** On any key space: the first keys are read, all of them, or nothing is returned. */
  ghost predicate ReadsFront<V, T>(kv: Kv<V>, keys: seq<bytes>, n: nat, read: Reader<V, T>, present: T -> bool, r: Option<seq<T>>) {
    r == if Readable(kv, UpTo(keys, n), read, present) then Some(Items(kv, UpTo(keys, n), read, present)) else None
  }

  lemma FrontBroken<V, T>(kv: Kv<V>, keys: seq<bytes>, i: nat, n: nat, read: Reader<V, T>, present: T -> bool)
    requires i < |keys| && i < n && keys[i] in kv
    requires read(keys[i], kv[keys[i]]).None? || !present(read(keys[i], kv[keys[i]]).value)
    ensures !Readable(kv, UpTo(keys, n), read, present)
  {
    assert UpTo(keys, n)[i] == keys[i];
  }

  lemma LeftGrows<V, T>(kv: Kv<V>, keys: seq<bytes>, items: seq<T>, read: Reader<V, T>, present: T -> bool, item: T)
    requires |items| < |keys| && Left(kv, keys[..|items|], read, present, items) && ItemAt(kv, keys[|items|], read, present, item)
    ensures Left(kv, keys[..|items| + 1], read, present, items + [item])
  {
    var more := items + [item];
    forall i | 0 <= i < |more| ensures ItemAt(kv, keys[..|more|][i], read, present, more[i]) {
      if i < |items| { assert ItemAt(kv, keys[..|items|][i], read, present, items[i]); }
    }
  }

  /** Its loop, from where the iterator stands. */
  method CollectFrom<V, T>(iter: Iterator<V>, start: bool, limit: nat, read: Reader<V, T>, present: T -> bool,
                           alreadyPast: bool, atCursor: T -> bool, ghost fine: bool, ghost all: seq<T>)
    returns (r: Option<seq<T>>)
    requires iter.Valid() && start == iter.AtKey()
    requires fine ==> Left(iter.kv, iter.Rest(), read, present, all)
    modifies iter
    ensures fine ==> r == Some(UpTo(Wanted(all, alreadyPast, atCursor), limit + 1))
    ensures alreadyPast ==> ReadsFront(iter.kv, old(iter.Rest()), limit + 1, read, present, r)
  {
    var valid, past := start, alreadyPast;
    ghost var keys, rest := iter.Rest(), all;
    ghost var whole := Wanted(all, alreadyPast, atCursor);
    ghost var from := keys;
    var items: seq<T> := [];
    while valid && |items| <= limit
      invariant iter.Valid() && valid == iter.AtKey() && keys == iter.Rest()
      invariant alreadyPast ==> past && |items| <= |from| && keys == from[|items|..] && Left(iter.kv, from[..|items|], read, present, items)
      invariant |items| <= limit + 1
      invariant fine ==> Left(iter.kv, keys, read, present, rest)
      invariant fine ==> items + Wanted(rest, past, atCursor) == whole
      decreases |iter.keys| - iter.position
    {
      var item := read(iter.Key(), iter.CurrentValue());
      if item.None? {
        if alreadyPast { FrontBroken(iter.kv, from, |items|, limit + 1, read, present); }
        return None;
      }
      if fine {
        LeftNext(iter.kv, keys, read, present, rest);
        WantedNext(items, rest, past, atCursor, whole);
      }
      if !past {
        past := atCursor(item.value);
      } else {
        if !present(item.value) {
          if alreadyPast { FrontBroken(iter.kv, from, |items|, limit + 1, read, present); }
          return None;
        }
        if alreadyPast { LeftGrows(iter.kv, from, items, read, present, item.value); }
        items := items + [item.value];
      }
      keys := keys[1..];
      valid := iter.Next();
      if fine { rest := rest[1..]; }
    }
    if fine {
      WantedEnd(items, rest, past, atCursor, whole, limit);
    }
    if alreadyPast {
      LeftItems(iter.kv, from[..|items|], read, present, items);
      assert UpTo(from, limit + 1) == from[..|items|];
    }
    return Some(items);
  }

  function Anything<T>(): T -> bool {
    _ => true
  }

  /** The same without a cursor or a limit. */
  method CollectAll<V, T>(kv: Kv<V>, lower: bytes, upper: Option<bytes>, read: Reader<V, T>) returns (r: Option<seq<T>>)
    ensures var keys := KeysBehind(kv, lower, upper, None);
            r == if Readable(kv, keys, read, Anything()) then Some(Items(kv, keys, read, Anything())) else None
  {
    var iter := new Iterator(kv, lower, upper);
    var start := iter.StartAfter(None);
    assert iter.Rest() == KeysBehind(kv, lower, upper, None);
    r := AllFrom(iter, start, read);
  }

  method AllFrom<V, T>(iter: Iterator<V>, start: bool, read: Reader<V, T>) returns (r: Option<seq<T>>)
    requires iter.Valid() && start == iter.AtKey()
    modifies iter
    ensures var keys := old(iter.Rest());
            r == if Readable(iter.kv, keys, read, Anything()) then Some(Items(iter.kv, keys, read, Anything())) else None
  {
    var valid := start;
    ghost var from := iter.Rest();
    ghost var keys := from;
    var items: seq<T> := [];
    while valid
      invariant iter.Valid() && valid == iter.AtKey() && keys == iter.Rest()
      invariant |items| <= |from| && keys == from[|items|..] && Left(iter.kv, from[..|items|], read, Anything(), items)
      decreases |iter.keys| - iter.position
    {
      var item := read(iter.Key(), iter.CurrentValue());
      if item.None? {
        FrontBroken(iter.kv, from, |items|, |from|, read, Anything<T>());
        return None;
      }
      LeftGrows(iter.kv, from, items, read, Anything(), item.value);
      items := items + [item.value];
      keys := keys[1..];
      valid := iter.Next();
    }
    assert from[..|items|] == from;
    LeftItems(iter.kv, from, read, Anything(), items);
    return Some(items);
  }

  /** The items of the keys that are left. */
  predicate Left<V, T(==)>(kv: Kv<V>, keys: seq<bytes>, read: Reader<V, T>, present: T -> bool, rest: seq<T>) {
    |rest| == |keys| && forall i :: 0 <= i < |keys| ==> ItemAt(kv, keys[i], read, present, rest[i])
  }

  predicate ItemAt<V, T(==)>(kv: Kv<V>, key: bytes, read: Reader<V, T>, present: T -> bool, item: T) {
    key in kv && read(key, kv[key]) == Some(item) && present(item)
  }

  lemma LeftNext<V, T>(kv: Kv<V>, keys: seq<bytes>, read: Reader<V, T>, present: T -> bool, rest: seq<T>)
    requires keys != [] && Left(kv, keys, read, present, rest)
    ensures rest != [] && ItemAt(kv, keys[0], read, present, rest[0]) && Left(kv, keys[1..], read, present, rest[1..])
  {
    forall i | 0 <= i < |keys[1..]| ensures ItemAt(kv, keys[1..][i], read, present, rest[1..][i]) {
      assert ItemAt(kv, keys[i + 1], read, present, rest[i + 1]);
    }
  }

  lemma LeftItems<V, T>(kv: Kv<V>, keys: seq<bytes>, read: Reader<V, T>, present: T -> bool, rest: seq<T>)
    requires Left(kv, keys, read, present, rest)
    ensures Readable(kv, keys, read, present) && Items(kv, keys, read, present) == rest
  {
    forall i | 0 <= i < |keys|
      ensures keys[i] in kv && read(keys[i], kv[keys[i]]) == Some(rest[i]) && present(rest[i])
    {
      assert ItemAt(kv, keys[i], read, present, rest[i]);
    }
  }

  lemma ItemsLeft<V, T>(kv: Kv<V>, keys: seq<bytes>, read: Reader<V, T>, present: T -> bool)
    requires Readable(kv, keys, read, present)
    ensures Left(kv, keys, read, present, Items(kv, keys, read, present))
  {
    var items := Items(kv, keys, read, present);
    forall i | 0 <= i < |keys| ensures ItemAt(kv, keys[i], read, present, items[i]) {
      assert Some(items[i]) == read(keys[i], kv[keys[i]]);
    }
  }

  /** Skipping to a cursor leaves what comes after the first item at it, or nothing if there is none. */
  lemma {:induction false} BehindItemExact<T>(items: seq<T>, atCursor: T -> bool, i: nat)
    requires i <= |items| && (forall j :: 0 <= j < i ==> !atCursor(items[j])) && (i < |items| ==> atCursor(items[i]))
    ensures BehindItem(items, atCursor) == if i == |items| then [] else items[i + 1..]
    decreases |items|
  {
    if i > 0 {
      var rest := items[1..];
      assert forall j :: 0 <= j < |rest| ==> rest[j] == items[j + 1];
      BehindItemExact(rest, atCursor, i - 1);
    }
  }
}

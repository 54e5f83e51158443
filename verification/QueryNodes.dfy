/** Counting the nodes of a JSON value before a path is evaluated on it. */
module QueryNodes {
  import opened Bytes
  import opened Json

  /** The number of nodes of the tree. */
  ghost function Size(value: Json): (n: nat)
    ensures n > 0
    decreases value, 1, 0
  {
    match value
    case Arr(items) => 1 + ListSize(items)
    case Obj(fields) => 1 + MembersSize(value, fields.Keys)
    case _ => 1
  }

  ghost function ListSize(items: seq<Json>): nat
    decreases items, 0, 0
  {
    if items == [] then 0 else Size(items[0]) + ListSize(items[1..])
  }

  /** The size of the members with the given names, added up in some order. */
  ghost function MembersSize(value: Json, names: set<bytes>): nat
    requires value.Obj? && names <= value.fields.Keys
    decreases value, 0, |names|
  {
    if names == {} then 0
    else
      var name :| name in names;
      Size(value.fields[name]) + MembersSize(value, names - {name})
  }

  /** ... which may be any order. */
  lemma {:induction false} AnyMemberFirst(value: Json, names: set<bytes>, name: bytes)
    requires value.Obj? && names <= value.fields.Keys && name in names
    ensures MembersSize(value, names) == Size(value.fields[name]) + MembersSize(value, names - {name})
    decreases |names|
  {
    var first :| first in names && MembersSize(value, names) == Size(value.fields[first]) + MembersSize(value, names - {first});
    if first != name {
      AnyMemberFirst(value, names - {first}, name);
      AnyMemberFirst(value, names - {name}, first);
      assert names - {first} - {name} == names - {name} - {first};
    }
  }

  lemma {:induction false} ListSizeConcat(a: seq<Json>, b: seq<Json>)
    ensures ListSize(a + b) == ListSize(a) + ListSize(b)
    decreases |a|
  {
    if a == [] {
      assert a + b == b;
    } else {
      assert (a + b)[1..] == a[1..] + b;
      ListSizeConcat(a[1..], b);
    }
  }

  /** Pushes the members of an object, in whatever order the map yields them. */
  method PushMembers(stack: seq<Json>, value: Json) returns (pushed: seq<Json>)
    requires value.Obj?
    ensures ListSize(pushed) == ListSize(stack) + Size(value) - 1
  {
    pushed := stack;
    var names := value.fields.Keys;
    while names != {}
      invariant names <= value.fields.Keys
      invariant ListSize(pushed) + MembersSize(value, names) == ListSize(stack) + Size(value) - 1
      decreases |names|
    {
      var name :| name in names;
      AnyMemberFirst(value, names, name);
      ListSizeConcat(pushed, [value.fields[name]]);
      pushed := pushed + [value.fields[name]];
      names := names - {name};
    }
  }

  /** Succeeds exactly when the tree has no more nodes than the limit. */
  method CheckQueryNodes(root: Json, limit: int) returns (ok: bool)
    ensures ok <==> Size(root) <= limit
  {
    var stack, work := [root], 0;
    while |stack| > 0
      invariant Size(root) == work + ListSize(stack)
      invariant work <= limit || work == 0
      decreases ListSize(stack)
    {
      var last := |stack| - 1;
      var value := stack[last];
      assert stack == stack[..last] + [value];
      ListSizeConcat(stack[..last], [value]);
      if work >= limit {
        return false;
      }
      stack := stack[..last];
      match value {
        case Arr(items) =>
          ListSizeConcat(stack, items);
          stack := stack + items;
        case Obj(_) =>
          stack := PushMembers(stack, value);
        case _ =>
      }
      work := work + 1;
    }
    return true;
  }

  // ---------------------------------------------------------------------------
  // Nodes by their place

  /** From a container to a member or an element. */
  datatype Step = Member(name: bytes) | Item(n: nat)

  /** The value at a place, if there is one. */
  function NodeAt(value: Json, place: seq<Step>): Option<Json>
    decreases |place|
  {
    if place == [] then Some(value)
    else if value.Obj? && place[0].Member? && place[0].name in value.fields then NodeAt(value.fields[place[0].name], place[1..])
    else if value.Arr? && place[0].Item? && place[0].n < |value.items| then NodeAt(value.items[place[0].n], place[1..])
    else None
  }

  ghost predicate Places(s: set<seq<Step>>, value: Json) {
    forall p :: p in s <==> NodeAt(value, p).Some?
  }

  function Under(step: Step, s: set<seq<Step>>): set<seq<Step>> {
    set p | p in s :: [step] + p
  }

  lemma UnderExact(step: Step, s: set<seq<Step>>, p: seq<Step>)
    ensures p in Under(step, s) <==> p != [] && p[0] == step && p[1..] in s
  {
    if p != [] && p[0] == step && p[1..] in s { assert p == [step] + p[1..]; }
    if q :| q in s && p == [step] + q { assert p[1..] == q; }
  }

  lemma {:induction false} UnderSize(step: Step, s: set<seq<Step>>)
    ensures |Under(step, s)| == |s|
    decreases |s|
  {
    if s != {} {
      var q :| q in s;
      UnderSize(step, s - {q});
      UnderExact(step, s - {q}, [step] + q);
      assert ([step] + q)[1..] == q;
      assert Under(step, s) == Under(step, s - {q}) + {[step] + q};
    }
  }

  lemma DisjointSize(s: set<seq<Step>>, t: set<seq<Step>>)
    requires s !! t
    ensures |s + t| == |s| + |t|
  {
  }

  /** The size of a value is the number of places in it. */
  lemma {:induction false} SizeIsPlaces(value: Json) returns (s: set<seq<Step>>)
    ensures Places(s, value) && |s| == Size(value)
    decreases value, 1, 0
  {
    s := {[]};
    match value {
      case Arr(items) =>
        var inner := ItemPlaces(value, |items|);
        assert items[..|items|] == items;
        s := WithRoot(inner);
      case Obj(fields) =>
        var inner := MemberPlaces(value, fields.Keys);
        s := WithRoot(inner);
      case _ =>
    }
  }

  lemma WithRoot(inner: set<seq<Step>>) returns (s: set<seq<Step>>)
    requires [] !in inner
    ensures |s| == 1 + |inner| && forall p :: p in s <==> p == [] || p in inner
  {
    DisjointSize({[]}, inner);
    s := {[]} + inner;
  }

  /** A place in one of the first `n` elements. */
  predicate InItems(value: Json, n: nat, p: seq<Step>)
    requires value.Arr? && n <= |value.items|
  {
    p != [] && p[0].Item? && p[0].n < n && NodeAt(value.items[p[0].n], p[1..]).Some?
  }

  lemma InLastItem(value: Json, n: nat, last: set<seq<Step>>, p: seq<Step>)
    requires value.Arr? && 0 < n <= |value.items| && Places(last, value.items[n - 1])
    ensures p in Under(Item(n - 1), last) <==> InItems(value, n, p) && !InItems(value, n - 1, p)
  {
    UnderExact(Item(n - 1), last, p);
  }

  lemma {:induction false} ItemPlaces(value: Json, n: nat) returns (s: set<seq<Step>>)
    requires value.Arr? && n <= |value.items|
    ensures |s| == ListSize(value.items[..n])
    ensures forall p :: p in s <==> InItems(value, n, p)
    decreases value, 0, n
  {
    s := {};
    if n > 0 {
      var before := ItemPlaces(value, n - 1);
      var last := SizeIsPlaces(value.items[n - 1]);
      UnderSize(Item(n - 1), last);
      OneItemMore(value.items, n);
      s := WithLast(value, n, before, last);
    }
  }

  lemma WithLast(value: Json, n: nat, before: set<seq<Step>>, last: set<seq<Step>>) returns (s: set<seq<Step>>)
    requires value.Arr? && 0 < n <= |value.items| && Places(last, value.items[n - 1])
    requires forall p :: p in before <==> InItems(value, n - 1, p)
    ensures |s| == |before| + |Under(Item(n - 1), last)|
    ensures forall p :: p in s <==> InItems(value, n, p)
  {
    var added := Under(Item(n - 1), last);
    forall p ensures p in added <==> InItems(value, n, p) && !InItems(value, n - 1, p) {
      InLastItem(value, n, last, p);
    }
    DisjointSize(before, added);
    s := before + added;
  }

  lemma OneItemMore(items: seq<Json>, n: nat)
    requires 0 < n <= |items|
    ensures ListSize(items[..n]) == ListSize(items[..n - 1]) + Size(items[n - 1])
  {
    ListSizeConcat(items[..n - 1], [items[n - 1]]);
    assert items[..n] == items[..n - 1] + [items[n - 1]];
  }

  /** A place in one of the members of these names. */
  predicate InMembers(value: Json, names: set<bytes>, p: seq<Step>)
    requires value.Obj? && names <= value.fields.Keys
  {
    p != [] && p[0].Member? && p[0].name in names && NodeAt(value.fields[p[0].name], p[1..]).Some?
  }

  lemma {:induction false} MemberPlaces(value: Json, names: set<bytes>) returns (s: set<seq<Step>>)
    requires value.Obj? && names <= value.fields.Keys
    ensures |s| == MembersSize(value, names)
    ensures forall p :: p in s <==> InMembers(value, names, p)
    decreases value, 0, |names|
  {
    s := {};
    if names != {} {
      var name :| name in names;
      var others := MemberPlaces(value, names - {name});
      var member := SizeIsPlaces(value.fields[name]);
      UnderSize(Member(name), member);
      AnyMemberFirst(value, names, name);
      s := WithMember(value, names, name, others, member);
    }
  }

  lemma WithMember(value: Json, names: set<bytes>, name: bytes, others: set<seq<Step>>, member: set<seq<Step>>) returns (s: set<seq<Step>>)
    requires value.Obj? && names <= value.fields.Keys && name in names && Places(member, value.fields[name])
    requires forall p :: p in others <==> InMembers(value, names - {name}, p)
    ensures |s| == |others| + |Under(Member(name), member)|
    ensures forall p :: p in s <==> InMembers(value, names, p)
  {
    var added := Under(Member(name), member);
    forall p ensures p in added <==> InMembers(value, names, p) && !InMembers(value, names - {name}, p) {
      UnderExact(Member(name), member, p);
    }
    DisjointSize(others, added);
    s := others + added;
  }
}

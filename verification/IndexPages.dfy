/**
 Paging through the answer to an index query while the store changes: a matching document that is not
 written in the meantime is on exactly one page.
 */
module IndexPages {
  import opened Bytes
  import opened Catalog
  import opened Bounds
  import opened IndexEntry
  import opened Answers
  import opened Scan
  import opened QueryIndex
  import P = Paging

  ghost function Contents(a: Store, q: Query): iset<Entry>
    requires q.value != []
  {
    iset e | Matching(a, q, e)
  }

  lemma EntryOrderStrict()
    ensures P.StrictOrder(Before)
  {
    forall x: Entry ensures !Before(x, x) {
      LessIrreflexive(x.value);
      LessIrreflexive(x.id);
    }
    forall x: Entry, y: Entry, z: Entry | Before(x, y) && Before(y, z) ensures Before(x, z) {
      BeforeTransitive(x, y, z);
    }
    forall x: Entry, y: Entry ensures Before(x, y) || x == y || Before(y, x) {
      LessTotal(x.value, y.value);
      LessTotal(x.id, y.id);
    }
  }

  /** A page asked for: the store it is from, how much it may show, where it starts and what there is from there on. */
  datatype Turn = Turn(store: Store, limit: nat, after: Option<Entry>, rest: seq<Entry>)

  function Shown(t: Turn): seq<Entry> {
    UpTo(t.rest, t.limit)
  }

  function AsPage(t: Turn): P.Page<Entry>
    requires t.limit >= 1
  {
    P.Page(t.after, Shown(t), if |t.rest| > t.limit then Some(t.rest[t.limit - 1]) else None)
  }

  ghost predicate FairTurn(t: Turn, q: Query)
    requires q.value != []
  {
    t.limit >= 1 && Listed(t.rest, t.store, q, t.after)
  }

  /** The next page starts behind the last entry of this one. */
  predicate Follows(t: Turn, u: Turn) {
    t.limit >= 1 && |t.rest| > t.limit && u.after == Some(t.rest[t.limit - 1])
  }

  /** Pages from the first to the last, each on whatever the store is by then. */
  ghost predicate Walked(q: Query, turns: seq<Turn>) {
    && q.value != [] && |turns| > 0
    && turns[0].after.None? && |turns[|turns| - 1].rest| <= turns[|turns| - 1].limit
    && (forall i :: 0 <= i < |turns| ==> FairTurn(turns[i], q))
    && forall i :: 0 <= i < |turns| - 1 ==> Follows(turns[i], turns[i + 1])
  }

  lemma MemberShown(entries: seq<Entry>, limit: nat, e: Entry)
    requires SortedEntries(entries) && limit >= 1
    ensures e in UpTo(entries, limit) <==> e in entries && !(|entries| > limit && Before(entries[limit - 1], e))
  {
    if |entries| > limit {
      if e in entries[..limit] {
        var i :| 0 <= i < limit && entries[i] == e;
        if i < limit - 1 { BeforeStrict(e, entries[limit - 1]); } else { LessIrreflexive(e.value); LessIrreflexive(e.id); }
      }
      if e in entries {
        var i :| 0 <= i < |entries| && entries[i] == e;
        if i < limit { assert entries[..limit][i] == e; }
      }
    }
  }

  /** The first entries of an answer show what there is up to the last of them. */
  lemma TurnShows(t: Turn, q: Query)
    requires q.value != [] && FairTurn(t, q)
    ensures P.Shows(Before, AsPage(t), Contents(t.store, q))
  {
    var p := AsPage(t);
    forall e ensures e in p.shown <==> e in Contents(t.store, q) && P.Behind(Before, p.after, e) && !(p.next.Some? && Before(p.next.value, e)) {
      TurnMember(t, q, e);
    }
    ShownSorted(t, q);
  }

  lemma TurnMember(t: Turn, q: Query, e: Entry)
    requires q.value != [] && FairTurn(t, q)
    ensures e in Shown(t) <==>
            e in Contents(t.store, q) && P.Behind(Before, t.after, e) && !(|t.rest| > t.limit && Before(t.rest[t.limit - 1], e))
  {
    MemberShown(t.rest, t.limit, e);
  }

  lemma ShownSorted(t: Turn, q: Query)
    requires q.value != [] && FairTurn(t, q)
    ensures P.Sorted(Before, AsPage(t).shown)
    ensures AsPage(t).next.Some? ==> P.Behind(Before, t.after, AsPage(t).next.value)
  {
    if |t.rest| > t.limit { assert t.rest[t.limit - 1] in t.rest; }
  }

  ghost function Pages(turns: seq<Turn>): (pages: seq<P.Page<Entry>>)
    requires forall i :: 0 <= i < |turns| ==> turns[i].limit >= 1
    ensures |pages| == |turns| && forall i :: 0 <= i < |turns| ==> pages[i] == AsPage(turns[i])
  {
    seq(|turns|, i requires 0 <= i < |turns| => AsPage(turns[i]))
  }

  ghost function AllContents(turns: seq<Turn>, q: Query): (contents: seq<iset<Entry>>)
    requires q.value != []
    ensures |contents| == |turns| && forall i :: 0 <= i < |turns| ==> contents[i] == Contents(turns[i].store, q)
  {
    seq(|turns|, i requires 0 <= i < |turns| => Contents(turns[i].store, q))
  }

  lemma WalkLimits(q: Query, turns: seq<Turn>)
    requires Walked(q, turns)
    ensures forall i :: 0 <= i < |turns| ==> turns[i].limit >= 1
  {
    assert forall i :: 0 <= i < |turns| ==> FairTurn(turns[i], q);
  }

  lemma WalkIsChain(q: Query, turns: seq<Turn>)
    requires Walked(q, turns)
    ensures forall i :: 0 <= i < |turns| ==> turns[i].limit >= 1
    ensures P.Chain(Before, Pages(turns), AllContents(turns, q))
  {
    WalkLimits(q, turns);
    var pages, contents := Pages(turns), AllContents(turns, q);
    forall i | 0 <= i < |pages| ensures P.Shows(Before, pages[i], contents[i]) {
      TurnShows(turns[i], q);
    }
    forall i | 0 <= i < |pages| - 1 ensures P.Linked(pages[i], pages[i + 1]) {
      Links(turns[i], turns[i + 1]);
    }
  }

  lemma Links(t: Turn, u: Turn)
    requires Follows(t, u) && u.limit >= 1
    ensures P.Linked(AsPage(t), AsPage(u))
  {
  }

  /** A matching entry that is there for every page is on exactly one. */
  lemma EntryOnOnePage(q: Query, turns: seq<Turn>, e: Entry) returns (j: nat)
    requires Walked(q, turns) && forall i :: 0 <= i < |turns| ==> Matching(turns[i].store, q, e)
    ensures j < |turns| && forall k :: 0 <= k < |turns| ==> (e in Shown(turns[k]) <==> k == j)
  {
    WalkIsChain(q, turns);
    EntryOrderStrict();
    j := P.ExactlyOnePage(Before, Pages(turns), AllContents(turns, q), e);
    forall k | 0 <= k < |turns| ensures e in Shown(turns[k]) <==> k == j {
      assert Pages(turns)[k].shown == Shown(turns[k]);
    }
  }

  /** The document, the definitions and the database are as they were. */
  predicate Unchanged(a: Store, b: Store, db: bytes, id: bytes) {
    db in a && db in b && a[db].defs == b[db].defs && Find(a, db, id) == Find(b, db, id)
  }

  lemma StaysMatching(a: Store, b: Store, q: Query, e: Entry)
    requires q.value != [] && Matching(a, q, e) && Unchanged(a, b, q.db, e.id)
    ensures Matching(b, q, e)
    ensures forall v :: Matching(b, q, Entry(v, e.id)) ==> v == e.value
  {
  }

  /** A page that shows the document shows this entry of it, once. */
  lemma IdShown(q: Query, t: Turn, e: Entry)
    requires q.value != [] && FairTurn(t, q) && forall v :: Matching(t.store, q, Entry(v, e.id)) ==> v == e.value
    ensures e.id in Ids(Shown(t)) <==> e in Shown(t)
    ensures forall m, n :: 0 <= m < n < |Shown(t)| ==> !(Ids(Shown(t))[m] == e.id == Ids(Shown(t))[n])
  {
    var shown := Shown(t);
    forall n | 0 <= n < |shown| && shown[n].id == e.id ensures shown[n] == e {
      assert shown[n] in t.rest;
      assert shown[n] == Entry(shown[n].value, e.id);
    }
    if e in shown {
      var n :| 0 <= n < |shown| && shown[n] == e;
      assert Ids(shown)[n] == e.id;
    }
    forall m, n | 0 <= m < n < |shown| ensures !(shown[m].id == e.id == shown[n].id) {
      assert Before(t.rest[m], t.rest[n]);
      BeforeStrict(t.rest[m], t.rest[n]);
    }
  }

  /** A matching document that is not written while a client pages is on exactly one page, and there once. */
  lemma DocumentOnOnePage(q: Query, turns: seq<Turn>, e: Entry) returns (j: nat)
    requires Walked(q, turns) && Matching(turns[0].store, q, e)
    requires forall i :: 0 <= i < |turns| ==> Unchanged(turns[0].store, turns[i].store, q.db, e.id)
    ensures j < |turns| && forall k :: 0 <= k < |turns| ==> (e.id in Ids(Shown(turns[k])) <==> k == j)
    ensures forall m, n :: 0 <= m < n < |Shown(turns[j])| ==> !(Ids(Shown(turns[j]))[m] == e.id == Ids(Shown(turns[j]))[n])
  {
    forall i | 0 <= i < |turns| ensures Matching(turns[i].store, q, e) {
      StaysMatching(turns[0].store, turns[i].store, q, e);
    }
    j := EntryOnOnePage(q, turns, e);
    forall k | 0 <= k < |turns| ensures e.id in Ids(Shown(turns[k])) <==> k == j {
      assert FairTurn(turns[k], q);
      StaysMatching(turns[0].store, turns[k].store, q, e);
      IdShown(q, turns[k], e);
    }
    assert FairTurn(turns[j], q);
    StaysMatching(turns[0].store, turns[j].store, q, e);
    IdShown(q, turns[j], e);
  }

  /** On a store that stays as it is, the pages put together are the whole answer. */
  lemma PagesAreAnswer(q: Query, turns: seq<Turn>)
    requires Walked(q, turns) && forall i :: 0 <= i < |turns| ==> turns[i].store == turns[0].store
    ensures forall i :: 0 <= i < |turns| ==> turns[i].limit >= 1
    ensures Listed(P.Concat(Pages(turns)), turns[0].store, q, None)
  {
    WalkIsChain(q, turns);
    EntryOrderStrict();
    P.PagesAreAll(Before, Pages(turns), AllContents(turns, q), Contents(turns[0].store, q));
  }

  /** ... and paging comes to an end: each page leaves less. */
  lemma LessIsLeft(q: Query, t: Turn, u: Turn)
    requires q.value != [] && FairTurn(t, q) && FairTurn(u, q) && Follows(t, u) && t.store == u.store
    ensures |u.rest| < |t.rest| && u.rest == t.rest[t.limit..]
  {
    SameRest(t.rest, t.limit, t.after, u.rest, Contents(t.store, q));
  }

  /** What is behind the last entry of a page is what the page leaves. */
  lemma SameRest(entries: seq<Entry>, limit: nat, after: Option<Entry>, later: seq<Entry>, s: iset<Entry>)
    requires SortedEntries(entries) && SortedEntries(later) && 1 <= limit < |entries|
    requires forall e :: e in entries <==> e in s && P.Behind(Before, after, e)
    requires forall e :: e in later <==> e in s && Before(entries[limit - 1], e)
    ensures later == entries[limit..]
  {
    var rest := entries[limit..];
    assert entries[limit - 1] in entries;
    forall e ensures e in rest <==> e in later {
      RestIsLater(entries, limit, e);
      if e in s && Before(entries[limit - 1], e) && after.Some? { BeforeTransitive(after.value, entries[limit - 1], e); }
    }
    forall i, j | 0 <= i < j < |rest| ensures Before(rest[i], rest[j]) {
      assert Before(entries[limit + i], entries[limit + j]);
    }
    SortedEntriesUnique(rest, later);
  }

  lemma RestIsLater(entries: seq<Entry>, limit: nat, e: Entry)
    requires SortedEntries(entries) && 1 <= limit < |entries|
    ensures e in entries[limit..] <==> e in entries && Before(entries[limit - 1], e)
  {
    MemberShown(entries, limit, e);
    if e in entries[limit..] {
      var i :| limit <= i < |entries| && entries[i] == e;
      assert Before(entries[limit - 1], entries[i]);
    }
    if e in entries && Before(entries[limit - 1], e) { InRest(entries, limit, e); }
  }

  lemma InRest(entries: seq<Entry>, limit: nat, e: Entry)
    requires limit <= |entries| && e in entries && e !in entries[..limit]
    ensures e in entries[limit..]
  {
    assert entries == entries[..limit] + entries[limit..];
  }
}

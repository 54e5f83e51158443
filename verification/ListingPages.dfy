/**
 A client that follows the tokens of index queries to the end, while the store changes.
 */
module ListingPages {
  import opened Bytes
  import opened Catalog
  import opened Bounds
  import opened IndexEntry
  import opened Answers
  import opened QueryIndex
  import opened Cursors
  import opened Listing
  import opened IndexPages
  import V = IndexValue

  /** A request and the entry its token says to start behind, its response, the store that is from and what was left of the answer then. */
  datatype Exchange = Exchange(request: Request, after: Option<Entry>, response: Response, store: Store, rest: seq<Entry>)

  predicate SameQuery(r: Request, first: Request) {
    r.limit >= 1 && r == first.(limit := r.limit, cursor := r.cursor)
  }

  predicate HandsOver(response: Response, next: Request) {
    response.Answer? && response.cursor != [] && next.cursor == response.cursor
  }

  /** Answered as `ListIndexed` answers. */
  ghost predicate Answered(box: Box, x: Exchange) {
    && x.request.limit >= 1 && x.response.Answer? && Lists(box, x.request, x.store, x.response)
    && V.Encode(x.request.value).Value? && V.Encode(x.request.value).bytes != []
    && StartEntry(box, x.request, V.Encode(x.request.value).bytes) == Some(x.after)
    && x.rest == AnswerTo(x.store, QueryOf(x.request, V.Encode(x.request.value).bytes), x.after)
  }

  /** The same query every time, from the token of the response before, to the response that has none. */
  ghost predicate Followed(box: Box, xs: seq<Exchange>) {
    && |xs| > 0 && xs[0].request.cursor == []
    && xs[|xs| - 1].response.Answer? && xs[|xs| - 1].response.cursor == []
    && (forall i :: 0 <= i < |xs| ==> SameQuery(xs[i].request, xs[0].request) && Answered(box, xs[i]))
    && (forall i :: 0 <= i < |xs| - 1 ==> HandsOver(xs[i].response, xs[i + 1].request))
  }

  function TurnOf(x: Exchange): Turn {
    Turn(x.store, x.request.limit, x.after, x.rest)
  }

  /** One exchange, as a turn of the query the first request asks. */
  lemma ExchangeIsTurn(box: Box, x: Exchange, first: Request)
    requires SameQuery(x.request, first) && Answered(box, x)
    ensures V.Encode(first.value).Value?
    ensures var encoded := V.Encode(first.value).bytes;
            && encoded != [] && FairTurn(TurnOf(x), QueryOf(first, encoded))
            && Responds(box, x.request, encoded, x.response, x.rest)
  {
  }

  /** Where a request starts does not depend on how much it asks for. */
  lemma SameStart(box: Box, r: Request, r': Request, encoded: bytes)
    requires r' == r.(limit := r'.limit)
    ensures StartEntry(box, r, encoded) == StartEntry(box, r', encoded)
  {
  }

  /** The next request starts behind the entry the token was made for. */
  lemma NextStart(box: Box, x: Exchange, y: Exchange, first: Request, encoded: bytes)
    requires SameQuery(x.request, first) && SameQuery(y.request, first) && HandsOver(x.response, y.request)
    requires Responds(box, x.request, encoded, x.response, x.rest)
    requires StartEntry(box, y.request, encoded) == Some(y.after)
    ensures |x.rest| > x.request.limit && y.after == Some(x.rest[x.request.limit - 1])
  {
    SameStart(box, x.request.(cursor := x.response.cursor), y.request, encoded);
  }

  lemma ExchangesFollow(box: Box, x: Exchange, y: Exchange, first: Request)
    requires SameQuery(x.request, first) && SameQuery(y.request, first) && HandsOver(x.response, y.request)
    requires Answered(box, x) && Answered(box, y)
    ensures Follows(TurnOf(x), TurnOf(y))
  {
    var encoded := V.Encode(first.value).bytes;
    ExchangeIsTurn(box, x, first);
    StartKnown(box, y, first, encoded);
    NextStart(box, x, y, first, encoded);
    FollowsAt(x, y);
  }

  lemma StartKnown(box: Box, x: Exchange, first: Request, encoded: bytes)
    requires SameQuery(x.request, first) && Answered(box, x) && V.Encode(first.value) == V.Value(encoded)
    ensures StartEntry(box, x.request, encoded) == Some(x.after)
  {
  }

  lemma FollowsAt(x: Exchange, y: Exchange)
    requires 1 <= x.request.limit < |x.rest| && y.after == Some(x.rest[x.request.limit - 1])
    ensures Follows(TurnOf(x), TurnOf(y))
  {
  }

  ghost function Turns(xs: seq<Exchange>): (turns: seq<Turn>)
    ensures |turns| == |xs| && forall i :: 0 <= i < |xs| ==> turns[i] == TurnOf(xs[i])
  {
    seq(|xs|, i requires 0 <= i < |xs| => TurnOf(xs[i]))
  }

  ghost function Asked(xs: seq<Exchange>): Query
    requires |xs| > 0 && V.Encode(xs[0].request.value).Value?
  {
    QueryOf(xs[0].request, V.Encode(xs[0].request.value).bytes)
  }

  /** Following tokens is walking through the pages of one query. */
  lemma FollowingWalks(box: Box, xs: seq<Exchange>)
    requires Followed(box, xs)
    ensures V.Encode(xs[0].request.value).Value? && Walked(Asked(xs), Turns(xs))
    ensures forall i :: 0 <= i < |xs| ==> xs[i].response.Answer? && xs[i].response.ids == Ids(Shown(Turns(xs)[i]))
  {
    ExchangeIsTurn(box, xs[0], xs[0].request);
    var q := Asked(xs);
    var turns := Turns(xs);
    forall i | 0 <= i < |turns|
      ensures FairTurn(turns[i], q) && xs[i].response.Answer? && xs[i].response.ids == Ids(Shown(turns[i]))
    {
      ExchangeIsTurn(box, xs[i], xs[0].request);
    }
    forall i | 0 <= i < |turns| - 1 ensures Follows(turns[i], turns[i + 1]) {
      ExchangesFollow(box, xs[i], xs[i + 1], xs[0].request);
    }
    ExchangeIsTurn(box, xs[|xs| - 1], xs[0].request);
  }

  /** The scalar under the index path of the document compares as the request asks with its value. */
  predicate Sought(a: Store, r: Request, id: bytes) {
    var x := ScalarAt(a, r.db, r.index, id);
    x.Some? && ScalarCompare(r.op, x.value, r.value)
  }

  /**
   A document that is sought and not written while the client pages is in exactly one response, and every response
   holds only documents that are sought at that moment.
   */
  lemma DocumentInOneResponse(box: Box, xs: seq<Exchange>, id: bytes) returns (j: nat)
    requires Followed(box, xs) && Checked(xs[0].request) && Sought(xs[0].store, xs[0].request, id)
    requires forall i :: 0 <= i < |xs| ==> Unchanged(xs[0].store, xs[i].store, xs[0].request.db, id)
    ensures j < |xs|
    ensures forall k :: 0 <= k < |xs| ==> xs[k].response.Answer? && (id in xs[k].response.ids <==> k == j)
    ensures forall k, x :: 0 <= k < |xs| && x in xs[k].response.ids ==> Sought(xs[k].store, xs[0].request, x)
  {
    FollowingWalks(box, xs);
    var q, r := Asked(xs), xs[0].request;
    V.EncodedValid(r.value);
    MatchingMeans(xs[0].store, q, r.value, id);
    var v :| Matching(xs[0].store, q, Entry(v, id));
    j := EntryInOneResponse(box, xs, Entry(v, id));
    forall k, x | 0 <= k < |xs| && x in xs[k].response.ids ensures Sought(xs[k].store, r, x) {
      assert FairTurn(Turns(xs)[k], q);
      ShownIsSought(q, Turns(xs)[k], r, x);
    }
  }

  lemma ShownIsSought(q: Query, t: Turn, r: Request, id: bytes)
    requires V.Encode(r.value).Value? && Checked(r) && q == QueryOf(r, V.Encode(r.value).bytes) && q.value != []
    requires FairTurn(t, q) && id in Ids(Shown(t))
    ensures Sought(t.store, r, id)
  {
    var shown := Shown(t);
    var i :| 0 <= i < |shown| && Ids(shown)[i] == id;
    assert shown[i] in t.rest;
    assert Matching(t.store, q, Entry(shown[i].value, id));
    MatchingMeans(t.store, q, r.value, id);
  }

  /** Within a response the scalars ascend, and the identifiers where the scalars are the same. */
  lemma ResponseInOrder(box: Box, x: Exchange, m: nat, n: nat)
    requires Answered(box, x) && Checked(x.request) && m < n < |x.response.ids|
    ensures var r, ids := x.request, x.response.ids;
            var u, v := ScalarAt(x.store, r.db, r.index, ids[m]), ScalarAt(x.store, r.db, r.index, ids[n]);
            && u.Some? && v.Some?
            && (r.op != Eq ==> V.ScalarLess(u.value, v.value) || (V.SameScalar(u.value, v.value) && Less(ids[m], ids[n])))
            && (r.op == Eq ==> Less(ids[m], ids[n]))
  {
    var r := x.request;
    ExchangeIsTurn(box, x, r);
    var q := QueryOf(r, V.Encode(r.value).bytes);
    V.EncodedValid(r.value);
    var e, f := x.rest[m], x.rest[n];
    assert e in x.rest && f in x.rest && Before(e, f);
    assert Ids(Shown(TurnOf(x)))[m] == e.id && Ids(Shown(TurnOf(x)))[n] == f.id;
    InScalarOrder(x.store, q, e, f);
  }

  lemma InScalarOrder(a: Store, q: Query, e: Entry, f: Entry)
    requires q.value != [] && Matching(a, q, e) && Matching(a, q, f) && Before(e, f)
    requires q.op == Eq || q.value[0] == V.NUMBER || q.value[0] == V.STRING
    ensures var u, v := ScalarAt(a, q.db, q.index, e.id), ScalarAt(a, q.db, q.index, f.id);
            && u.Some? && v.Some?
            && (q.op != Eq ==> V.ScalarLess(u.value, v.value) || (V.SameScalar(u.value, v.value) && Less(e.id, f.id)))
            && (q.op == Eq ==> Less(e.id, f.id))
  {
    if q.op == Eq {
      LessIrreflexive(e.value);
    } else {
      BeforeMeans(a, q, e, f);
    }
  }

  lemma EntryInOneResponse(box: Box, xs: seq<Exchange>, e: Entry) returns (j: nat)
    requires Followed(box, xs) && V.Encode(xs[0].request.value).Value? && Asked(xs).value != []
    requires Matching(xs[0].store, Asked(xs), e)
    requires forall i :: 0 <= i < |xs| ==> Unchanged(xs[0].store, xs[i].store, Asked(xs).db, e.id)
    ensures j < |xs|
    ensures forall k :: 0 <= k < |xs| ==> xs[k].response.Answer? && (e.id in xs[k].response.ids <==> k == j)
  {
    FollowingWalks(box, xs);
    j := DocumentOnOnePage(Asked(xs), Turns(xs), e);
  }
}

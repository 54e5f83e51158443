/**
 A client that follows the tokens of a path query to the end, while the store changes.
 */
module PathPages {
  import opened Bytes
  import opened Picks
  import opened Catalog
  import opened Bounds
  import opened IndexEntry
  import opened Answers
  import opened QueryIndex
  import opened WorkScan
  import opened PathQuery
  import opened PathScan
  import opened Cursors
  import opened PathExecute
  import I = IndexPages
  import V = IndexValue
  import P = Paging

  /** A request and where its token says to start, its response, the store that is from, and what it was made from. */
  datatype Exchange = Exchange(request: PathRequest, at: Resume, response: Response, store: Store,
                               entries: seq<Entry>, page: ScanPage<QueryError>)

  ghost predicate SameQuery(r: PathRequest, first: PathRequest) {
    r.limit >= 1 && r == first.(limit := r.limit, cursor := r.cursor)
  }

  predicate HandsOver(response: Response, next: PathRequest) {
    response.Answer? && response.cursor != [] && next.cursor == response.cursor
  }

  /** What was left of the answer in the index. */
  ghost function EntriesFor(x: Exchange, index: bytes, encoded: bytes): seq<Entry>
    requires encoded != []
  {
    var q := QueryOf(x.request, index, encoded);
    AnswerTo(x.store, q, IndexAfter(q, x.at))
  }

  /** Answered as `ExecutePathQuery` answers. */
  ghost predicate Answered(box: Box, index: Option<bytes>, x: Exchange) {
    && x.response.Answer? && Executes(box, x.request, index, x.store, x.response, x.page)
    && V.Encode(x.request.value).Value? && PathStart(box, x.request, index, V.Encode(x.request.value).bytes) == Some(x.at)
    && (index.Some? ==> V.Encode(x.request.value).bytes != [] && x.entries == EntriesFor(x, index.value, V.Encode(x.request.value).bytes))
  }

  /** The same query under the same plan every time, to the response that has no token. */
  ghost predicate Followed(box: Box, index: Option<bytes>, xs: seq<Exchange>) {
    && |xs| > 0 && xs[0].request.cursor == []
    && xs[|xs| - 1].response.Answer? && xs[|xs| - 1].response.cursor == []
    && (forall i :: 0 <= i < |xs| ==> SameQuery(xs[i].request, xs[0].request) && Answered(box, index, xs[i]))
    && (forall i :: 0 <= i < |xs| - 1 ==> HandsOver(xs[i].response, xs[i + 1].request))
  }

  lemma SameStart(box: Box, r: PathRequest, r': PathRequest, index: Option<bytes>, encoded: bytes)
    requires r' == r.(limit := r'.limit)
    ensures PathStart(box, r, index, encoded) == PathStart(box, r', index, encoded)
  {
  }

  /** The next request starts where the token says. */
  lemma TokenTaken(box: Box, index: Option<bytes>, r: PathRequest, response: Response, r': PathRequest, first: PathRequest, encoded: bytes, at: Resume)
    requires SameQuery(r, first) && SameQuery(r', first) && HandsOver(response, r')
    requires Resumes(box, r, index, encoded, response.cursor, at)
    ensures PathStart(box, r', index, encoded) == Some(at)
  {
    SameStart(box, r.(cursor := response.cursor), r', index, encoded);
  }

  lemma StartKnown(box: Box, index: Option<bytes>, x: Exchange, first: PathRequest)
    requires SameQuery(x.request, first) && Answered(box, index, x)
    ensures V.Encode(first.value).Value? && PathStart(box, x.request, index, V.Encode(first.value).bytes) == Some(x.at)
  {
  }

  // ---------------------------------------------------------------------------
  // Scans

  lemma IdOrderStrict()
    ensures P.StrictOrder(IdLess)
  {
    forall x: bytes ensures !IdLess(x, x) {
      LessIrreflexive(x);
    }
    forall x: bytes, y: bytes, z: bytes | IdLess(x, y) && IdLess(y, z) ensures IdLess(x, z) {
      LessTransitive(x, y, z);
    }
    forall x: bytes, y: bytes ensures IdLess(x, y) || x == y || IdLess(y, x) {
      LessTotal(x, y);
    }
  }

  /** A page of a scan, by itself. */
  datatype ScanTurn = ScanTurn(store: Store, at: bytes, page: ScanPage<QueryError>)

  function TurnPage(t: ScanTurn): P.Page<bytes>
    requires t.page.ScanPage?
  {
    AsPage(t.page, AfterId(t.at))
  }

  /** What a scan query is after in a store. */
  ghost function Matches(a: Store, r: PathRequest, encoded: bytes): iset<bytes> {
    Wanted(a, r.db, r.path, r.op, encoded)
  }

  ghost predicate FairScan(t: ScanTurn, r: PathRequest, encoded: bytes) {
    t.page.ScanPage? && P.Shows(IdLess, TurnPage(t), Matches(t.store, r, encoded))
  }

  predicate ScanFollows(t: ScanTurn, u: ScanTurn) {
    t.page.ScanPage? && t.page.more && u.at == t.page.lastId && u.at != []
  }

  ghost predicate ScanWalked(r: PathRequest, encoded: bytes, turns: seq<ScanTurn>) {
    && |turns| > 0 && turns[0].at == []
    && (forall i :: 0 <= i < |turns| ==> FairScan(turns[i], r, encoded))
    && !turns[|turns| - 1].page.more
    && forall i :: 0 <= i < |turns| - 1 ==> ScanFollows(turns[i], turns[i + 1])
  }

  ghost function ScanPages(turns: seq<ScanTurn>): (pages: seq<P.Page<bytes>>)
    requires forall i :: 0 <= i < |turns| ==> turns[i].page.ScanPage?
    ensures |pages| == |turns| && forall i :: 0 <= i < |turns| ==> pages[i] == TurnPage(turns[i])
  {
    seq(|turns|, i requires 0 <= i < |turns| => TurnPage(turns[i]))
  }

  ghost function ScanContents(turns: seq<ScanTurn>, r: PathRequest, encoded: bytes): (contents: seq<iset<bytes>>)
    ensures |contents| == |turns| && forall i :: 0 <= i < |turns| ==> contents[i] == Matches(turns[i].store, r, encoded)
  {
    seq(|turns|, i requires 0 <= i < |turns| => Matches(turns[i].store, r, encoded))
  }

  lemma ScanTurnsArePages(r: PathRequest, encoded: bytes, turns: seq<ScanTurn>)
    requires ScanWalked(r, encoded, turns)
    ensures forall i :: 0 <= i < |turns| ==> turns[i].page.ScanPage?
  {
    assert forall i :: 0 <= i < |turns| ==> FairScan(turns[i], r, encoded);
  }

  lemma ScanLinks(t: ScanTurn, u: ScanTurn)
    requires ScanFollows(t, u) && u.page.ScanPage?
    ensures P.Linked(TurnPage(t), TurnPage(u))
  {
  }

  lemma ScanIsChain(r: PathRequest, encoded: bytes, turns: seq<ScanTurn>)
    requires ScanWalked(r, encoded, turns)
    ensures forall i :: 0 <= i < |turns| ==> turns[i].page.ScanPage?
    ensures P.Chain(IdLess, ScanPages(turns), ScanContents(turns, r, encoded))
  {
    ScanTurnsArePages(r, encoded, turns);
    var pages, contents := ScanPages(turns), ScanContents(turns, r, encoded);
    forall i | 0 <= i < |pages| ensures P.Shows(IdLess, pages[i], contents[i]) {
      assert FairScan(turns[i], r, encoded);
    }
    forall i | 0 <= i < |pages| - 1 ensures P.Linked(pages[i], pages[i + 1]) {
      ScanLinks(turns[i], turns[i + 1]);
    }
  }

  /** A document that matches whenever a page is made is on exactly one page. */
  lemma ScannedOnce(r: PathRequest, encoded: bytes, turns: seq<ScanTurn>, id: bytes) returns (j: nat)
    requires ScanWalked(r, encoded, turns) && forall i :: 0 <= i < |turns| ==> id in Matches(turns[i].store, r, encoded)
    ensures forall i :: 0 <= i < |turns| ==> turns[i].page.ScanPage?
    ensures j < |turns| && forall k :: 0 <= k < |turns| ==> (id in turns[k].page.ids <==> k == j)
  {
    ScanIsChain(r, encoded, turns);
    IdOrderStrict();
    j := P.ExactlyOnePage(IdLess, ScanPages(turns), ScanContents(turns, r, encoded), id);
    forall k | 0 <= k < |turns| ensures id in turns[k].page.ids <==> k == j {
      assert ScanPages(turns)[k].shown == turns[k].page.ids;
    }
  }

  /** On a store that stays as it is, the pages put together are the matching documents in the order of their identifiers. */
  lemma ScansAreFilter(r: PathRequest, encoded: bytes, turns: seq<ScanTurn>)
    requires ScanWalked(r, encoded, turns) && forall i :: 0 <= i < |turns| ==> turns[i].store == turns[0].store
    ensures forall i :: 0 <= i < |turns| ==> turns[i].page.ScanPage?
    ensures P.Sorted(IdLess, P.Concat(ScanPages(turns)))
    ensures forall id :: id in P.Concat(ScanPages(turns)) <==> PathMatching(turns[0].store, r.db, r.path, r.op, encoded, id)
    ensures Checked(r) && V.Encode(r.value) == V.Value(encoded) ==>
              forall id :: id in P.Concat(ScanPages(turns)) <==> Sought(turns[0].store, r.db, r.path, r.op, r.value, id)
  {
    if Checked(r) && V.Encode(r.value) == V.Value(encoded) { WantedMeans(turns[0].store, r.db, r.path, r.op, r.value); }
    ScanIsChain(r, encoded, turns);
    IdOrderStrict();
    P.PagesAreAll(IdLess, ScanPages(turns), ScanContents(turns, r, encoded), Matches(turns[0].store, r, encoded));
  }

  /** The documents still to be looked at. */
  function Ahead(a: Store, db: bytes, after: Option<bytes>): set<bytes>
    requires db in a
  {
    set id | id in a[db].docs && P.Behind(IdLess, after, id)
  }

  /** Each page leaves fewer documents to look at, even an empty one; so paging comes to an end. */
  lemma FewerAhead(a: Store, r: PathRequest, encoded: bytes, afterId: bytes, maxWork: nat, page: ScanPage<QueryError>)
    requires r.db in a && ScanAnswers(a, r.db, r.path, r.op, encoded, afterId, r.limit, maxWork, page)
    requires page.ScanPage? && page.more
    ensures |Ahead(a, r.db, Some(page.lastId))| < |Ahead(a, r.db, AfterId(afterId))|
  {
    var before, later := Ahead(a, r.db, AfterId(afterId)), Ahead(a, r.db, Some(page.lastId));
    LessIrreflexive(page.lastId);
    assert page.lastId in before && page.lastId !in later;
    forall id | id in later ensures id in before {
      if afterId != [] { LessTransitive(afterId, page.lastId, id); }
    }
    Smaller(later, before, page.lastId);
  }

  lemma Smaller(s: set<bytes>, t: set<bytes>, x: bytes)
    requires s <= t && x in t && x !in s
    ensures |s| < |t|
  {
    SubsetSize(s, t - {x});
  }

  // ---------------------------------------------------------------------------
  // From exchanges to pages

  function ScanTurnOf(x: Exchange): ScanTurn {
    ScanTurn(x.store, x.at.id, x.page)
  }

  /** An exchange answered by scanning, as a page. */
  lemma ExchangeIsScan(box: Box, x: Exchange, first: PathRequest)
    requires SameQuery(x.request, first) && Answered(box, None, x)
    ensures V.Encode(first.value).Value?
    ensures var encoded := V.Encode(first.value).bytes;
            && FairScan(ScanTurnOf(x), first, encoded)
            && x.response.ids == x.page.ids
            && (if x.page.more then Resumes(box, x.request, None, encoded, x.response.cursor, Resume([], x.page.lastId))
                else x.response.cursor == [])
  {
  }

  lemma ScanExchangesFollow(box: Box, x: Exchange, y: Exchange, first: PathRequest, encoded: bytes)
    requires SameQuery(x.request, first) && SameQuery(y.request, first) && HandsOver(x.response, y.request)
    requires PathStart(box, y.request, None, encoded) == Some(y.at)
    requires x.page.ScanPage? && (x.page.more ==> x.page.lastId != [])
    requires if x.page.more then Resumes(box, x.request, None, encoded, x.response.cursor, Resume([], x.page.lastId))
             else x.response.cursor == []
    ensures ScanFollows(ScanTurnOf(x), ScanTurnOf(y))
  {
    TokenTaken(box, None, x.request, x.response, y.request, first, encoded, Resume([], x.page.lastId));
  }

  ghost function ScanTurns(xs: seq<Exchange>): (turns: seq<ScanTurn>)
    ensures |turns| == |xs| && forall i :: 0 <= i < |xs| ==> turns[i] == ScanTurnOf(xs[i])
  {
    seq(|xs|, i requires 0 <= i < |xs| => ScanTurnOf(xs[i]))
  }

  lemma LastIdThere(x: Exchange, box: Box, first: PathRequest)
    requires SameQuery(x.request, first) && Answered(box, None, x) && Valid(x.store) && x.page.more
    ensures x.page.lastId != []
  {
    assert x.page.lastId in x.store[x.request.db].docs;
    IdStored(x.store, x.request.db, x.page.lastId);
  }

  /** Following the tokens of a scan is walking through its pages. */
  lemma FollowingScans(box: Box, xs: seq<Exchange>)
    requires Followed(box, None, xs) && forall i :: 0 <= i < |xs| ==> Valid(xs[i].store)
    ensures V.Encode(xs[0].request.value).Value?
    ensures var encoded := V.Encode(xs[0].request.value).bytes;
            ScanWalked(xs[0].request, encoded, ScanTurns(xs))
  {
    var first := xs[0].request;
    ExchangeIsScan(box, xs[0], first);
    var encoded := V.Encode(first.value).bytes;
    var turns := ScanTurns(xs);
    forall i | 0 <= i < |turns| ensures FairScan(turns[i], first, encoded) {
      ExchangeIsScan(box, xs[i], first);
    }
    forall i | 0 <= i < |turns| - 1 ensures ScanFollows(turns[i], turns[i + 1]) {
      ExchangeFollows(box, xs, i, encoded);
    }
    ExchangeIsScan(box, xs[|xs| - 1], first);
    LastHasNoMore(box, xs[|xs| - 1], encoded);
  }

  lemma LastHasNoMore(box: Box, x: Exchange, encoded: bytes)
    requires x.response.Answer? && x.response.cursor == [] && x.page.ScanPage?
    requires if x.page.more then Resumes(box, x.request, None, encoded, x.response.cursor, Resume([], x.page.lastId))
             else x.response.cursor == []
    ensures !x.page.more
  {
  }

  lemma ExchangeFollows(box: Box, xs: seq<Exchange>, i: nat, encoded: bytes)
    requires Followed(box, None, xs) && i < |xs| - 1 && Valid(xs[i].store)
    requires V.Encode(xs[0].request.value) == V.Value(encoded)
    ensures ScanFollows(ScanTurnOf(xs[i]), ScanTurnOf(xs[i + 1]))
  {
    var first := xs[0].request;
    ExchangeIsScan(box, xs[i], first);
    assert HandsOver(xs[i].response, xs[i + 1].request);
    if xs[i].page.more { LastIdThere(xs[i], box, first); }
    StartKnown(box, None, xs[i + 1], first);
    ScanExchangesFollow(box, xs[i], xs[i + 1], first, encoded);
  }

  /** A document with a value that the path selects and that compares as asked, not written meanwhile, is in exactly one response. */
  lemma DocumentScannedOnce(box: Box, xs: seq<Exchange>, id: bytes) returns (j: nat)
    requires Followed(box, None, xs) && forall i :: 0 <= i < |xs| ==> Valid(xs[i].store)
    requires var r := xs[0].request; Checked(r) && Sought(xs[0].store, r.db, r.path, r.op, r.value, id)
    requires forall i :: 0 <= i < |xs| ==> Find(xs[i].store, xs[0].request.db, id) == Find(xs[0].store, xs[0].request.db, id)
    ensures j < |xs|
    ensures forall k :: 0 <= k < |xs| ==> xs[k].response.Answer? && (id in xs[k].response.ids <==> k == j)
  {
    var r := xs[0].request;
    ExchangeIsScan(box, xs[0], r);
    PathMatchingMeans(xs[0].store, r.db, r.path, r.op, r.value, id);
    j := MatchScannedOnce(box, xs, id);
  }

  lemma MatchScannedOnce(box: Box, xs: seq<Exchange>, id: bytes) returns (j: nat)
    requires Followed(box, None, xs) && forall i :: 0 <= i < |xs| ==> Valid(xs[i].store)
    requires V.Encode(xs[0].request.value).Value?
    requires PathMatching(xs[0].store, xs[0].request.db, xs[0].request.path, xs[0].request.op, V.Encode(xs[0].request.value).bytes, id)
    requires forall i :: 0 <= i < |xs| ==> Find(xs[i].store, xs[0].request.db, id) == Find(xs[0].store, xs[0].request.db, id)
    ensures j < |xs|
    ensures forall k :: 0 <= k < |xs| ==> xs[k].response.Answer? && (id in xs[k].response.ids <==> k == j)
  {
    FollowingScans(box, xs);
    var first, encoded := xs[0].request, V.Encode(xs[0].request.value).bytes;
    var turns := ScanTurns(xs);
    forall i | 0 <= i < |turns| ensures id in Matches(turns[i].store, first, encoded) {
      StillMatches(xs[0].store, xs[i].store, first, encoded, id);
    }
    j := ScannedOnce(first, encoded, turns, id);
    forall k | 0 <= k < |xs| ensures xs[k].response.Answer? && (id in xs[k].response.ids <==> k == j) {
      ExchangeIsScan(box, xs[k], first);
      assert turns[k].page == xs[k].page;
    }
  }

  lemma StillMatches(a: Store, b: Store, r: PathRequest, encoded: bytes, id: bytes)
    requires PathMatching(a, r.db, r.path, r.op, encoded, id) && Find(b, r.db, id) == Find(a, r.db, id)
    ensures id in Matches(b, r, encoded)
  {
  }

  // ---------------------------------------------------------------------------
  // By an index

  function IndexTurnOf(q: Query, x: Exchange): I.Turn {
    I.Turn(x.store, x.request.limit, IndexAfter(q, x.at), x.entries)
  }

  lemma ExchangeIsTurn(box: Box, index: bytes, x: Exchange, first: PathRequest)
    requires SameQuery(x.request, first) && Answered(box, Some(index), x)
    ensures V.Encode(first.value).Value?
    ensures var encoded := V.Encode(first.value).bytes;
            && encoded != [] && I.FairTurn(IndexTurnOf(QueryOf(first, index, encoded), x), QueryOf(first, index, encoded))
            && IndexResponds(box, x.request, QueryOf(first, index, encoded), x.response, x.entries)
  {
  }

  /** Resuming at an entry of the answer is starting behind it. */
  lemma ResumesBehind(q: Query, e: Entry)
    requires Resumable(q, e)
    ensures IndexAfter(q, ResumeAt(q, e)) == Some(e)
  {
  }

  lemma LastEntry(q: Query, t: I.Turn)
    requires Valid(t.store) && q.value != [] && I.FairTurn(t, q) && |t.rest| > t.limit
    ensures Resumable(q, t.rest[t.limit - 1])
  {
    var e := t.rest[t.limit - 1];
    assert e in t.rest;
    HasEntryValid(t.store, q.db, q.index, e.value, e.id);
  }

  /** An entry that a page can end with. */
  predicate Resumable(q: Query, e: Entry) {
    e.id != [] && e.value != [] && (q.op == Eq ==> e.value == q.value)
  }

  /** The next request takes up where this response leaves off. */
  lemma NextAt(box: Box, q: Query, x: Exchange, y: Exchange, first: PathRequest)
    requires SameQuery(x.request, first) && SameQuery(y.request, first) && HandsOver(x.response, y.request)
    requires TokenFor(box, x.request, q, x.response.cursor, x.entries)
    requires PathStart(box, y.request, Some(q.index), q.value) == Some(y.at)
    ensures 1 <= x.request.limit < |x.entries| && y.at == ResumeAt(q, x.entries[x.request.limit - 1])
  {
    TokenTaken(box, Some(q.index), x.request, x.response, y.request, first, q.value, ResumeAt(q, x.entries[x.request.limit - 1]));
  }

  lemma FollowsAt(q: Query, x: Exchange, y: Exchange)
    requires 1 <= x.request.limit < |x.entries| && y.at == ResumeAt(q, x.entries[x.request.limit - 1])
    requires Resumable(q, x.entries[x.request.limit - 1])
    ensures I.Follows(IndexTurnOf(q, x), IndexTurnOf(q, y))
  {
    ResumesBehind(q, x.entries[x.request.limit - 1]);
  }

  lemma FairResumable(q: Query, x: Exchange)
    requires Valid(x.store) && q.value != [] && I.FairTurn(IndexTurnOf(q, x), q) && 1 <= x.request.limit < |x.entries|
    ensures Resumable(q, x.entries[x.request.limit - 1])
  {
    LastEntry(q, IndexTurnOf(q, x));
  }

  ghost function IndexTurns(q: Query, xs: seq<Exchange>): (turns: seq<I.Turn>)
    ensures |turns| == |xs| && forall i :: 0 <= i < |xs| ==> turns[i] == IndexTurnOf(q, xs[i])
  {
    seq(|xs|, i requires 0 <= i < |xs| => IndexTurnOf(q, xs[i]))
  }

  /** Following the tokens of a query by an index is walking through the pages of that index. */
  lemma FollowingIndex(box: Box, index: bytes, xs: seq<Exchange>)
    requires Followed(box, Some(index), xs) && forall i :: 0 <= i < |xs| ==> Valid(xs[i].store)
    ensures V.Encode(xs[0].request.value).Value?
    ensures var q := QueryOf(xs[0].request, index, V.Encode(xs[0].request.value).bytes); I.Walked(q, IndexTurns(q, xs))
  {
    var first := xs[0].request;
    ExchangeIsTurn(box, index, xs[0], first);
    var encoded := V.Encode(first.value).bytes;
    var q := QueryOf(first, index, encoded);
    var turns := IndexTurns(q, xs);
    forall i | 0 <= i < |turns| ensures I.FairTurn(turns[i], q) {
      ExchangeIsTurn(box, index, xs[i], first);
    }
    forall i | 0 <= i < |turns| - 1 ensures I.Follows(turns[i], turns[i + 1]) {
      ExchangeFollowsOn(box, index, xs[i], xs[i + 1], first, encoded);
    }
    ExchangeIsTurn(box, index, xs[|xs| - 1], first);
    LastIsShort(box, xs[|xs| - 1], q);
  }

  lemma ExchangeFollowsOn(box: Box, index: bytes, x: Exchange, y: Exchange, first: PathRequest, encoded: bytes)
    requires SameQuery(x.request, first) && SameQuery(y.request, first) && HandsOver(x.response, y.request) && Valid(x.store)
    requires Answered(box, Some(index), x) && Answered(box, Some(index), y) && V.Encode(first.value) == V.Value(encoded)
    ensures var q := QueryOf(first, index, encoded); I.Follows(IndexTurnOf(q, x), IndexTurnOf(q, y))
  {
    var q := QueryOf(first, index, encoded);
    ExchangeIsTurn(box, index, x, first);
    StartKnown(box, Some(index), y, first);
    NextAt(box, q, x, y, first);
    FairResumable(q, x);
    FollowsAt(q, x, y);
  }

  lemma LastIsShort(box: Box, x: Exchange, q: Query)
    requires x.request.limit >= 1 && IndexResponds(box, x.request, q, x.response, x.entries) && x.response.cursor == []
    ensures |x.entries| <= x.request.limit
  {
  }

  /** The entries of an index query stay on their page under path tokens as well. */
  lemma EntryIndexedOnce(box: Box, index: bytes, xs: seq<Exchange>, e: Entry) returns (j: nat)
    requires Followed(box, Some(index), xs) && forall i :: 0 <= i < |xs| ==> Valid(xs[i].store)
    requires V.Encode(xs[0].request.value).Value? && V.Encode(xs[0].request.value).bytes != []
    requires Matching(xs[0].store, QueryOf(xs[0].request, index, V.Encode(xs[0].request.value).bytes), e)
    requires forall i :: 0 <= i < |xs| ==> I.Unchanged(xs[0].store, xs[i].store, xs[0].request.db, e.id)
    ensures j < |xs|
    ensures forall k :: 0 <= k < |xs| ==> xs[k].response.Answer? && (e.id in xs[k].response.ids <==> k == j)
  {
    FollowingIndex(box, index, xs);
    var q := QueryOf(xs[0].request, index, V.Encode(xs[0].request.value).bytes);
    j := TurnOnce(q, xs, e);
    forall k | 0 <= k < |xs| ensures xs[k].response.Answer? && (e.id in xs[k].response.ids <==> k == j) {
      TurnIds(box, index, xs[k], xs[0].request);
    }
  }

  lemma TurnOnce(q: Query, xs: seq<Exchange>, e: Entry) returns (j: nat)
    requires |xs| > 0 && I.Walked(q, IndexTurns(q, xs)) && Matching(xs[0].store, q, e)
    requires forall i :: 0 <= i < |xs| ==> I.Unchanged(xs[0].store, xs[i].store, q.db, e.id)
    ensures j < |xs| && forall k :: 0 <= k < |xs| ==> (e.id in Ids(I.Shown(IndexTurnOf(q, xs[k]))) <==> k == j)
  {
    j := I.DocumentOnOnePage(q, IndexTurns(q, xs), e);
  }

  lemma TurnIds(box: Box, index: bytes, x: Exchange, first: PathRequest)
    requires SameQuery(x.request, first) && Answered(box, Some(index), x) && V.Encode(first.value).Value?
    ensures x.response.Answer? && x.response.ids == Ids(I.Shown(IndexTurnOf(QueryOf(first, index, V.Encode(first.value).bytes), x)))
  {
    ExchangeIsTurn(box, index, x, first);
  }

  /**
   The same when the index stands in for the path: such a document that is not written while the client pages, under
   definitions that stay, is in exactly one response, and every document shown is one that is sought.
   */
  lemma DocumentIndexedOnce(box: Box, index: bytes, xs: seq<Exchange>, id: bytes) returns (j: nat)
    requires Followed(box, Some(index), xs) && forall i :: 0 <= i < |xs| ==> Valid(xs[i].store)
    requires var r := xs[0].request; Checked(r) && Sought(xs[0].store, r.db, r.path, r.op, r.value, id)
    requires StandsFor(xs[0].store[xs[0].request.db].defs, index, xs[0].request.path)
    requires forall i :: 0 <= i < |xs| ==> I.Unchanged(xs[0].store, xs[i].store, xs[0].request.db, id)
    ensures j < |xs|
    ensures forall k :: 0 <= k < |xs| ==> xs[k].response.Answer? && (id in xs[k].response.ids <==> k == j)
    ensures var r := xs[0].request;
            forall k, x :: 0 <= k < |xs| && x in xs[k].response.ids ==> Sought(xs[k].store, r.db, r.path, r.op, r.value, x)
  {
    var r := xs[0].request;
    ExchangeIsTurn(box, index, xs[0], r);
    PathMatchingMeans(xs[0].store, r.db, r.path, r.op, r.value, id);
    j := MatchIndexedOnce(box, index, xs, id);
    forall k, x | 0 <= k < |xs| && x in xs[k].response.ids ensures Sought(xs[k].store, r.db, r.path, r.op, r.value, x) {
      assert OnlyMatches(xs[k], r);
      PathMatchingMeans(xs[k].store, r.db, r.path, r.op, r.value, x);
    }
  }

  lemma MatchIndexedOnce(box: Box, index: bytes, xs: seq<Exchange>, id: bytes) returns (j: nat)
    requires Followed(box, Some(index), xs) && forall i :: 0 <= i < |xs| ==> Valid(xs[i].store)
    requires V.Encode(xs[0].request.value).Value? && V.Encode(xs[0].request.value).bytes != []
    requires PathMatching(xs[0].store, xs[0].request.db, xs[0].request.path, xs[0].request.op, V.Encode(xs[0].request.value).bytes, id)
    requires StandsFor(xs[0].store[xs[0].request.db].defs, index, xs[0].request.path)
    requires forall i :: 0 <= i < |xs| ==> I.Unchanged(xs[0].store, xs[i].store, xs[0].request.db, id)
    ensures j < |xs|
    ensures forall k :: 0 <= k < |xs| ==> xs[k].response.Answer? && (id in xs[k].response.ids <==> k == j)
    ensures forall k :: 0 <= k < |xs| ==> OnlyMatches(xs[k], xs[0].request)
  {
    var first, encoded := xs[0].request, V.Encode(xs[0].request.value).bytes;
    PlanSound(xs[0].store, first.db, first.path, index, first.op, encoded, id);
    var v :| Matching(xs[0].store, QueryOf(first, index, encoded), Entry(v, id));
    j := EntryIndexedOnce(box, index, xs, Entry(v, id));
    forall k | 0 <= k < |xs| ensures OnlyMatches(xs[k], first) {
      assert I.Unchanged(xs[0].store, xs[k].store, first.db, id);
      ShownMatches(box, index, xs[k], first);
    }
  }

  /** Every document in the response matches the path. */
  predicate OnlyMatches(x: Exchange, first: PathRequest) {
    x.response.Answer? && V.Encode(first.value).Value?
    && forall id :: id in x.response.ids ==> PathMatching(x.store, first.db, first.path, first.op, V.Encode(first.value).bytes, id)
  }

  lemma ShownMatches(box: Box, index: bytes, x: Exchange, first: PathRequest)
    requires SameQuery(x.request, first) && Answered(box, Some(index), x) && V.Encode(first.value).Value?
    requires first.db in x.store && StandsFor(x.store[first.db].defs, index, first.path)
    ensures OnlyMatches(x, first)
  {
    ExchangeIsTurn(box, index, x, first);
    TurnIds(box, index, x, first);
    var encoded := V.Encode(first.value).bytes;
    var q := QueryOf(first, index, encoded);
    forall id | id in x.response.ids ensures PathMatching(x.store, first.db, first.path, first.op, encoded, id) {
      ShownIsMatching(q, x, id);
      PlanSound(x.store, first.db, first.path, index, first.op, encoded, id);
    }
  }

  lemma ShownIsMatching(q: Query, x: Exchange, id: bytes)
    requires q.value != [] && I.FairTurn(IndexTurnOf(q, x), q) && id in Ids(I.Shown(IndexTurnOf(q, x)))
    ensures exists v :: Matching(x.store, q, Entry(v, id))
  {
    var shown := I.Shown(IndexTurnOf(q, x));
    var i :| 0 <= i < |shown| && Ids(shown)[i] == id;
    assert shown[i] in x.entries;
    assert Matching(x.store, q, Entry(shown[i].value, id));
  }
}

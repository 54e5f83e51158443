/**
 Index queries as a client sees them: each response carries the token from which the next request goes on.
 */
module Listing {
  import opened Bytes
  import opened Json
  import opened KeyValue
  import opened Names
  import opened Catalog
  import opened Engine
  import opened Bounds
  import opened IndexEntry
  import opened Answers
  import opened Scan
  import opened QueryIndex
  import opened Cursors
  import V = IndexValue

  datatype Request = Request(db: bytes, index: bytes, op: CmpOp, value: Json, limit: nat, cursor: bytes)

  datatype Response = Answer(ids: seq<bytes>, cursor: bytes) | Refused(error: QueryError)

  /** What the request checks have let through. */
  predicate Checked(r: Request) {
    ValidName(r.db) && r.limit >= 1 && (r.op != Eq ==> !r.value.Null? && !r.value.Bool?)
  }

  function QueryOf(r: Request, encoded: bytes): Query {
    Query(r.db, r.index, r.op, encoded)
  }

  datatype Start = Start(encoded: bytes, lastValue: bytes, id: bytes) | NoStart(error: QueryError)

  /** The cursor is one of this very query. */
  predicate Continues(c: QueryCursor, r: Request, encoded: bytes) {
    c.db == r.db && c.at.index == r.index && c.at.op == OpByte(r.op) && c.at.value == encoded
  }

  /** Where a request starts, as the entry it starts behind; none if its token is not good for it. */
  function StartEntry(box: Box, r: Request, encoded: bytes): Option<Option<Entry>> {
    if r.cursor == [] then Some(None)
    else
      match DecodedQuery(box, r.cursor)
      case None => None
      case Some(c) =>
        if !Continues(c, r, encoded) then None
        else Some(Some(Entry(if r.op == Eq then encoded else c.at.lastValue, c.at.id)))
  }

  /** `queryStart` */
  method QueryStart(box: Box, r: Request) returns (start: Start)
    ensures match V.Encode(r.value)
            case Failed(_) => start == NoStart(BadValue)
            case Value(encoded) => StartsAt(start, r, encoded, StartEntry(box, r, encoded))
  {
    var encoded := V.Encode(r.value);
    if encoded.Failed? {
      return NoStart(BadValue);
    }
    if r.cursor == [] {
      StartsAtFirst(r, encoded.bytes);
      return Start(encoded.bytes, [], []);
    }
    var c := DecodeQueryCursor(box, r.cursor);
    if c.None? || !Continues(c.value, r, encoded.bytes) {
      return NoStart(BadCursor);
    }
    StartsAtCursor(r, encoded.bytes, c.value);
    return Start(encoded.bytes, c.value.at.lastValue, c.value.at.id);
  }

  lemma StartsAtFirst(r: Request, encoded: bytes)
    ensures StartsAt(Start(encoded, [], []), r, encoded, Some(None))
  {
  }

  lemma StartsAtCursor(r: Request, encoded: bytes, c: QueryCursor)
    requires ValidQueryCursor(c) && Continues(c, r, encoded)
    ensures StartsAt(Start(encoded, c.at.lastValue, c.at.id), r, encoded,
                     Some(Some(Entry(if r.op == Eq then encoded else c.at.lastValue, c.at.id))))
  {
    assert OpByte(r.op) == OpByte(Eq) <==> r.op == Eq;
  }

  /** The value and identifier handed to the store say where to start, and are fit for it. */
  predicate StartsAt(start: Start, r: Request, encoded: bytes, after: Option<Option<Entry>>) {
    if after.None? then start == NoStart(BadCursor)
    else
      && start.Start? && start.encoded == encoded
      && (if r.op == Eq then start.lastValue == [] && EqAfter(QueryOf(r, encoded), start.id) == after.value
          else RangeAfter(start.lastValue, start.id) == after.value)
      && (after.value.None? ==> start.id == [])
      && (r.op != Eq && after.value.Some? ==>
            V.Valid(start.lastValue) && encoded != [] && start.lastValue[0] == encoded[0] && ValidId(start.id))
  }

  /** The index query of `listDocs`, from the token of the last response to that of this one. */
  method ListIndexed(box: Box, kv: Kv<Record>, r: Request, nonce: bytes, ghost a: Store)
    returns (response: Response)
    requires Checked(r) && |nonce| == NONCE_SIZE
    ensures Ideal(box) && Represents(kv, a) ==> Lists(box, r, a, response)
  {
    if Represents(kv, a) { ReadsDbKey(kv, a, r.db); }
    var key := ReadDbKey(kv, r.db);
    if !key.Found? {
      return Refused(if key.Missing? then NoDatabase else Corrupted);
    }
    var start := QueryStart(box, r);
    if start.NoStart? {
      return Refused(start.error);
    }
    EncodedValue(r);
    response := ListFrom(box, kv, r, start, nonce, StartEntry(box, r, start.encoded).value, a);
  }

  /** The rest of the way, from where the request starts. */
  method ListFrom(box: Box, kv: Kv<Record>, r: Request, start: Start, nonce: bytes, ghost after: Option<Entry>, ghost a: Store)
    returns (response: Response)
    requires Checked(r) && |nonce| == NONCE_SIZE && start.Start? && StartsAt(start, r, start.encoded, Some(after))
    requires V.Valid(start.encoded) && (r.op != Eq ==> start.encoded[0] == V.NUMBER || start.encoded[0] == V.STRING)
    ensures Ideal(box) && Represents(kv, a) ==> ListsFrom(box, r, a, start.encoded, after, response)
  {
    var q := QueryOf(r, start.encoded);
    var page := FetchPage(kv, r, start, after, a);
    if page.Failed? {
      return Refused(page.error);
    }
    ghost var entries := AnswerTo(a, q, after);
    if Represents(kv, a) { PageContinuable(a, q, after, r.limit, page, entries); }
    response := Respond(box, r, q, page, nonce, entries);
  }

  /** What a response says to a request that starts behind an entry. */
  ghost predicate ListsFrom(box: Box, r: Request, a: Store, encoded: bytes, after: Option<Entry>, response: Response)
    requires r.limit >= 1
  {
    var q := QueryOf(r, encoded);
    if Refusal(a, q).Some? then response == Refused(Refusal(a, q).value)
    else
      && encoded != [] && Listed(AnswerTo(a, q, after), a, q, after)
      && Responds(box, r, encoded, response, AnswerTo(a, q, after))
  }

  /** The page of a query, of either kind. */
  function PageFor(q: Query, entries: seq<Entry>, limit: nat): Result
    requires limit >= 1
  {
    if q.op == Eq then IdPage(entries, limit) else PageOf(entries, limit)
  }

  /** The store's answer. */
  ghost predicate Fetched(a: Store, q: Query, after: Option<Entry>, limit: nat, page: Result, entries: seq<Entry>)
    requires limit >= 1
  {
    match Refusal(a, q)
    case Some(e) => page == QueryIndex.Failed(e)
    case None => q.value != [] && Listed(entries, a, q, after) && page == PageFor(q, entries, limit)
  }

  method FetchPage(kv: Kv<Record>, r: Request, start: Start, ghost after: Option<Entry>, ghost a: Store)
    returns (page: Result)
    requires Checked(r) && start.Start? && StartsAt(start, r, start.encoded, Some(after))
    requires V.Valid(start.encoded) && (r.op != Eq ==> start.encoded[0] == V.NUMBER || start.encoded[0] == V.STRING)
    ensures Represents(kv, a) ==>
              Fetched(a, QueryOf(r, start.encoded), after, r.limit, page, AnswerTo(a, QueryOf(r, start.encoded), after))
  {
    if r.op == Eq {
      page := QueryDocs(kv, r.db, r.index, start.encoded, r.limit, start.id, a);
    } else {
      page := QueryRange(kv, QueryOf(r, start.encoded), r.limit, start.lastValue, start.id, a);
    }
  }

  /** A page that can be continued, if there is more, from the entry it ends with. */
  ghost predicate Continuable(q: Query, entries: seq<Entry>, limit: nat, page: Result) {
    && limit >= 1 && page == PageFor(q, entries, limit)
    && (|entries| > limit ==> page.ids != [] && ValidQueryCursor(CursorFor(q, page)) && entries[limit - 1] == EndOf(q, page))
  }

  /** The response to a page: its identifiers, and a token if there is more. */
  method Respond(box: Box, r: Request, q: Query, page: Result, nonce: bytes, ghost entries: seq<Entry>)
    returns (response: Response)
    requires r.limit >= 1 && q == QueryOf(r, q.value) && page.Page? && |nonce| == NONCE_SIZE
    ensures Ideal(box) && Continuable(q, entries, r.limit, page) ==> Responds(box, r, q.value, response, entries)
  {
    ghost var good := Ideal(box) && Continuable(q, entries, r.limit, page);
    if good { MoreThere(q, entries, r.limit, page); }
    if !page.more {
      if good { EndResponds(box, r, q, entries, page); }
      return Answer(page.ids, []);
    }
    if |page.ids| == 0 {
      return Refused(Corrupted);
    }
    var token := EncodeQueryCursor(box, CursorFor(q, page), nonce);
    if token.None? {
      return Refused(Corrupted);
    }
    if good { MoreResponds(box, r, q, entries, page, token.value); }
    return Answer(page.ids, token.value);
  }

  lemma MoreThere(q: Query, entries: seq<Entry>, limit: nat, page: Result)
    requires Continuable(q, entries, limit, page)
    ensures page.more ==> page.ids != [] && ValidQueryCursor(CursorFor(q, page))
  {
  }

  lemma EndResponds(box: Box, r: Request, q: Query, entries: seq<Entry>, page: Result)
    requires Continuable(q, entries, r.limit, page) && !page.more
    ensures Responds(box, r, q.value, Answer(page.ids, []), entries)
  {
  }

  lemma MoreResponds(box: Box, r: Request, q: Query, entries: seq<Entry>, page: Result, token: bytes)
    requires Continuable(q, entries, r.limit, page) && page.more && page.ids != [] && q == QueryOf(r, q.value)
    requires token != [] && DecodedQuery(box, token) == Some(CursorFor(q, page))
    ensures Responds(box, r, q.value, Answer(page.ids, token), entries)
  {
    LastEnds(q, entries, r.limit, page);
    TokenResumes(box, r, q, page, token);
    RespondsWith(box, r, q, entries, page, token);
  }

  lemma LastEnds(q: Query, entries: seq<Entry>, limit: nat, page: Result)
    requires Continuable(q, entries, limit, page) && page.more
    ensures |entries| > limit && page.ids == Ids(UpTo(entries, limit)) && page.ids != [] && entries[limit - 1] == EndOf(q, page)
  {
  }

  lemma RespondsWith(box: Box, r: Request, q: Query, entries: seq<Entry>, page: Result, token: bytes)
    requires 1 <= r.limit < |entries| && page.Page? && page.ids == Ids(UpTo(entries, r.limit)) && page.ids != []
    requires token != [] && entries[r.limit - 1] == EndOf(q, page)
    requires StartEntry(box, r.(cursor := token), q.value) == Some(Some(EndOf(q, page)))
    ensures Responds(box, r, q.value, Answer(page.ids, token), entries)
  {
  }

  /** The first entries as identifiers, and a token for the rest if there is any. */
  ghost predicate Responds(box: Box, r: Request, encoded: bytes, response: Response, entries: seq<Entry>)
    requires r.limit >= 1
  {
    && response.Answer? && response.ids == Ids(UpTo(entries, r.limit))
    && (if |entries| <= r.limit then response.cursor == []
        else response.cursor != [] && StartEntry(box, r.(cursor := response.cursor), encoded) == Some(Some(entries[r.limit - 1])))
  }

  /** Where the next request goes on. */
  function CursorFor(q: Query, page: Result): QueryCursor
    requires page.Page? && page.ids != []
  {
    QueryCursor(q.db, Position(q.index, OpByte(q.op), q.value, page.lastValue, page.ids[|page.ids| - 1]))
  }

  /** What a response says: the first entries of the answer from the token on, and a token for the rest. */
  ghost predicate Lists(box: Box, r: Request, a: Store, response: Response)
    requires r.limit >= 1
  {
    if r.db !in a then response == Refused(NoDatabase)
    else
      match V.Encode(r.value)
      case Failed(_) => response == Refused(BadValue)
      case Value(encoded) =>
        var after := StartEntry(box, r, encoded);
        if after.None? then response == Refused(BadCursor)
        else ListsFrom(box, r, a, encoded, after.value, response)
  }

  lemma EncodedValue(r: Request)
    requires Checked(r) && V.Encode(r.value).Value?
    ensures var encoded := V.Encode(r.value).bytes; V.Valid(encoded) && (r.op != Eq ==> encoded[0] == V.NUMBER || encoded[0] == V.STRING)
  {
    V.EncodedValid(r.value);
  }

  lemma LastOfPage(q: Query, entries: seq<Entry>, limit: nat, page: Result)
    requires 1 <= limit < |entries| && page == PageFor(q, entries, limit)
    ensures |page.ids| == limit && page.ids[limit - 1] == entries[limit - 1].id
    ensures page.lastValue == if q.op == Eq then [] else entries[limit - 1].value
  {
  }

  lemma LastMatches(a: Store, q: Query, entries: seq<Entry>, n: nat, after: Option<Entry>)
    requires q.value != [] && Listed(entries, a, q, after) && n < |entries|
    ensures Matching(a, q, entries[n])
  {
    assert entries[n] in entries;
  }

  /** A page that is not the last can be continued, from its last entry. */
  lemma CursorValid(q: Query, entries: seq<Entry>, limit: nat, page: Result)
    requires Answerable(q) && 1 <= limit < |entries| && FitsQuery(q, entries[limit - 1]) && page == PageFor(q, entries, limit)
    ensures page.ids != [] && ValidQueryCursor(CursorFor(q, page))
    ensures entries[limit - 1] == EndOf(q, page)
  {
    LastOfPage(q, entries, limit, page);
    EndFits(q, entries[limit - 1], page);
  }

  /** An entry that can be in the answer. */
  predicate FitsQuery(q: Query, e: Entry)
    requires q.value != []
  {
    V.Valid(e.value) && ValidId(e.id) && e.value[0] == q.value[0] && (q.op == Eq ==> e.value == q.value)
  }

  lemma EndFits(q: Query, e: Entry, page: Result)
    requires Answerable(q) && FitsQuery(q, e) && page.Page? && page.ids != [] && page.ids[|page.ids| - 1] == e.id && page.lastValue == if q.op == Eq then [] else e.value
    ensures ValidQueryCursor(CursorFor(q, page)) && e == EndOf(q, page)
  {
    PositionFits(q, e, page);
  }

  lemma PageContinuable(a: Store, q: Query, after: Option<Entry>, limit: nat, page: Result, entries: seq<Entry>)
    requires Valid(a) && limit >= 1 && page.Page? && Fetched(a, q, after, limit, page, entries)
    ensures Continuable(q, entries, limit, page)
  {
    RefusalNone(a, q);
    if |entries| > limit {
      LastMatches(a, q, entries, limit - 1, after);
      EntryFits(a, q, entries[limit - 1]);
      CursorValid(q, entries, limit, page);
    }
  }

  /** The entry a page ends with, as far as the page tells. */
  function EndOf(q: Query, page: Result): Entry
    requires page.Page? && page.ids != []
  {
    Entry(if q.op == Eq then q.value else page.lastValue, page.ids[|page.ids| - 1])
  }

  lemma EntryFits(a: Store, q: Query, e: Entry)
    requires Valid(a) && q.value != [] && Matching(a, q, e)
    ensures FitsQuery(q, e)
  {
    HasEntryValid(a, q.db, q.index, e.value, e.id);
  }

  lemma PositionFits(q: Query, e: Entry, page: Result)
    requires Answerable(q) && V.Valid(e.value) && ValidId(e.id) && e.value[0] == q.value[0] && page.Page? && page.ids != []
    requires page.ids[|page.ids| - 1] == e.id && page.lastValue == if q.op == Eq then [] else e.value
    ensures ValidQueryCursor(CursorFor(q, page))
  {
    assert OpByte(q.op) == OpByte(Eq) <==> q.op == Eq;
  }

  lemma TokenResumes(box: Box, r: Request, q: Query, page: Result, token: bytes)
    requires page.Page? && page.ids != [] && q == QueryOf(r, q.value) && token != []
    requires DecodedQuery(box, token) == Some(CursorFor(q, page))
    ensures StartEntry(box, r.(cursor := token), q.value) == Some(Some(EndOf(q, page)))
  {
  }

  // ---------------------------------------------------------------------------
  // Tokens of other queries

  /** A token is good for a request exactly if database, index, operator and value in it are those of the request. */
  lemma TokenGoodExactly(box: Box, r: Request, encoded: bytes)
    requires r.cursor != []
    ensures StartEntry(box, r, encoded).Some? <==>
            (var c := DecodedQuery(box, r.cursor);
             c.Some? && c.value.db == r.db && c.value.at.index == r.index && c.value.at.op == OpByte(r.op) && c.value.at.value == encoded)
  {
  }

  /** The token of a response is refused by every request that asks for another database, index, operator or value. */
  lemma ForeignTokenRefused(box: Box, r: Request, a: Store, response: Response, r': Request, b: Store, response': Response)
    requires r.limit >= 1 && Lists(box, r, a, response) && response.Answer? && response.cursor != []
    requires r'.limit >= 1 && Lists(box, r', b, response') && r'.cursor == response.cursor
    requires r'.db in b && V.Encode(r'.value).Value?
    requires r'.db != r.db || r'.index != r.index || r'.op != r.op || V.Encode(r'.value) != V.Encode(r.value)
    ensures response' == Refused(BadCursor)
  {
    var encoded, encoded' := V.Encode(r.value).bytes, V.Encode(r'.value).bytes;
    TokenGoodExactly(box, r.(cursor := response.cursor), encoded);
    TokenGoodExactly(box, r', encoded');
    OpByteApart(r.op, r'.op);
  }

  lemma OpByteApart(op: CmpOp, op': CmpOp)
    ensures OpByte(op) == OpByte(op') ==> op == op'
  {
  }
}

/**
 One request of a path query, by the index planned for it or by scanning, from the token of the last response
 to that of this one.
 */
module PathExecute {
  import opened Bytes
  import opened Json
  import opened KeyValue
  import opened Names
  import opened Catalog
  import opened Engine
  import opened Bounds
  import opened IndexEntry
  import opened Answers
  import opened QueryIndex
  import opened WorkScan
  import opened PathScan
  import opened Cursors
  import S = Scan
  import L = Listing
  import JsonPath
  import V = IndexValue

  /** The query with its parsed path and the hash of the path's text. */
  datatype PathRequest = PathRequest(db: bytes, path: JsonPath.Path, hash: bytes, op: CmpOp, value: Json, limit: nat, cursor: bytes)

  datatype Response = Answer(ids: seq<bytes>, cursor: bytes) | Refused(error: QueryError)

  /** What the request checks have let through. */
  predicate Checked(r: PathRequest) {
    ValidName(r.db) && r.limit >= 1 && |r.hash| == HASH_SIZE && (r.op != Eq ==> r.value.Number? || r.value.Str?)
  }

  /** Where a page starts: behind a value and an identifier, or behind an identifier alone. */
  datatype Resume = Resume(lastValue: bytes, id: bytes)

  function OrderOf(index: Option<bytes>): byte {
    if index.Some? then ORDER_INDEX else ORDER_DOCUMENT
  }

  function IndexName(index: Option<bytes>): bytes {
    if index.Some? then index.value else []
  }

  /** `matchPathCursor`: the token is of this very query under this very plan. */
  predicate Continues(c: PathCursor, r: PathRequest, index: Option<bytes>, encoded: bytes) {
    && c.verb == QUERY_METHOD && c.dialect == JSON_PATH && c.order == OrderOf(index) && c.db == r.db && c.pathHash == r.hash
    && c.at.index == IndexName(index) && c.at.op == OpByte(r.op) && c.at.value == encoded
  }

  function PathStart(box: Box, r: PathRequest, index: Option<bytes>, encoded: bytes): Option<Resume> {
    if r.cursor == [] then Some(Resume([], []))
    else
      match DecodedPath(box, r.cursor)
      case None => None
      case Some(c) => if Continues(c, r, index, encoded) then Some(Resume(c.at.lastValue, c.at.id)) else None
  }

  /** The cursor of the next page. */
  function NextCursor(r: PathRequest, index: Option<bytes>, encoded: bytes, at: Resume): PathCursor {
    PathCursor(QUERY_METHOD, JSON_PATH, OrderOf(index), r.db, r.hash,
               Position(IndexName(index), OpByte(r.op), encoded, at.lastValue, at.id))
  }

  /** A token takes the query up where it was left. */
  ghost predicate Resumes(box: Box, r: PathRequest, index: Option<bytes>, encoded: bytes, token: bytes, at: Resume) {
    token != [] && PathStart(box, r.(cursor := token), index, encoded) == Some(at)
  }

  method MakeToken(box: Box, r: PathRequest, index: Option<bytes>, encoded: bytes, at: Resume, nonce: bytes)
    returns (token: Option<bytes>)
    requires |nonce| == NONCE_SIZE && |r.hash| == HASH_SIZE
    ensures ValidPathCursor(NextCursor(r, index, encoded, at)) ==> token.Some?
    ensures Ideal(box) && token.Some? ==> Resumes(box, r, index, encoded, token.value, at)
  {
    token := EncodePathCursor(box, NextCursor(r, index, encoded, at), nonce);
    if Ideal(box) && token.Some? { TokenResumes(box, r, index, encoded, at, token.value); }
  }

  lemma TokenResumes(box: Box, r: PathRequest, index: Option<bytes>, encoded: bytes, at: Resume, token: bytes)
    requires token != [] && DecodedPath(box, token) == Some(NextCursor(r, index, encoded, at))
    ensures Resumes(box, r, index, encoded, token, at)
  {
  }

  method FindStart(box: Box, r: PathRequest, index: Option<bytes>, encoded: bytes) returns (at: Option<Resume>)
    ensures at == PathStart(box, r, index, encoded)
    ensures at.Some? ==> FitStart(index, r.op, encoded, at.value)
  {
    if r.cursor == [] {
      return Some(Resume([], []));
    }
    var c := DecodePathCursor(box, r.cursor);
    if c.None? || !Continues(c.value, r, index, encoded) {
      return None;
    }
    return Some(Resume(c.value.at.lastValue, c.value.at.id));
  }

  /** What the checks on a cursor leave possible. */
  predicate FitStart(index: Option<bytes>, op: CmpOp, encoded: bytes, at: Resume) {
    && (index.None? || op == Eq ==> at.lastValue == [])
    && (index.Some? && op != Eq ==>
          if at.id == [] then at.lastValue == []
          else V.Valid(at.lastValue) && encoded != [] && at.lastValue[0] == encoded[0] && ValidId(at.id))
  }

  /** A token is good for a query exactly if everything it says of the query is so, field by field. */
  lemma TokenGoodExactly(box: Box, r: PathRequest, index: Option<bytes>, encoded: bytes)
    requires r.cursor != []
    ensures PathStart(box, r, index, encoded).Some? <==>
            (var c := DecodedPath(box, r.cursor);
             && c.Some? && c.value.verb == QUERY_METHOD && c.value.dialect == JSON_PATH
             && c.value.order == (if index.Some? then ORDER_INDEX else ORDER_DOCUMENT)
             && c.value.db == r.db && c.value.pathHash == r.hash
             && c.value.at.index == (if index.Some? then index.value else [])
             && c.value.at.op == OpByte(r.op) && c.value.at.value == encoded)
  {
  }

  // ---------------------------------------------------------------------------
  // By scanning

  ghost predicate ByScan(box: Box, r: PathRequest, a: Store, encoded: bytes, at: Resume, response: Response, page: ScanPage<QueryError>)
    requires r.db in a
  {
    && ScanAnswers(a, r.db, r.path, r.op, encoded, at.id, r.limit, MAX_SCAN_DOCS, page)
    && (if page.ScanFailed? then response == Refused(page.error)
        else
          && response.Answer? && response.ids == page.ids
          && (if page.more then Resumes(box, r, None, encoded, response.cursor, Resume([], page.lastId)) else response.cursor == []))
  }

  lemma ScanCursorValid(a: Store, r: PathRequest, lastId: bytes)
    requires Valid(a) && Checked(r) && r.db in a && lastId in a[r.db].docs && V.Encode(r.value).Value?
    ensures ValidPathCursor(NextCursor(r, None, V.Encode(r.value).bytes, Resume([], lastId)))
  {
    IdStored(a, r.db, lastId);
    V.EncodedValid(r.value);
    DocumentCursorValid(r, V.Encode(r.value).bytes, lastId);
  }

  lemma IdStored(a: Store, db: bytes, id: bytes)
    requires Valid(a) && db in a && id in a[db].docs
    ensures ValidId(id)
  {
    assert ValidDatabase(a[db]) && ValidDoc(id, a[db].docs[id], a[db].defs);
  }

  lemma DocumentCursorValid(r: PathRequest, encoded: bytes, lastId: bytes)
    requires Checked(r) && V.Valid(encoded) && ValidId(lastId)
    ensures ValidPathCursor(NextCursor(r, None, encoded, Resume([], lastId)))
  {
  }

  method RunScan(box: Box, kv: Kv<Record>, r: PathRequest, encoded: bytes, at: Resume, nonce: bytes, ghost a: Store)
    returns (response: Response, page: ScanPage<QueryError>)
    requires Checked(r) && |nonce| == NONCE_SIZE && V.Encode(r.value) == V.Value(encoded)
    ensures Ideal(box) && Represents(kv, a) && r.db in a ==> ByScan(box, r, a, encoded, at, response, page)
  {
    page := QueryPathDocs(kv, r.db, r.path, r.op, r.value, r.limit, MAX_SCAN_DOCS, at.id, a);
    if page.ScanFailed? {
      return Refused(page.error), page;
    }
    if !page.more {
      return Answer(page.ids, []), page;
    }
    if Represents(kv, a) && r.db in a { ScanCursorValid(a, r, page.lastId); }
    var token := MakeToken(box, r, None, encoded, Resume([], page.lastId), nonce);
    if token.None? {
      return Refused(Corrupted), page;
    }
    return Answer(page.ids, token.value), page;
  }

  // ---------------------------------------------------------------------------
  // By an index

  function QueryOf(r: PathRequest, index: bytes, encoded: bytes): Query {
    Query(r.db, index, r.op, encoded)
  }

  function IndexAfter(q: Query, at: Resume): Option<Entry> {
    if q.op == Eq then EqAfter(q, at.id) else RangeAfter(at.lastValue, at.id)
  }

  function ResumeAt(q: Query, e: Entry): Resume {
    Resume(if q.op == Eq then [] else e.value, e.id)
  }

  ghost predicate ByIndex(box: Box, r: PathRequest, a: Store, index: bytes, encoded: bytes, at: Resume, response: Response) {
    var q := QueryOf(r, index, encoded);
    match Refusal(a, q)
    case Some(e) => response == Refused(e)
    case None =>
      && encoded != [] && Listed(AnswerTo(a, q, IndexAfter(q, at)), a, q, IndexAfter(q, at))
      && IndexResponds(box, r, q, response, AnswerTo(a, q, IndexAfter(q, at)))
  }

  ghost predicate IndexResponds(box: Box, r: PathRequest, q: Query, response: Response, entries: seq<Entry>) {
    && response.Answer? && response.ids == Ids(S.UpTo(entries, r.limit))
    && TokenFor(box, r, q, response.cursor, entries)
  }

  /** A token for what is left of the answer, if anything is. */
  ghost predicate TokenFor(box: Box, r: PathRequest, q: Query, token: bytes, entries: seq<Entry>) {
    if 1 <= r.limit < |entries| then Resumes(box, r, Some(q.index), q.value, token, ResumeAt(q, entries[r.limit - 1]))
    else token == []
  }

  method FetchPage(kv: Kv<Record>, r: PathRequest, index: bytes, encoded: bytes, at: Resume, ghost a: Store)
    returns (page: Result)
    requires Checked(r) && V.Encode(r.value) == V.Value(encoded) && FitStart(Some(index), r.op, encoded, at) && encoded != []
    ensures Represents(kv, a) ==>
              var q := QueryOf(r, index, encoded);
              L.Fetched(a, q, IndexAfter(q, at), r.limit, page, AnswerTo(a, q, IndexAfter(q, at)))
  {
    V.EncodedValid(r.value);
    if r.op == Eq {
      page := QueryDocs(kv, r.db, index, encoded, r.limit, at.id, a);
    } else {
      page := QueryRange(kv, QueryOf(r, index, encoded), r.limit, at.lastValue, at.id, a);
    }
  }

  /** Where a page that is not the last leaves off. */
  function PageEnd(page: Result): Resume
    requires page.Page? && page.ids != []
  {
    Resume(page.lastValue, page.ids[|page.ids| - 1])
  }

  lemma IndexCursorValid(r: PathRequest, q: Query, entries: seq<Entry>, page: Result)
    requires Checked(r) && q == QueryOf(r, q.index, q.value) && Answerable(q) && L.Continuable(q, entries, r.limit, page) && |entries| > r.limit
    ensures ValidPathCursor(NextCursor(r, Some(q.index), q.value, PageEnd(page)))
  {
    var c := L.CursorFor(q, page);
    assert ValidQueryCursor(c);
  }

  lemma PageEndsAt(q: Query, entries: seq<Entry>, limit: nat, page: Result)
    requires 1 <= limit < |entries| && page == L.PageFor(q, entries, limit)
    ensures page.more && page.ids == Ids(S.UpTo(entries, limit)) && page.ids != [] && PageEnd(page) == ResumeAt(q, entries[limit - 1])
  {
    L.LastOfPage(q, entries, limit, page);
  }

  lemma PageEnds(q: Query, entries: seq<Entry>, limit: nat, page: Result)
    requires 1 <= limit && |entries| <= limit && page == L.PageFor(q, entries, limit)
    ensures !page.more && page.ids == Ids(S.UpTo(entries, limit))
  {
  }

  /** The page is the start of the answer, and can be continued if there is more. */
  ghost predicate Ready(r: PathRequest, q: Query, entries: seq<Entry>, page: Result) {
    && page.Page? && page.ids == Ids(S.UpTo(entries, r.limit)) && (page.more <==> 1 <= r.limit < |entries|)
    && (page.more ==> page.ids != [] && PageEnd(page) == ResumeAt(q, entries[r.limit - 1])
                      && ValidPathCursor(NextCursor(r, Some(q.index), q.value, PageEnd(page))))
  }

  lemma ReadyPage(r: PathRequest, q: Query, entries: seq<Entry>, page: Result)
    requires Checked(r) && q == QueryOf(r, q.index, q.value) && Answerable(q) && L.Continuable(q, entries, r.limit, page)
    ensures Ready(r, q, entries, page)
  {
    if |entries| > r.limit {
      PageEndsAt(q, entries, r.limit, page);
      IndexCursorValid(r, q, entries, page);
    } else {
      PageEnds(q, entries, r.limit, page);
    }
  }

  method Respond(box: Box, r: PathRequest, q: Query, page: Result, nonce: bytes, ghost entries: seq<Entry>) returns (response: Response)
    requires Checked(r) && page.Page? && |nonce| == NONCE_SIZE
    ensures Ideal(box) && Ready(r, q, entries, page) ==> IndexResponds(box, r, q, response, entries)
  {
    if !page.more {
      return Answer(page.ids, []);
    }
    if |page.ids| == 0 {
      return Refused(Corrupted);
    }
    var token := MakeToken(box, r, Some(q.index), q.value, PageEnd(page), nonce);
    if token.None? {
      return Refused(Corrupted);
    }
    return Answer(page.ids, token.value);
  }

  method RunIndex(box: Box, kv: Kv<Record>, r: PathRequest, index: bytes, encoded: bytes, at: Resume, nonce: bytes, ghost a: Store)
    returns (response: Response)
    requires Checked(r) && |nonce| == NONCE_SIZE && V.Encode(r.value) == V.Value(encoded) && FitStart(Some(index), r.op, encoded, at)
    ensures Ideal(box) && Represents(kv, a) ==> ByIndex(box, r, a, index, encoded, at, response)
  {
    V.EncodedValid(r.value);
    var page := FetchPage(kv, r, index, encoded, at, a);
    if page.Failed? {
      return Refused(page.error);
    }
    var q := QueryOf(r, index, encoded);
    ghost var entries := AnswerTo(a, q, IndexAfter(q, at));
    if Represents(kv, a) {
      L.PageContinuable(a, q, IndexAfter(q, at), r.limit, page, entries);
      RefusalNone(a, q);
      ReadyPage(r, q, entries, page);
    }
    response := Respond(box, r, q, page, nonce, entries);
    if Ideal(box) && Represents(kv, a) { IndexAnswered(box, r, a, q, at, response); }
  }

  lemma IndexAnswered(box: Box, r: PathRequest, a: Store, q: Query, at: Resume, response: Response)
    requires q == QueryOf(r, q.index, q.value) && Refusal(a, q).None? && q.value != []
    requires Listed(AnswerTo(a, q, IndexAfter(q, at)), a, q, IndexAfter(q, at))
    requires IndexResponds(box, r, q, response, AnswerTo(a, q, IndexAfter(q, at)))
    ensures ByIndex(box, r, a, q.index, q.value, at, response)
  {
  }

  // ---------------------------------------------------------------------------
  // Either way

  /** What executing a planned query says. */
  ghost predicate Executes(box: Box, r: PathRequest, index: Option<bytes>, a: Store, response: Response, page: ScanPage<QueryError>) {
    if r.db !in a then response == Refused(NoDatabase)
    else
      match V.Encode(r.value)
      case Failed(_) => response == Refused(BadValue)
      case Value(encoded) =>
        var at := PathStart(box, r, index, encoded);
        if at.None? then response == Refused(BadCursor)
        else if index.None? then ByScan(box, r, a, encoded, at.value, response, page)
        else ByIndex(box, r, a, index.value, encoded, at.value, response)
  }

  /** `executePathQuery` */
  method ExecutePathQuery(box: Box, kv: Kv<Record>, r: PathRequest, index: Option<bytes>, nonce: bytes, ghost a: Store)
    returns (response: Response, page: ScanPage<QueryError>)
    requires Checked(r) && |nonce| == NONCE_SIZE
    ensures Ideal(box) && Represents(kv, a) ==> Executes(box, r, index, a, response, page)
  {
    page := ScanFailed(Corrupted);
    if Represents(kv, a) { ReadsDbKey(kv, a, r.db); }
    var key := ReadDbKey(kv, r.db);
    if !key.Found? {
      response := Refused(if key.Missing? then NoDatabase else Corrupted);
      return;
    }
    var encoded := V.Encode(r.value);
    if encoded.Failed? {
      response := Refused(BadValue);
      return;
    }
    var at := FindStart(box, r, index, encoded.bytes);
    if at.None? {
      response := Refused(BadCursor);
      return;
    }
    if index.None? {
      response, page := RunScan(box, kv, r, encoded.bytes, at.value, nonce, a);
    } else {
      response := RunIndex(box, kv, r, index.value, encoded.bytes, at.value, nonce, a);
    }
  }

  /** A token is refused by every query with another database, path, operator, value or plan. */
  lemma ForeignTokenRefused(box: Box, r: PathRequest, index: Option<bytes>, encoded: bytes, token: bytes, at: Resume,
                            r': PathRequest, index': Option<bytes>, b: Store, response': Response, page': ScanPage<QueryError>)
    requires Resumes(box, r, index, encoded, token, at) && r'.cursor == token
    requires Executes(box, r', index', b, response', page') && r'.db in b && V.Encode(r'.value).Value?
    requires r'.db != r.db || r'.hash != r.hash || r'.op != r.op || V.Encode(r'.value).bytes != encoded || index' != index
    ensures response' == Refused(BadCursor)
  {
    TokenGoodExactly(box, r.(cursor := token), index, encoded);
    TokenGoodExactly(box, r', index', V.Encode(r'.value).bytes);
    L.OpByteApart(r.op, r'.op);
  }
}

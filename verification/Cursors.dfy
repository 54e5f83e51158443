/**
 The two kinds of cursors that clients carry from page to page: what is in them, when they are valid, and
 how they are written and read back. The cipher and the text encoding are taken as ideal.
 */
module Cursors {
  import opened Bytes
  import opened Parts
  import opened Sizes
  import opened Names
  import opened Bounds
  import V = IndexValue

  // ---------------------------------------------------------------------------
  // The cipher and the text encoding

  const NONCE_SIZE: nat := 12
  const OVERHEAD: nat := 16

  /** An authenticated cipher under some key, and the unpadded text encoding of its output. */
  datatype Box = Box(seal: (bytes, bytes) -> bytes, open: (bytes, bytes) -> Option<bytes>,
                     toText: bytes -> bytes, fromText: bytes -> Option<bytes>)

  /** The length of unpadded base64 text. */
  function EncodedLen(n: nat): nat {
    (n * 8 + 5) / 6
  }

  /** Opening undoes sealing and opens nothing else, and decoding undoes encoding. */
  ghost predicate Ideal(box: Box) {
    && (forall nonce, data :: box.open(nonce, box.seal(nonce, data)) == Some(data))
    && (forall nonce, sealed, data :: box.open(nonce, sealed) == Some(data) ==> sealed == box.seal(nonce, data))
    && (forall nonce, data :: |box.seal(nonce, data)| == |data| + OVERHEAD)
    && (forall data :: box.fromText(box.toText(data)) == Some(data))
    && (forall data :: |box.toText(data)| == EncodedLen(|data|))
  }

  /** There is such a box: zero bytes in the place of the seal, and text made longer by zero bytes. */
  lemma IdealExists() returns (box: Box)
    ensures Ideal(box)
  {
    box := Box((nonce: bytes, data: bytes) => data + Blank(OVERHEAD),
               (nonce: bytes, sealed: bytes) => Unsealed(sealed),
               (data: bytes) => data + Blank(EncodedLen(|data|) - |data|),
               (text: bytes) => Some(text[..|text| * 6 / 8]));
    forall nonce: bytes, data: bytes ensures box.open(nonce, box.seal(nonce, data)) == Some(data) {
      assert (data + Blank(OVERHEAD))[..|data|] == data && (data + Blank(OVERHEAD))[|data|..] == Blank(OVERHEAD);
    }
    forall nonce: bytes, sealed: bytes, data: bytes | box.open(nonce, sealed) == Some(data) ensures sealed == box.seal(nonce, data) {
      assert sealed == sealed[..|sealed| - OVERHEAD] + sealed[|sealed| - OVERHEAD..];
    }
    forall data: bytes ensures box.fromText(box.toText(data)) == Some(data) {
      var text := data + Blank(EncodedLen(|data|) - |data|);
      assert |text| * 6 / 8 == |data| && text[..|data|] == data;
    }
  }

  function Unsealed(sealed: bytes): Option<bytes> {
    if |sealed| < OVERHEAD || sealed[|sealed| - OVERHEAD..] != Blank(OVERHEAD) then None else Some(sealed[..|sealed| - OVERHEAD])
  }

  function Blank(n: nat): (b: bytes)
    ensures |b| == n
  {
    seq(n, _ => 0x00)
  }

  function Token(box: Box, nonce: bytes, data: bytes): bytes {
    box.toText(nonce + box.seal(nonce, data))
  }

  /** What a token holds, if it is one of ours, not too long and of the version asked for. */
  function OpenToken(box: Box, token: bytes, maxSize: nat, version: byte): Option<bytes> {
    var most := maxSize + NONCE_SIZE + OVERHEAD;
    if token == [] || |token| > EncodedLen(most) then None
    else
      match box.fromText(token)
      case None => None
      case Some(sealed) =>
        if box.toText(sealed) != token || |sealed| > most || |sealed| < NONCE_SIZE + OVERHEAD then None
        else
          match box.open(sealed[..NONCE_SIZE], sealed[NONCE_SIZE..])
          case None => None
          case Some(data) => if data == [] || |data| > maxSize || data[0] != version then None else Some(data)
  }

  lemma EncodedLenMonotone(m: nat, n: nat)
    requires m <= n
    ensures EncodedLen(m) <= EncodedLen(n)
    ensures m > 0 ==> EncodedLen(m) > 0
  {
  }

  /** What fits comes back. */
  lemma OpensBack(box: Box, nonce: bytes, data: bytes, maxSize: nat)
    requires Ideal(box) && |nonce| == NONCE_SIZE && 0 < |data| <= maxSize
    ensures OpenToken(box, Token(box, nonce, data), maxSize, data[0]) == Some(data)
  {
    var sealed := nonce + box.seal(nonce, data);
    EncodedLenMonotone(|sealed|, maxSize + NONCE_SIZE + OVERHEAD);
    assert sealed[..NONCE_SIZE] == nonce && sealed[NONCE_SIZE..] == box.seal(nonce, data);
  }

  /** A token is opened exactly if it is one that was made, of data of that version within the size. */
  lemma OpensExactly(box: Box, token: bytes, maxSize: nat, version: byte, data: bytes)
    requires Ideal(box)
    ensures OpenToken(box, token, maxSize, version) == Some(data) <==>
            0 < |data| <= maxSize && data[0] == version && exists nonce :: |nonce| == NONCE_SIZE && token == Token(box, nonce, data)
  {
    if OpenToken(box, token, maxSize, version) == Some(data) {
      var sealed := box.fromText(token).value;
      var nonce := sealed[..NONCE_SIZE];
      assert sealed == nonce + sealed[NONCE_SIZE..];
      assert token == Token(box, nonce, data);
    }
    forall nonce | |nonce| == NONCE_SIZE && token == Token(box, nonce, data) && 0 < |data| <= maxSize && data[0] == version
      ensures OpenToken(box, token, maxSize, version) == Some(data)
    {
      OpensBack(box, nonce, data, maxSize);
    }
  }

  /** What is in a token is determined. */
  lemma OneContent(box: Box, nonce: bytes, data: bytes, nonce': bytes, data': bytes)
    requires Ideal(box) && |nonce| == |nonce'| == NONCE_SIZE && Token(box, nonce, data) == Token(box, nonce', data')
    ensures data == data'
  {
    var s, s' := nonce + box.seal(nonce, data), nonce' + box.seal(nonce', data');
    assert box.fromText(box.toText(s)) == Some(s) && box.fromText(box.toText(s')) == Some(s');
    assert s[..NONCE_SIZE] == nonce && s'[..NONCE_SIZE] == nonce';
    assert s[NONCE_SIZE..] == box.seal(nonce, data) && s'[NONCE_SIZE..] == box.seal(nonce', data');
    assert box.open(nonce, box.seal(nonce, data)) == Some(data) && box.open(nonce, box.seal(nonce', data')) == Some(data');
  }

  // ---------------------------------------------------------------------------
  // The position in an answer, common to both kinds

  /** Index, operator and value of the query, and the entry the page ended with. Operators are bytes here. */
  datatype Position = Position(index: bytes, op: byte, value: bytes, lastValue: bytes, id: bytes)

  function OpByte(op: CmpOp): byte {
    match op
    case Eq => 0
    case Lt => 1
    case Le => 2
    case Gt => 3
    case Ge => 4
  }

  predicate ValidOp(op: byte) {
    op <= OpByte(Ge)
  }

  function Part(b: bytes): bytes {
    AppendPart([], b)
  }

  lemma AppendIsPart(key: bytes, part: bytes)
    ensures AppendPart(key, part) == key + Part(part)
  {
  }

  function PositionBytes(p: Position): bytes {
    Part(p.index) + ([p.op] + (Part(p.value) + (Part(p.lastValue) + Part(p.id))))
  }

  function ReadPosition(data: bytes): Option<Position> {
    var index := ReadPart(data);
    if index.None? || index.value.rest == [] then None
    else
      var value := ReadPart(index.value.rest[1..]);
      if value.None? then None
      else
        var lastValue := ReadPart(value.value.rest);
        if lastValue.None? then None
        else
          var id := ReadPart(lastValue.value.rest);
          if id.None? || id.value.rest != [] then None
          else Some(Position(index.value.part, index.value.rest[0], value.value.part, lastValue.value.part, id.value.part))
  }

  /** The fields of the position are consumed one by one. */
  method TakePosition(data: bytes) returns (at: Option<Position>)
    ensures at == ReadPosition(data)
  {
    var index := ReadPart(data);
    if index.None? || |index.value.rest| == 0 {
      return None;
    }
    var op, rest := index.value.rest[0], index.value.rest[1..];
    var value := ReadPart(rest);
    if value.None? {
      return None;
    }
    rest := value.value.rest;
    var lastValue := ReadPart(rest);
    if lastValue.None? {
      return None;
    }
    rest := lastValue.value.rest;
    var id := ReadPart(rest);
    if id.None? || |id.value.rest| != 0 {
      return None;
    }
    return Some(Position(index.value.part, op, value.value.part, lastValue.value.part, id.value.part));
  }

  /** Short enough for their lengths to be written. */
  predicate Bounded(p: Position) {
    && |p.index| <= 63 && |p.value| <= V.MAX_ENCODED && |p.lastValue| <= V.MAX_ENCODED && |p.id| <= 36
  }

  lemma ReadPositionBack(p: Position)
    requires Bounded(p)
    ensures ReadPosition(PositionBytes(p)) == Some(p)
  {
    var d := Part(p.id);
    var c := Part(p.lastValue) + d;
    var b := [p.op] + (Part(p.value) + c);
    ReadPartBack(p.index, b);
    assert b[1..] == Part(p.value) + c && b[0] == p.op;
    ReadPartBack(p.value, c);
    ReadPartBack(p.lastValue, d);
    assert d + [] == d;
    ReadPartBack(p.id, []);
  }

  lemma PartSize(b: bytes)
    requires |b| < WORD
    ensures |Part(b)| <= 10 + |b|
  {
    UvarintLength(|b|, 0);
  }

  const MAX_POSITION: nat := 10 + 63 + 1 + 10 + V.MAX_ENCODED + 10 + V.MAX_ENCODED + 10 + 36

  lemma PositionSize(p: Position)
    requires Bounded(p)
    ensures |PositionBytes(p)| <= MAX_POSITION
  {
    PartSize(p.index);
    PartSize(p.value);
    PartSize(p.lastValue);
    PartSize(p.id);
  }

  /** The end of the last page in an index: a value of the query's type, except where all values are the same. */
  predicate ValidLast(p: Position) {
    if p.op == OpByte(Eq) then p.lastValue == []
    else V.Valid(p.lastValue) && p.value != [] && p.lastValue[0] == p.value[0]
  }

  // ---------------------------------------------------------------------------
  // Cursors of index queries

  const QUERY_VERSION: byte := 3
  const MAX_QUERY_CURSOR: nat := 1 + 10 + 63 + 10 + 63 + 1 + 10 + V.MAX_ENCODED + 10 + V.MAX_ENCODED + 10 + 36

  datatype QueryCursor = QueryCursor(db: bytes, at: Position)

  predicate ValidQueryCursor(c: QueryCursor) {
    && ValidName(c.db) && ValidName(c.at.index) && ValidOp(c.at.op) && V.Valid(c.at.value) && ValidId(c.at.id)
    && ValidLast(c.at)
  }

  function QueryPayload(c: QueryCursor): bytes {
    [QUERY_VERSION] + (Part(c.db) + PositionBytes(c.at))
  }

  function ReadQueryPayload(data: bytes): Option<QueryCursor> {
    if data == [] then None
    else
      var db := ReadPart(data[1..]);
      if db.None? then None
      else
        var at := ReadPosition(db.value.rest);
        if at.None? then None
        else
          var c := QueryCursor(db.value.part, at.value);
          if ValidQueryCursor(c) then Some(c) else None
  }

  lemma QueryPayloadFits(c: QueryCursor)
    requires ValidQueryCursor(c)
    ensures 0 < |QueryPayload(c)| <= MAX_QUERY_CURSOR && QueryPayload(c)[0] == QUERY_VERSION
    ensures ReadQueryPayload(QueryPayload(c)) == Some(c)
  {
    PositionSize(c.at);
    PartSize(c.db);
    assert QueryPayload(c)[1..] == Part(c.db) + PositionBytes(c.at);
    ReadPartBack(c.db, PositionBytes(c.at));
    ReadPositionBack(c.at);
  }

  /** What decoding a token gives. */
  function DecodedQuery(box: Box, token: bytes): Option<QueryCursor> {
    var data := OpenToken(box, token, MAX_QUERY_CURSOR, QUERY_VERSION);
    if data.None? then None else ReadQueryPayload(data.value)
  }

  /** The buffer grows field by field. */
  method EncodeQueryCursor(box: Box, c: QueryCursor, nonce: bytes) returns (token: Option<bytes>)
    requires |nonce| == NONCE_SIZE
    ensures token.Some? <==> ValidQueryCursor(c)
    ensures Ideal(box) && token.Some? ==> token.value != [] && DecodedQuery(box, token.value) == Some(c)
  {
    if !ValidQueryCursor(c) {
      return None;
    }
    var data := [QUERY_VERSION];
    data := AppendPart(data, c.db);
    data := AppendPart(data, c.at.index);
    data := data + [c.at.op];
    data := AppendPart(data, c.at.value);
    data := AppendPart(data, c.at.lastValue);
    data := AppendPart(data, c.at.id);
    QueryPayloadGrown(c, data);
    QueryPayloadFits(c);
    if Ideal(box) {
      OpensBack(box, nonce, data, MAX_QUERY_CURSOR);
    }
    return Some(Token(box, nonce, data));
  }

  lemma PositionGrown(data: bytes, p: Position)
    ensures AppendPart(AppendPart(AppendPart(AppendPart(data, p.index) + [p.op], p.value), p.lastValue), p.id)
         == data + PositionBytes(p)
  {
    var a := AppendPart(data, p.index);
    AppendIsPart(data, p.index);
    AppendIsPart(a + [p.op], p.value);
    var b := AppendPart(a + [p.op], p.value);
    AppendIsPart(b, p.lastValue);
    AppendIsPart(AppendPart(b, p.lastValue), p.id);
  }

  lemma QueryPayloadGrown(c: QueryCursor, data: bytes)
    requires data == AppendPart(AppendPart(AppendPart(AppendPart(AppendPart([QUERY_VERSION], c.db), c.at.index) + [c.at.op],
                                                      c.at.value), c.at.lastValue), c.at.id)
    ensures data == QueryPayload(c)
  {
    AppendIsPart([QUERY_VERSION], c.db);
    PositionGrown(AppendPart([QUERY_VERSION], c.db), c.at);
  }

  method DecodeQueryCursor(box: Box, token: bytes) returns (c: Option<QueryCursor>)
    ensures c == DecodedQuery(box, token)
    ensures c.Some? ==> ValidQueryCursor(c.value)
  {
    var data := OpenToken(box, token, MAX_QUERY_CURSOR, QUERY_VERSION);
    if data.None? {
      return None;
    }
    var db := ReadPart(data.value[1..]);
    if db.None? {
      return None;
    }
    var at := TakePosition(db.value.rest);
    if at.None? {
      return None;
    }
    var found := QueryCursor(db.value.part, at.value);
    if !ValidQueryCursor(found) {
      return None;
    }
    return Some(found);
  }

  // ---------------------------------------------------------------------------
  // Cursors of path queries

  const PATH_VERSION: byte := 2
  const QUERY_METHOD: bytes := [0x51, 0x55, 0x45, 0x52, 0x59]
  const HASH_SIZE: nat := 32
  const JSON_PATH: byte := 1
  const ORDER_DOCUMENT: byte := 1
  const ORDER_INDEX: byte := 2
  const MAX_PATH_CURSOR: nat :=
    1 + 10 + 5 + 1 + 1 + 10 + 63 + 10 + HASH_SIZE + 10 + 63 + 1 + 10 + V.MAX_ENCODED + 10 + V.MAX_ENCODED + 10 + 36

  /** Says of the query everything that has to be the same when it goes on. */
  datatype PathCursor =
    PathCursor(verb: bytes, dialect: byte, order: byte, db: bytes, pathHash: bytes, at: Position)

  predicate ValidPathCursor(c: PathCursor) {
    && c.verb == QUERY_METHOD && c.dialect == JSON_PATH && (c.order == ORDER_DOCUMENT || c.order == ORDER_INDEX)
    && ValidName(c.db) && |c.pathHash| == HASH_SIZE
    && ValidOp(c.at.op) && V.Valid(c.at.value) && ValidId(c.at.id)
    && (if c.order == ORDER_DOCUMENT then c.at.index == [] && c.at.lastValue == []
        else ValidName(c.at.index) && ValidLast(c.at))
  }

  function PathPayload(c: PathCursor): bytes {
    [PATH_VERSION] + (Part(c.verb) + ([c.dialect, c.order] + (Part(c.db) + (Part(c.pathHash) + PositionBytes(c.at)))))
  }

  function ReadPathPayload(data: bytes): Option<PathCursor> {
    if data == [] then None
    else
      var verb := ReadPart(data[1..]);
      if verb.None? || |verb.value.rest| < 2 then None
      else
        var db := ReadPart(verb.value.rest[2..]);
        if db.None? then None
        else
          var hash := ReadPart(db.value.rest);
          if hash.None? || |hash.value.part| != HASH_SIZE then None
          else
            var at := ReadPosition(hash.value.rest);
            if at.None? then None
            else
              var c := PathCursor(verb.value.part, verb.value.rest[0], verb.value.rest[1], db.value.part, hash.value.part, at.value);
              if ValidPathCursor(c) then Some(c) else None
  }

  lemma PathPayloadFits(c: PathCursor)
    requires ValidPathCursor(c)
    ensures 0 < |PathPayload(c)| <= MAX_PATH_CURSOR && PathPayload(c)[0] == PATH_VERSION
    ensures ReadPathPayload(PathPayload(c)) == Some(c)
  {
    PathPayloadSize(c);
    var hashed := Part(c.pathHash) + PositionBytes(c.at);
    var placed := [c.dialect, c.order] + (Part(c.db) + hashed);
    TwoOff(c.dialect, c.order, Part(c.db) + hashed);
    OneOff(PATH_VERSION, Part(c.verb) + placed);
    ReadPartBack(c.verb, placed);
    ReadPartBack(c.db, hashed);
    ReadPartBack(c.pathHash, PositionBytes(c.at));
    ReadPositionBack(c.at);
  }

  lemma OneOff(x: byte, rest: bytes)
    ensures ([x] + rest)[1..] == rest && ([x] + rest)[0] == x
  {
  }

  lemma TwoOff(x: byte, y: byte, rest: bytes)
    ensures ([x, y] + rest)[2..] == rest && ([x, y] + rest)[0] == x && ([x, y] + rest)[1] == y
  {
  }

  lemma PathPayloadSize(c: PathCursor)
    requires ValidPathCursor(c)
    ensures |PathPayload(c)| <= MAX_PATH_CURSOR
  {
    PositionSize(c.at);
    PartSize(c.verb);
    PartSize(c.db);
    PartSize(c.pathHash);
  }

  function DecodedPath(box: Box, token: bytes): Option<PathCursor> {
    var data := OpenToken(box, token, MAX_PATH_CURSOR, PATH_VERSION);
    if data.None? then None else ReadPathPayload(data.value)
  }

  method EncodePathCursor(box: Box, c: PathCursor, nonce: bytes) returns (token: Option<bytes>)
    requires |nonce| == NONCE_SIZE && |c.pathHash| == HASH_SIZE
    ensures token.Some? <==> ValidPathCursor(c)
    ensures Ideal(box) && token.Some? ==> token.value != [] && DecodedPath(box, token.value) == Some(c)
  {
    if !ValidPathCursor(c) {
      return None;
    }
    var data := [PATH_VERSION];
    data := AppendPart(data, c.verb);
    data := data + [c.dialect, c.order];
    data := AppendPart(data, c.db);
    data := AppendPart(data, c.pathHash);
    PathHeadGrown(c, data);
    ghost var head := data;
    data := AppendPart(data, c.at.index);
    data := data + [c.at.op];
    data := AppendPart(data, c.at.value);
    data := AppendPart(data, c.at.lastValue);
    data := AppendPart(data, c.at.id);
    PositionGrown(head, c.at);
    PathPayloadFits(c);
    if Ideal(box) {
      OpensBack(box, nonce, data, MAX_PATH_CURSOR);
    }
    return Some(Token(box, nonce, data));
  }

  lemma PathHeadGrown(c: PathCursor, data: bytes)
    requires data == AppendPart(AppendPart(AppendPart([PATH_VERSION], c.verb) + [c.dialect, c.order], c.db), c.pathHash)
    ensures data + PositionBytes(c.at) == PathPayload(c)
  {
    var a := AppendPart([PATH_VERSION], c.verb);
    AppendIsPart([PATH_VERSION], c.verb);
    AppendIsPart(a + [c.dialect, c.order], c.db);
    AppendIsPart(AppendPart(a + [c.dialect, c.order], c.db), c.pathHash);
  }

  method DecodePathCursor(box: Box, token: bytes) returns (c: Option<PathCursor>)
    ensures c == DecodedPath(box, token)
    ensures c.Some? ==> ValidPathCursor(c.value)
  {
    var data := OpenToken(box, token, MAX_PATH_CURSOR, PATH_VERSION);
    if data.None? {
      return None;
    }
    var verb := ReadPart(data.value[1..]);
    if verb.None? || |verb.value.rest| < 2 {
      return None;
    }
    var dialect, order := verb.value.rest[0], verb.value.rest[1];
    var rest := verb.value.rest[2..];
    var db := ReadPart(rest);
    if db.None? {
      return None;
    }
    rest := db.value.rest;
    var hash := ReadPart(rest);
    if hash.None? || |hash.value.part| != HASH_SIZE {
      return None;
    }
    rest := hash.value.rest;
    var at := TakePosition(rest);
    if at.None? {
      return None;
    }
    var found := PathCursor(verb.value.part, dialect, order, db.value.part, hash.value.part, at.value);
    if !ValidPathCursor(found) {
      return None;
    }
    return Some(found);
  }

  // ---------------------------------------------------------------------------
  // What tokens are accepted

  /** A query token is accepted exactly if it seals a payload that reads as a valid cursor. */
  lemma QueryTokenExact(box: Box, token: bytes, c: QueryCursor)
    requires Ideal(box)
    ensures DecodedQuery(box, token) == Some(c) <==>
            exists nonce, data :: |nonce| == NONCE_SIZE && token == Token(box, nonce, data)
                                  && 0 < |data| <= MAX_QUERY_CURSOR && data[0] == QUERY_VERSION && ReadQueryPayload(data) == Some(c)
  {
    var found := OpenToken(box, token, MAX_QUERY_CURSOR, QUERY_VERSION);
    if found.Some? { OpensExactly(box, token, MAX_QUERY_CURSOR, QUERY_VERSION, found.value); }
    forall nonce, data | |nonce| == NONCE_SIZE && token == Token(box, nonce, data)
                         && 0 < |data| <= MAX_QUERY_CURSOR && data[0] == QUERY_VERSION && ReadQueryPayload(data) == Some(c)
      ensures DecodedQuery(box, token) == Some(c)
    {
      OpensExactly(box, token, MAX_QUERY_CURSOR, QUERY_VERSION, data);
    }
  }

  lemma PathTokenExact(box: Box, token: bytes, c: PathCursor)
    requires Ideal(box)
    ensures DecodedPath(box, token) == Some(c) <==>
            exists nonce, data :: |nonce| == NONCE_SIZE && token == Token(box, nonce, data)
                                  && 0 < |data| <= MAX_PATH_CURSOR && data[0] == PATH_VERSION && ReadPathPayload(data) == Some(c)
  {
    var found := OpenToken(box, token, MAX_PATH_CURSOR, PATH_VERSION);
    if found.Some? { OpensExactly(box, token, MAX_PATH_CURSOR, PATH_VERSION, found.value); }
    forall nonce, data | |nonce| == NONCE_SIZE && token == Token(box, nonce, data)
                         && 0 < |data| <= MAX_PATH_CURSOR && data[0] == PATH_VERSION && ReadPathPayload(data) == Some(c)
      ensures DecodedPath(box, token) == Some(c)
    {
      OpensExactly(box, token, MAX_PATH_CURSOR, PATH_VERSION, data);
    }
  }

  /** No token is good for both kinds of query. */
  lemma KindsApart(box: Box, token: bytes)
    requires Ideal(box)
    ensures DecodedQuery(box, token).None? || DecodedPath(box, token).None?
  {
    var q, p := OpenToken(box, token, MAX_QUERY_CURSOR, QUERY_VERSION), OpenToken(box, token, MAX_PATH_CURSOR, PATH_VERSION);
    if q.Some? && p.Some? {
      OpensExactly(box, token, MAX_QUERY_CURSOR, QUERY_VERSION, q.value);
      OpensExactly(box, token, MAX_PATH_CURSOR, PATH_VERSION, p.value);
      var n :| |n| == NONCE_SIZE && token == Token(box, n, q.value);
      var m :| |m| == NONCE_SIZE && token == Token(box, m, p.value);
      OneContent(box, n, q.value, m, p.value);
      assert false;
    }
  }
}

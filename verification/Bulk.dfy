/**
 Newline-delimited documents: splitting a stream that arrives in fragments, and writing one.
 */
module Bulk {
  import opened Bytes

  const LF: byte := 0x0a
  const CR: byte := 0x0d

  // ---------------------------------------------------------------------------
  // Lines of a stream

  /** A line without its newline, and whether it had one. */
  datatype Line = Line(data: bytes, ended: bool)

  /** Where the first newline is; the length if there is none. */
  function FirstLf(s: bytes): (i: nat)
    ensures i <= |s| && LF !in s[..i] && (i < |s| ==> s[i] == LF)
  {
    if s == [] || s[0] == LF then 0
    else
      var i := 1 + FirstLf(s[1..]);
      assert s[..i] == [s[0]] + s[1..][..i - 1];
      i
  }

  function Lines(s: bytes): seq<Line> {
    if s == [] then []
    else
      var i := FirstLf(s);
      if i == |s| then [Line(s, false)] else [Line(s[..i], true)] + Lines(s[i + 1..])
  }

  lemma FirstLfAt(x: bytes, rest: bytes)
    requires LF !in x
    ensures FirstLf(x + [LF] + rest) == |x|
  {
    var s := x + [LF] + rest;
    assert s[|x|] == LF;
    var i := FirstLf(s);
    assert forall j :: 0 <= j < |x| ==> s[j] == x[j];
    assert forall j :: 0 <= j < i ==> s[..i][j] == s[j];
  }

  lemma LineEnds(x: bytes, rest: bytes)
    requires LF !in x
    ensures Lines(x + [LF] + rest) == [Line(x, true)] + Lines(rest)
  {
    var s := x + [LF] + rest;
    FirstLfAt(x, rest);
    assert s[..|x|] == x && s[|x| + 1..] == rest;
  }

  lemma LastLine(x: bytes)
    requires LF !in x
    ensures Lines(x) == if x == [] then [] else [Line(x, false)]
  {
    assert forall j :: 0 <= j < |x| ==> x[j] != LF;
  }

  /** What a line holds: a carriage return before the newline belongs to the end of the line. */
  function Content(line: Line): bytes {
    if line.ended then TrimSuffix(line.data, CR) else line.data
  }

  function TrimSuffix(s: bytes, b: byte): bytes {
    if s != [] && s[|s| - 1] == b then s[..|s| - 1] else s
  }

  /** `validateDoc`: what a document is turned into, unless it is refused. */
  type Accept = bytes -> Option<bytes>

  predicate Fine(line: Line, maxLine: nat, accept: Accept) {
    0 < |Content(line)| <= maxLine && accept(Content(line)).Some?
  }

  predicate AllFine(lines: seq<Line>, maxLine: nat, accept: Accept) {
    forall i :: 0 <= i < |lines| ==> Fine(lines[i], maxLine, accept)
  }

  function Accepted(lines: seq<Line>, maxLine: nat, accept: Accept): (documents: seq<bytes>)
    requires AllFine(lines, maxLine, accept)
    ensures |documents| == |lines|
    ensures forall i :: 0 <= i < |lines| ==> Some(documents[i]) == accept(Content(lines[i]))
  {
    seq(|lines|, i requires 0 <= i < |lines| => accept(Content(lines[i])).value)
  }

  datatype Limits = Limits(line: nat, total: nat, documents: nat)

  /** The stream keeps to all limits and every line of it is a document. */
  predicate Importable(s: bytes, limits: Limits, accept: Accept) {
    && |s| <= limits.total && 0 < |Lines(s)| <= limits.documents
    && AllFine(Lines(s), limits.line, accept)
  }

  // ---------------------------------------------------------------------------
  // Streams as texts and their endings

  /** How a line ends: in a newline, in a carriage return and a newline, or with the stream. */
  datatype Ending = Newline | ReturnNewline | StreamEnd

  datatype Piece = Piece(text: bytes, ending: Ending)

  function EndingBytes(ending: Ending): bytes {
    match ending
    case Newline => [LF]
    case ReturnNewline => [CR, LF]
    case StreamEnd => []
  }

  /** A return before a newline belongs to the ending, and only the last piece can end with the stream. */
  predicate ProperPiece(p: Piece, last: bool) {
    && LF !in p.text
    && (p.ending.Newline? ==> p.text == [] || p.text[|p.text| - 1] != CR)
    && (p.ending.StreamEnd? ==> last && p.text != [])
  }

  predicate Proper(pieces: seq<Piece>) {
    forall i :: 0 <= i < |pieces| ==> ProperPiece(pieces[i], i == |pieces| - 1)
  }

  function Assembled(pieces: seq<Piece>): bytes {
    if pieces == [] then [] else pieces[0].text + EndingBytes(pieces[0].ending) + Assembled(pieces[1..])
  }

  lemma ProperTail(pieces: seq<Piece>)
    requires pieces != [] && Proper(pieces)
    ensures Proper(pieces[1..])
  {
    forall i | 0 <= i < |pieces[1..]| ensures ProperPiece(pieces[1..][i], i == |pieces[1..]| - 1) {
      assert ProperPiece(pieces[i + 1], i + 1 == |pieces| - 1);
    }
  }

  /** Every stream is made of pieces in this way. */
  lemma {:induction false} PiecesExist(s: bytes) returns (pieces: seq<Piece>)
    ensures Proper(pieces) && Assembled(pieces) == s
    decreases |s|
  {
    if s == [] {
      pieces := [];
    } else {
      var i := FirstLf(s);
      if i == |s| {
        pieces := [Piece(s, StreamEnd)];
        assert pieces[1..] == [];
      } else {
        var rest := PiecesExist(s[i + 1..]);
        var p := PieceOf(s[..i]);
        pieces := [p] + rest;
        PieceInFront(p, rest);
        assert s == (s[..i] + [LF]) + s[i + 1..];
      }
    }
  }

  lemma PieceOf(x: bytes) returns (p: Piece)
    requires LF !in x
    ensures ProperPiece(p, false) && p.text + EndingBytes(p.ending) == x + [LF]
  {
    p := if x != [] && x[|x| - 1] == CR then Piece(x[..|x| - 1], ReturnNewline) else Piece(x, Newline);
  }

  lemma PieceInFront(p: Piece, rest: seq<Piece>)
    requires ProperPiece(p, false) && Proper(rest)
    ensures Proper([p] + rest) && Assembled([p] + rest) == p.text + EndingBytes(p.ending) + Assembled(rest)
  {
    var pieces := [p] + rest;
    assert pieces[1..] == rest;
    forall j | 0 <= j < |pieces| ensures ProperPiece(pieces[j], j == |pieces| - 1) {
      if j > 0 { assert ProperPiece(rest[j - 1], j - 1 == |rest| - 1); }
    }
  }

  /** The texts of the pieces are the contents of the lines. */
  lemma {:induction false} LinesArePieces(pieces: seq<Piece>)
    requires Proper(pieces)
    ensures |Lines(Assembled(pieces))| == |pieces|
    ensures forall i :: 0 <= i < |pieces| ==> Content(Lines(Assembled(pieces))[i]) == pieces[i].text
    decreases |pieces|
  {
    if pieces != [] {
      var rest := pieces[1..];
      ProperTail(pieces);
      LinesArePieces(rest);
      var line := FirstPiece(pieces);
      InFront(line, Lines(Assembled(rest)), pieces);
    }
  }

  lemma InFront(line: Line, lines: seq<Line>, pieces: seq<Piece>)
    requires pieces != [] && Content(line) == pieces[0].text && |lines| == |pieces| - 1
    requires forall i :: 0 <= i < |lines| ==> Content(lines[i]) == pieces[1..][i].text
    ensures forall i :: 0 <= i < |pieces| ==> Content(([line] + lines)[i]) == pieces[i].text
  {
    forall i | 0 <= i < |pieces| ensures Content(([line] + lines)[i]) == pieces[i].text {
      if i > 0 { assert pieces[1..][i - 1] == pieces[i]; }
    }
  }

  lemma FirstPiece(pieces: seq<Piece>) returns (line: Line)
    requires pieces != [] && Proper(pieces)
    ensures Content(line) == pieces[0].text && Lines(Assembled(pieces)) == [line] + Lines(Assembled(pieces[1..]))
  {
    var p, rest := pieces[0], Assembled(pieces[1..]);
    assert ProperPiece(p, |pieces| == 1);
    match p.ending {
      case Newline =>
        line := Line(p.text, true);
        PlainLine(p.text, rest);
      case ReturnNewline =>
        line := Line(p.text + [CR], true);
        ReturnLine(p.text, rest);
      case StreamEnd =>
        line := Line(p.text, false);
        assert pieces[1..] == [] && p.text + [] + [] == p.text;
        OpenLine(p.text);
    }
  }

  lemma PlainLine(x: bytes, rest: bytes)
    requires LF !in x && (x == [] || x[|x| - 1] != CR)
    ensures Content(Line(x, true)) == x && Lines(x + [LF] + rest) == [Line(x, true)] + Lines(rest)
  {
    LineEnds(x, rest);
  }

  lemma ReturnLine(x: bytes, rest: bytes)
    requires LF !in x
    ensures Content(Line(x + [CR], true)) == x && Lines(x + [CR, LF] + rest) == [Line(x + [CR], true)] + Lines(rest)
  {
    LineEnds(x + [CR], rest);
    assert x + [CR, LF] + rest == (x + [CR]) + [LF] + rest;
  }

  lemma OpenLine(x: bytes)
    requires LF !in x && x != []
    ensures Content(Line(x, false)) == x && Lines(x) == [Line(x, false)] + Lines([])
  {
    LastLine(x);
  }

  /** A stream is importable exactly if it keeps to the limits and each of its texts is a document, and gives those documents. */
  lemma ImportableExact(pieces: seq<Piece>, limits: Limits, accept: Accept)
    requires Proper(pieces)
    ensures Importable(Assembled(pieces), limits, accept) <==>
            && |Assembled(pieces)| <= limits.total && 0 < |pieces| <= limits.documents
            && forall i :: 0 <= i < |pieces| ==> 0 < |pieces[i].text| <= limits.line && accept(pieces[i].text).Some?
    ensures Importable(Assembled(pieces), limits, accept) ==>
              var documents := Accepted(Lines(Assembled(pieces)), limits.line, accept);
              |documents| == |pieces| && forall i :: 0 <= i < |pieces| ==> Some(documents[i]) == accept(pieces[i].text)
  {
    LinesArePieces(pieces);
    var lines := Lines(Assembled(pieces));
    assert forall i :: 0 <= i < |lines| ==>
                         (Fine(lines[i], limits.line, accept) <==> 0 < |pieces[i].text| <= limits.line && accept(pieces[i].text).Some?);
  }

  // ---------------------------------------------------------------------------
  // Fragments

  /** What `ReadSlice` returns: a full buffer, the rest of a line, the end of the stream, or a failure to read. */
  datatype Fragment = Full(data: bytes) | Complete(data: bytes) | Eof(data: bytes) | Broken(data: bytes)

  /** Fragments as the reader makes them. */
  predicate WellCut(fs: seq<Fragment>) {
    && fs != [] && (fs[|fs| - 1].Eof? || fs[|fs| - 1].Broken?)
    && (forall i :: 0 <= i < |fs| - 1 ==> fs[i].Full? || fs[i].Complete?)
    && (forall i :: 0 <= i < |fs| ==> CutAtLf(fs[i]))
  }

  predicate CutAtLf(f: Fragment) {
    if f.Complete? then f.data != [] && f.data[|f.data| - 1] == LF && LF !in f.data[..|f.data| - 1]
    else LF !in f.data
  }

  function Stream(fs: seq<Fragment>): bytes {
    if fs == [] then [] else fs[0].data + Stream(fs[1..])
  }

  /** Each full buffer leaves a partial line no longer than a line may be, carriage return included. */
  predicate PeaksFit(fs: seq<Fragment>, carried: nat, maxLine: nat) {
    if fs == [] then true
    else
      match fs[0]
      case Full(data) => carried + |data| <= maxLine && PeaksFit(fs[1..], carried + |data|, maxLine)
      case Complete(_) => PeaksFit(fs[1..], 0, maxLine)
      case Eof(_) => true
      case Broken(_) => true
  }

  // ---------------------------------------------------------------------------
  // Reading

  datatype BulkError = EmptyImport | TotalLimit | LineLimit(line: nat) | InvalidLine(line: nat) | ReadError

  datatype BulkResult = Documents(documents: seq<bytes>) | Rejected(error: BulkError)

  method LineLen(line: bytes, complete: bool) returns (n: nat)
    ensures complete && line != [] && line[|line| - 1] == LF ==> n == |Content(Line(line[..|line| - 1], true))|
    ensures !complete ==> n == |line|
  {
    n := |line|;
    if complete && n > 0 && line[n - 1] == LF {
      n := n - 1;
      if n > 0 && line[n - 1] == CR {
        n := n - 1;
      }
    }
  }

  function TrimLineEnd(line: bytes, complete: bool): bytes {
    if complete then TrimSuffix(TrimSuffix(line, LF), CR) else line
  }

  /** Where the reader is: what is done, the partial line in hand, and what is still to come. */
  ghost predicate Reading(s: bytes, left: seq<Fragment>, line: bytes, total: nat, done: seq<Line>,
                          documents: seq<bytes>, limits: Limits, accept: Accept)
  {
    && LF !in line && total + |Stream(left)| == |s| && total <= limits.total && |documents| <= limits.documents
    && Lines(s) == done + Lines(line + Stream(left))
    && AllFine(done, limits.line, accept) && documents == Accepted(done, limits.line, accept)
  }

  /** Reading succeeds exactly when the stream is importable and no full buffer ends in too long a partial line. */
  ghost predicate ReadsExactly(s: bytes, fs: seq<Fragment>, limits: Limits, accept: Accept, r: BulkResult) {
    && (r.Documents? <==> Importable(s, limits, accept) && PeaksFit(fs, 0, limits.line))
    && (r.Documents? ==> r.documents == Accepted(Lines(s), limits.line, accept))
  }

  lemma TooMuch(s: bytes, left: seq<Fragment>, line: bytes, total: nat, done: seq<Line>, documents: seq<bytes>, limits: Limits, accept: Accept)
    requires Reading(s, left, line, total, done, documents, limits, accept) && left != [] && total + |left[0].data| > limits.total
    ensures !Importable(s, limits, accept)
  {
    assert |Stream(left)| == |left[0].data| + |Stream(left[1..])|;
  }

  lemma FullStep(s: bytes, left: seq<Fragment>, line: bytes, total: nat, done: seq<Line>, documents: seq<bytes>, limits: Limits, accept: Accept)
    requires Reading(s, left, line, total, done, documents, limits, accept) && left != [] && CutAtLf(left[0]) && left[0].Full?
    requires total + |left[0].data| <= limits.total
    ensures Reading(s, left[1..], line + left[0].data, total + |left[0].data|, done, documents, limits, accept)
  {
    var d := left[0].data;
    assert line + (d + Stream(left[1..])) == (line + d) + Stream(left[1..]);
  }

  /** The line that a fragment completes, or that the end of the stream leaves. */
  function LineAt(line: bytes, f: Fragment): Line
    requires f.Complete? ==> f.data != []
  {
    if f.Complete? then Line(line + f.data[..|f.data| - 1], true) else Line(line + f.data, false)
  }

  lemma NextLine(s: bytes, left: seq<Fragment>, line: bytes, total: nat, done: seq<Line>, documents: seq<bytes>, limits: Limits, accept: Accept)
    requires Reading(s, left, line, total, done, documents, limits, accept) && left != [] && CutAtLf(left[0])
    requires left[0].Complete? || (left[0].Eof? && |left| == 1 && line + left[0].data != [])
    ensures Lines(s) == done + ([LineAt(line, left[0])] + Lines(Stream(left[1..])))
    ensures left[0].Eof? ==> Stream(left[1..]) == []
  {
    var f, rest := left[0], Stream(left[1..]);
    if f.Complete? {
      var x := line + f.data[..|f.data| - 1];
      assert line + (f.data + rest) == x + [LF] + rest;
      LineEnds(x, rest);
    } else {
      assert line + (f.data + rest) == line + f.data;
      LastLine(line + f.data);
      assert [LineAt(line, f)] + [] == [LineAt(line, f)];
    }
  }

  /** A line that is not fine, or one too many, rules the stream out. */
  lemma NextLineDecides(s: bytes, done: seq<Line>, next: Line, rest: seq<Line>, limits: Limits, accept: Accept)
    requires Lines(s) == done + ([next] + rest) && Importable(s, limits, accept)
    ensures Fine(next, limits.line, accept) && |done| < limits.documents
  {
    assert Lines(s)[|done|] == next;
  }

  lemma DoneNext(done: seq<Line>, next: Line, maxLine: nat, accept: Accept)
    requires AllFine(done, maxLine, accept) && Fine(next, maxLine, accept)
    ensures AllFine(done + [next], maxLine, accept)
    ensures Accepted(done + [next], maxLine, accept) == Accepted(done, maxLine, accept) + [accept(Content(next)).value]
  {
  }

  lemma LineStep(s: bytes, left: seq<Fragment>, line: bytes, total: nat, done: seq<Line>, documents: seq<bytes>, limits: Limits, accept: Accept)
    requires Reading(s, left, line, total, done, documents, limits, accept) && left != [] && CutAtLf(left[0])
    requires left[0].Complete? || (left[0].Eof? && |left| == 1 && line + left[0].data != [])
    requires total + |left[0].data| <= limits.total && Fine(LineAt(line, left[0]), limits.line, accept) && |documents| < limits.documents
    ensures var next := LineAt(line, left[0]);
            Reading(s, left[1..], [], total + |left[0].data|, done + [next], documents + [accept(Content(next)).value], limits, accept)
  {
    var next, rest := LineAt(line, left[0]), Stream(left[1..]);
    NextLine(s, left, line, total, done, documents, limits, accept);
    DoneNext(done, next, limits.line, accept);
    Regroup(done, next, Lines(rest));
    assert [] + rest == rest;
  }

  lemma Regroup(done: seq<Line>, next: Line, rest: seq<Line>)
    ensures done + ([next] + rest) == (done + [next]) + rest
  {
  }

  /** At the end of the stream everything is done. */
  lemma AllRead(s: bytes, left: seq<Fragment>, line: bytes, total: nat, done: seq<Line>, documents: seq<bytes>, limits: Limits, accept: Accept)
    requires Reading(s, left, line, total, done, documents, limits, accept) && line == [] && Stream(left) == []
    ensures Lines(s) == done && (Importable(s, limits, accept) <==> documents != [])
    ensures documents == Accepted(done, limits.line, accept)
  {
    assert line + Stream(left) == [];
  }

  lemma LineLength(line: bytes, f: Fragment)
    requires f.Complete? && CutAtLf(f)
    ensures var whole := line + f.data;
            && whole != [] && whole[|whole| - 1] == LF && whole[..|whole| - 1] == LineAt(line, f).data
            && TrimLineEnd(whole, true) == Content(LineAt(line, f))
  {
    var whole := line + f.data;
    assert whole[..|whole| - 1] == line + f.data[..|f.data| - 1];
  }

  /** What the fragment at hand is turned into, and how long the line is by then. */
  method Extend(line: bytes, f: Fragment) returns (whole: bytes, length: nat)
    requires CutAtLf(f)
    ensures whole == line + f.data
    ensures f.Complete? || f.Eof? ==> length == |Content(LineAt(line, f))| && TrimLineEnd(whole, f.Complete?) == Content(LineAt(line, f))
    ensures !f.Complete? ==> length == |line| + |f.data|
  {
    whole := line + f.data;
    length := LineLen(whole, f.Complete?);
    if f.Complete? { LineLength(line, f); }
  }

  /** The checks on a line, in order. */
  method TakeLine(line: bytes, length: nat, count: nat, lineNumber: nat, limits: Limits, accept: Accept)
    returns (problem: Option<BulkError>, document: bytes)
    requires length == |line|
    ensures problem.None? <==> 0 < |line| <= limits.line && count < limits.documents && accept(line).Some?
    ensures problem.None? ==> accept(line) == Some(document)
    ensures problem.Some? ==>
              || (problem == Some(LineLimit(lineNumber)) && (|line| > limits.line || count >= limits.documents))
              || (problem == Some(InvalidLine(lineNumber)) && (line == [] || accept(line).None?))
  {
    document := [];
    if length > limits.line {
      return Some(LineLimit(lineNumber)), document;
    }
    if |line| == 0 {
      return Some(InvalidLine(lineNumber)), document;
    }
    if count >= limits.documents {
      return Some(LineLimit(lineNumber)), document;
    }
    var accepted := accept(line);
    if accepted.None? {
      return Some(InvalidLine(lineNumber)), document;
    }
    return None, accepted.value;
  }

  /** Reading cannot succeed. */
  ghost predicate Fails(fs: seq<Fragment>, limits: Limits, accept: Accept) {
    !(Importable(Stream(fs), limits, accept) && PeaksFit(fs, 0, limits.line))
  }

  /**
   What an error says of the stream. One with a line number is about the first line that is not a document, or is
   too long with what ends it, or is one too many.
   */
  predicate Blames(s: bytes, limits: Limits, accept: Accept, e: BulkError) {
    match e
    case EmptyImport => s == []
    case TotalLimit => |s| > limits.total
    case LineLimit(n) =>
      && 1 <= n <= |Lines(s)| && AllFine(Lines(s)[..n - 1], limits.line, accept)
      && (|Lines(s)[n - 1].data| > limits.line || n - 1 == limits.documents)
    case InvalidLine(n) =>
      && 1 <= n <= |Lines(s)| && AllFine(Lines(s)[..n - 1], limits.line, accept)
      && (Content(Lines(s)[n - 1]) == [] || accept(Content(Lines(s)[n - 1])).None?)
    case ReadError => false
  }

  lemma BlameTotal(fs: seq<Fragment>, left: seq<Fragment>, line: bytes, total: nat, done: seq<Line>, documents: seq<bytes>, limits: Limits, accept: Accept)
    requires At(fs, left, line, total, done, documents, limits, accept) && left != [] && total + |left[0].data| > limits.total
    ensures Blames(Stream(fs), limits, accept, TotalLimit)
  {
  }

  lemma BlameFull(fs: seq<Fragment>, left: seq<Fragment>, line: bytes, total: nat, done: seq<Line>, documents: seq<bytes>, limits: Limits, accept: Accept)
    requires At(fs, left, line, total, done, documents, limits, accept) && left != [] && CutAtLf(left[0]) && left[0].Full?
    requires |line| + |left[0].data| > limits.line
    ensures Blames(Stream(fs), limits, accept, LineLimit(|done| + 1))
  {
    var x, rest := line + left[0].data, Stream(left[1..]);
    assert line + Stream(left) == x + rest;
    LongFirstLine(x, rest);
    NthLine(Stream(fs), done, Lines(x + rest));
  }

  lemma NthLine(s: bytes, done: seq<Line>, rest: seq<Line>)
    requires Lines(s) == done + rest && rest != []
    ensures |done| < |Lines(s)| && Lines(s)[..|done|] == done && Lines(s)[|done|] == rest[0]
  {
  }

  lemma BlameLine(fs: seq<Fragment>, left: seq<Fragment>, line: bytes, total: nat, done: seq<Line>, documents: seq<bytes>, limits: Limits, accept: Accept)
    requires At(fs, left, line, total, done, documents, limits, accept) && left != [] && CutAtLf(left[0])
    requires left[0].Complete? || (left[0].Eof? && |left| == 1 && line + left[0].data != [])
    ensures var content := Content(LineAt(line, left[0]));
            && (|content| > limits.line || |documents| >= limits.documents ==> Blames(Stream(fs), limits, accept, LineLimit(|done| + 1)))
            && (content == [] || accept(content).None? ==> Blames(Stream(fs), limits, accept, InvalidLine(|done| + 1)))
  {
    var next := LineAt(line, left[0]);
    NextLine(Stream(fs), left, line, total, done, documents, limits, accept);
    NthLine(Stream(fs), done, [next] + Lines(Stream(left[1..])));
  }

  /** Where the loop is. */
  ghost predicate At(fs: seq<Fragment>, left: seq<Fragment>, line: bytes, total: nat, done: seq<Line>,
                     documents: seq<bytes>, limits: Limits, accept: Accept)
  {
    && Reading(Stream(fs), left, line, total, done, documents, limits, accept)
    && (PeaksFit(fs, 0, limits.line) <==> PeaksFit(left, |line|, limits.line))
  }

  lemma Begin(fs: seq<Fragment>, limits: Limits, accept: Accept)
    ensures At(fs, fs, [], 0, [], [], limits, accept)
  {
    assert [] + Stream(fs) == Stream(fs) && [] + Lines(Stream(fs)) == Lines(Stream(fs));
  }

  /** A fragment that fills the buffer. */
  lemma AfterFull(fs: seq<Fragment>, left: seq<Fragment>, line: bytes, total: nat, done: seq<Line>, documents: seq<bytes>, limits: Limits, accept: Accept)
    requires At(fs, left, line, total, done, documents, limits, accept) && left != [] && CutAtLf(left[0]) && left[0].Full?
    requires total + |left[0].data| <= limits.total
    ensures if |line| + |left[0].data| > limits.line then Fails(fs, limits, accept)
            else At(fs, left[1..], line + left[0].data, total + |left[0].data|, done, documents, limits, accept)
  {
    FullStep(Stream(fs), left, line, total, done, documents, limits, accept);
  }

  /** A fragment that ends a line, or the stream in the middle of one. */
  lemma AfterLine(fs: seq<Fragment>, left: seq<Fragment>, line: bytes, total: nat, done: seq<Line>, documents: seq<bytes>, limits: Limits, accept: Accept)
    requires At(fs, left, line, total, done, documents, limits, accept) && left != [] && CutAtLf(left[0])
    requires left[0].Complete? || (left[0].Eof? && |left| == 1 && line + left[0].data != [])
    requires total + |left[0].data| <= limits.total
    ensures var next := LineAt(line, left[0]);
            if !Fine(next, limits.line, accept) || |documents| >= limits.documents then Fails(fs, limits, accept)
            else At(fs, left[1..], [], total + |left[0].data|, done + [next], documents + [accept(Content(next)).value], limits, accept)
  {
    var s, next := Stream(fs), LineAt(line, left[0]);
    NextLine(s, left, line, total, done, documents, limits, accept);
    if Importable(s, limits, accept) { NextLineDecides(s, done, next, Lines(Stream(left[1..])), limits, accept); }
    if Fine(next, limits.line, accept) && |documents| < limits.documents {
      LineStep(s, left, line, total, done, documents, limits, accept);
    }
  }

  /** What the checks on a line come to. */
  lemma LineTaken(fs: seq<Fragment>, left: seq<Fragment>, line: bytes, total: nat, done: seq<Line>, documents: seq<bytes>, limits: Limits,
                  accept: Accept, problem: Option<BulkError>, document: bytes)
    requires At(fs, left, line, total, done, documents, limits, accept) && left != [] && CutAtLf(left[0])
    requires left[0].Complete? || (left[0].Eof? && |left| == 1 && line + left[0].data != [])
    requires total + |left[0].data| <= limits.total
    requires var content := Content(LineAt(line, left[0]));
             && (problem.None? <==> 0 < |content| <= limits.line && |documents| < limits.documents && accept(content).Some?)
             && (problem.None? ==> accept(content) == Some(document))
             && (problem.Some? ==>
                   || (problem == Some(LineLimit(|done| + 1)) && (|content| > limits.line || |documents| >= limits.documents))
                   || (problem == Some(InvalidLine(|done| + 1)) && (content == [] || accept(content).None?)))
    ensures if problem.Some? then Fails(fs, limits, accept) && Blames(Stream(fs), limits, accept, problem.value)
            else At(fs, left[1..], [], total + |left[0].data|, done + [LineAt(line, left[0])], documents + [document], limits, accept)
  {
    AfterLine(fs, left, line, total, done, documents, limits, accept);
    BlameLine(fs, left, line, total, done, documents, limits, accept);
  }

  lemma AfterEnd(fs: seq<Fragment>, left: seq<Fragment>, total: nat, done: seq<Line>, documents: seq<bytes>, limits: Limits, accept: Accept)
    requires At(fs, left, [], total, done, documents, limits, accept) && Stream(left) == [] && PeaksFit(left, 0, limits.line)
    ensures ReadsExactly(Stream(fs), fs, limits, accept, if documents == [] then Rejected(EmptyImport) else Documents(documents))
  {
    AllRead(Stream(fs), left, [], total, done, documents, limits, accept);
  }

  /** Where a fragment takes the loop. */
  datatype Turn = GoOn(line: bytes, documents: seq<bytes>, lineNumber: nat) | Stop(result: BulkResult)

  /** The loop may end with this result on this fragment. */
  ghost predicate Ends(fs: seq<Fragment>, f: Fragment, limits: Limits, accept: Accept, r: BulkResult) {
    if f.Broken? then r.Rejected?
    else
      && (r.Documents? ==> f.Eof? && ReadsExactly(Stream(fs), fs, limits, accept, r))
      && (r.Rejected? ==> Fails(fs, limits, accept) && Blames(Stream(fs), limits, accept, r.error))
  }

  /** One round of the loop of `readBulkCtx`. */
  method ReadFragment(f: Fragment, line: bytes, total: nat, documents: seq<bytes>, lineNumber: nat, limits: Limits, accept: Accept,
                      ghost fs: seq<Fragment>, ghost left: seq<Fragment>, ghost done: seq<Line>)
    returns (turn: Turn, ghost more: seq<Line>)
    requires At(fs, left, line, total, done, documents, limits, accept) && lineNumber == |done| + 1
    requires left != [] && left[0] == f && CutAtLf(f) && (f.Eof? || f.Broken? ==> |left| == 1)
    ensures turn.GoOn? ==>
              && (f.Full? || f.Complete?) && turn.lineNumber == |more| + 1
              && At(fs, left[1..], turn.line, total + |f.data|, more, turn.documents, limits, accept)
    ensures turn.Stop? ==> Ends(fs, f, limits, accept, turn.result)
  {
    more := done;
    if total + |f.data| > limits.total {
      TooMuch(Stream(fs), left, line, total, done, documents, limits, accept);
      BlameTotal(fs, left, line, total, done, documents, limits, accept);
      return Stop(Rejected(TotalLimit)), more;
    }
    var whole, length := Extend(line, f);
    if f.Broken? {
      return Stop(Rejected(if length > limits.line then LineLimit(lineNumber) else ReadError)), more;
    }
    if f.Full? {
      AfterFull(fs, left, line, total, done, documents, limits, accept);
      if length > limits.line {
        BlameFull(fs, left, line, total, done, documents, limits, accept);
        return Stop(Rejected(LineLimit(lineNumber))), more;
      }
      return GoOn(whole, documents, lineNumber), more;
    }
    if f.Eof? && |whole| == 0 {
      EndReached(fs, left, total, done, documents, limits, accept);
      return Stop(if |documents| == 0 then Rejected(EmptyImport) else Documents(documents)), more;
    }
    var problem, document := TakeLine(TrimLineEnd(whole, f.Complete?), length, |documents|, lineNumber, limits, accept);
    LineTaken(fs, left, line, total, done, documents, limits, accept, problem, document);
    if problem.Some? {
      return Stop(Rejected(problem.value)), more;
    }
    more := done + [LineAt(line, f)];
    if f.Eof? {
      EndReached(fs, left[1..], total + |f.data|, more, documents + [document], limits, accept);
      return Stop(Documents(documents + [document])), more;
    }
    return GoOn([], documents + [document], lineNumber + 1), more;
  }

  lemma EndReached(fs: seq<Fragment>, left: seq<Fragment>, total: nat, done: seq<Line>, documents: seq<bytes>, limits: Limits, accept: Accept)
    requires At(fs, left, [], total, done, documents, limits, accept) && Stream(left) == [] && PeaksFit(left, 0, limits.line)
    ensures documents == [] ==> Fails(fs, limits, accept) && Blames(Stream(fs), limits, accept, EmptyImport)
    ensures documents != [] ==> ReadsExactly(Stream(fs), fs, limits, accept, Documents(documents))
  {
    AfterEnd(fs, left, total, done, documents, limits, accept);
    AllRead(Stream(fs), left, [], total, done, documents, limits, accept);
  }

  /** `readBulkCtx`, with what the buffered reader returns call after call. */
  method ReadBulk(fs: seq<Fragment>, limits: Limits, accept: Accept) returns (r: BulkResult)
    requires WellCut(fs)
    ensures fs[|fs| - 1].Eof? ==> ReadsExactly(Stream(fs), fs, limits, accept, r)
    ensures fs[|fs| - 1].Eof? && r.Rejected? ==> Blames(Stream(fs), limits, accept, r.error)
    ensures fs[|fs| - 1].Broken? ==> r.Rejected?
  {
    var documents: seq<bytes> := [];
    var line: bytes := [];
    var total: nat, lineNumber: nat, i := 0, 1, 0;
    ghost var left := fs;
    ghost var done: seq<Line> := [];
    Begin(fs, limits, accept);
    while true
      invariant 0 <= i < |fs| && left == fs[i..] && lineNumber == |done| + 1
      invariant At(fs, left, line, total, done, documents, limits, accept)
      decreases |fs| - i
    {
      var f := fs[i];
      NextFragment(fs, i, left);
      var turn;
      turn, done := ReadFragment(f, line, total, documents, lineNumber, limits, accept, fs, left, done);
      if turn.Stop? {
        Concludes(fs, i, limits, accept, turn.result);
        return turn.result;
      }
      line, documents, lineNumber := turn.line, turn.documents, turn.lineNumber;
      total, i, left := total + |f.data|, i + 1, left[1..];
    }
  }

  lemma NextFragment(fs: seq<Fragment>, i: nat, left: seq<Fragment>)
    requires WellCut(fs) && i < |fs| && left == fs[i..]
    ensures left != [] && left[0] == fs[i] && CutAtLf(fs[i]) && left[1..] == fs[i + 1..]
    ensures if fs[i].Eof? || fs[i].Broken? then |left| == 1 else i + 1 < |fs|
  {
  }

  /** A loop that may end so on some fragment ends well. */
  lemma Concludes(fs: seq<Fragment>, i: nat, limits: Limits, accept: Accept, r: BulkResult)
    requires WellCut(fs) && i < |fs| && Ends(fs, fs[i], limits, accept, r)
    ensures fs[|fs| - 1].Eof? ==> ReadsExactly(Stream(fs), fs, limits, accept, r)
    ensures fs[|fs| - 1].Eof? && r.Rejected? ==> Blames(Stream(fs), limits, accept, r.error)
    ensures fs[|fs| - 1].Broken? ==> r.Rejected?
  {
    if fs[i].Broken? || fs[i].Eof? { assert i == |fs| - 1; }
  }

  // ---------------------------------------------------------------------------
  // Streams without carriage returns

  lemma LongFirstLine(x: bytes, rest: bytes)
    requires LF !in x && x != []
    ensures Lines(x + rest) != [] && |Lines(x + rest)[0].data| >= |x|
    ensures Lines(x + rest)[0].data <= x + rest
  {
    var s := x + rest;
    assert forall j :: 0 <= j < |x| ==> s[j] == x[j];
    assert FirstLf(s) >= |x|;
  }

  /** Without carriage returns no partial line is longer than the line it becomes. */
  lemma {:induction false} PeaksFollow(fs: seq<Fragment>, carried: bytes, maxLine: nat, accept: Accept)
    requires forall i :: 0 <= i < |fs| ==> CutAtLf(fs[i])
    requires LF !in carried && CR !in carried + Stream(fs) && AllFine(Lines(carried + Stream(fs)), maxLine, accept)
    ensures PeaksFit(fs, |carried|, maxLine)
    decreases |fs|
  {
    if fs != [] && fs[0].Full? {
      PeakFits(fs, carried, maxLine, accept);
      PeaksFollow(fs[1..], carried + fs[0].data, maxLine, accept);
    } else if fs != [] && fs[0].Complete? {
      LineGone(fs, carried, maxLine, accept);
      assert [] + Stream(fs[1..]) == Stream(fs[1..]);
      PeaksFollow(fs[1..], [], maxLine, accept);
    }
  }

  lemma PeakFits(fs: seq<Fragment>, carried: bytes, maxLine: nat, accept: Accept)
    requires fs != [] && fs[0].Full? && CutAtLf(fs[0])
    requires LF !in carried && CR !in carried + Stream(fs) && AllFine(Lines(carried + Stream(fs)), maxLine, accept)
    ensures |carried| + |fs[0].data| <= maxLine
    ensures carried + Stream(fs) == (carried + fs[0].data) + Stream(fs[1..])
  {
    var x, s := carried + fs[0].data, carried + Stream(fs);
    assert s == x + Stream(fs[1..]);
    if x != [] {
      LongFirstLine(x, Stream(fs[1..]));
      assert Fine(Lines(s)[0], maxLine, accept);
      NoTrim(Lines(s)[0], s);
    }
  }

  lemma LineGone(fs: seq<Fragment>, carried: bytes, maxLine: nat, accept: Accept)
    requires fs != [] && fs[0].Complete? && CutAtLf(fs[0])
    requires LF !in carried && CR !in carried + Stream(fs) && AllFine(Lines(carried + Stream(fs)), maxLine, accept)
    ensures CR !in Stream(fs[1..]) && AllFine(Lines(Stream(fs[1..])), maxLine, accept)
  {
    var x, rest := carried + fs[0].data[..|fs[0].data| - 1], Stream(fs[1..]);
    CutOut(carried, fs[0], rest);
    TailFine(x, rest, maxLine, accept);
  }

  lemma CutOut(carried: bytes, f: Fragment, rest: bytes)
    requires f.Complete? && CutAtLf(f)
    ensures carried + (f.data + rest) == (carried + f.data[..|f.data| - 1]) + [LF] + rest
    ensures LF !in carried ==> LF !in carried + f.data[..|f.data| - 1]
  {
  }

  lemma TailFine(x: bytes, rest: bytes, maxLine: nat, accept: Accept)
    requires LF !in x && CR !in x + [LF] + rest && AllFine(Lines(x + [LF] + rest), maxLine, accept)
    ensures CR !in rest && AllFine(Lines(rest), maxLine, accept)
  {
    LineEnds(x, rest);
    var lines, tail := Lines(x + [LF] + rest), Lines(rest);
    forall i | 0 <= i < |tail| ensures Fine(tail[i], maxLine, accept) {
      assert lines[i + 1] == tail[i];
    }
  }

  lemma NoTrim(line: Line, s: bytes)
    requires line.data <= s && CR !in s
    ensures Content(line) == line.data
  {
    if line.data != [] { assert s[|line.data| - 1] == line.data[|line.data| - 1]; }
  }

  /** So however such a stream is cut, reading it succeeds exactly if it is importable. */
  lemma AnyCut(fs: seq<Fragment>, limits: Limits, accept: Accept, r: BulkResult)
    requires WellCut(fs) && CR !in Stream(fs) && ReadsExactly(Stream(fs), fs, limits, accept, r)
    ensures r.Documents? <==> Importable(Stream(fs), limits, accept)
    ensures r.Documents? ==> r.documents == Accepted(Lines(Stream(fs)), limits.line, accept)
  {
    if Importable(Stream(fs), limits, accept) {
      assert [] + Stream(fs) == Stream(fs);
      PeaksFollow(fs, [], limits.line, accept);
    }
  }

  // ---------------------------------------------------------------------------
  // The buffer of the reader

  /** The size of the buffer that `bufio.NewReader` makes. */
  const READ_BUFFER: nat := 4096

  /** Fragments of that buffer: a line is cut only where its own start is a multiple of the buffer away. */
  predicate BufferCut(fs: seq<Fragment>) {
    WellCut(fs) && AllBuffered(fs)
  }

  predicate AllBuffered(fs: seq<Fragment>) {
    forall i :: 0 <= i < |fs| ==> Buffered(fs[i])
  }

  predicate Buffered(f: Fragment) {
    if f.Full? then |f.data| == READ_BUFFER else |f.data| <= READ_BUFFER
  }

  /** A line of the full length that ends in a carriage return and a newline, when its return fills up a buffer. */
  predicate FillsUp(line: Line, maxLine: nat) {
    && line.ended && |Content(line)| == maxLine && |line.data| == maxLine + 1
    && (maxLine + 1) % READ_BUFFER == 0
  }

  predicate SomeFillsUp(lines: seq<Line>, maxLine: nat) {
    exists i :: 0 <= i < |lines| && FillsUp(lines[i], maxLine)
  }

  predicate NoneTooLong(lines: seq<Line>, maxLine: nat) {
    forall i :: 0 <= i < |lines| ==> |Content(lines[i])| <= maxLine
  }

  lemma SomeInFront(first: Line, rest: seq<Line>, maxLine: nat)
    ensures SomeFillsUp([first] + rest, maxLine) <==> FillsUp(first, maxLine) || SomeFillsUp(rest, maxLine)
    ensures NoneTooLong([first] + rest, maxLine) <==> |Content(first)| <= maxLine && NoneTooLong(rest, maxLine)
  {
    var lines := [first] + rest;
    if i :| 0 <= i < |rest| && FillsUp(rest[i], maxLine) {
      assert lines[i + 1] == rest[i];
    }
    if i :| 0 <= i < |rest| && |Content(rest[i])| > maxLine {
      assert lines[i + 1] == rest[i];
    }
    assert lines[0] == first;
  }

  /** A partial line that is too long although the whole line is not: its last byte is the carriage return. */
  lemma PeakFillsUp(x: bytes, rest: bytes, maxLine: nat)
    requires LF !in x && |x| % READ_BUFFER == 0 && |x| > maxLine && NoneTooLong(Lines(x + rest), maxLine)
    ensures SomeFillsUp(Lines(x + rest), maxLine)
  {
    LongFirstLine(x, rest);
    var first := Lines(x + rest)[0];
    assert |Content(first)| <= maxLine < |x| <= |first.data| <= |Content(first)| + 1;
    assert FillsUp(first, maxLine);
  }

  /** The end of a line comes right behind a full buffer only if it is alone in its fragment. */
  lemma EndedEarlier(carried: bytes, f: Fragment, maxLine: nat)
    requires f.Complete? && CutAtLf(f) && Buffered(f) && |carried| % READ_BUFFER == 0 && |carried| <= maxLine
    ensures !FillsUp(LineAt(carried, f), maxLine)
  {
  }

  /** Full buffers fit exactly if no line fills one up. */
  lemma {:induction false} PeaksExactly(fs: seq<Fragment>, carried: bytes, maxLine: nat)
    requires AllBuffered(fs) && forall i :: 0 <= i < |fs| ==> CutAtLf(fs[i])
    requires forall i :: 0 <= i < |fs| - 1 ==> fs[i].Full? || fs[i].Complete?
    requires LF !in carried && |carried| % READ_BUFFER == 0 && |carried| <= maxLine
    requires NoneTooLong(Lines(carried + Stream(fs)), maxLine)
    ensures PeaksFit(fs, |carried|, maxLine) <==> !SomeFillsUp(Lines(carried + Stream(fs)), maxLine)
    decreases |fs|
  {
    if fs == [] {
      assert carried + Stream(fs) == carried;
      LastLine(carried);
    } else if fs[0].Full? {
      Joined(carried, fs[0].data, Stream(fs[1..]));
      FullExactly(carried, fs[0].data, Stream(fs[1..]), maxLine);
      if |carried| + |fs[0].data| <= maxLine { PeaksExactly(fs[1..], carried + fs[0].data, maxLine); }
    } else if fs[0].Complete? {
      CompleteExactly(fs, carried, maxLine);
      assert [] + Stream(fs[1..]) == Stream(fs[1..]);
      PeaksExactly(fs[1..], [], maxLine);
    } else {
      assert fs[1..] == [] && Stream(fs[1..]) == [];
      assert carried + Stream(fs) == carried + fs[0].data;
      LastLine(carried + fs[0].data);
    }
  }

  lemma FullExactly(carried: bytes, d: bytes, rest: bytes, maxLine: nat)
    requires LF !in carried && LF !in d && |d| == READ_BUFFER && |carried| % READ_BUFFER == 0
    requires NoneTooLong(Lines((carried + d) + rest), maxLine)
    ensures |carried + d| % READ_BUFFER == 0 && LF !in carried + d
    ensures |carried + d| > maxLine ==> SomeFillsUp(Lines((carried + d) + rest), maxLine)
  {
    if |carried + d| > maxLine { PeakFillsUp(carried + d, rest, maxLine); }
  }

  lemma Joined(x: bytes, y: bytes, z: bytes)
    ensures x + (y + z) == (x + y) + z
  {
  }

  lemma CompleteExactly(fs: seq<Fragment>, carried: bytes, maxLine: nat)
    requires fs != [] && fs[0].Complete? && CutAtLf(fs[0]) && Buffered(fs[0])
    requires LF !in carried && |carried| % READ_BUFFER == 0 && |carried| <= maxLine
    requires NoneTooLong(Lines(carried + Stream(fs)), maxLine)
    ensures NoneTooLong(Lines(Stream(fs[1..])), maxLine)
    ensures SomeFillsUp(Lines(carried + Stream(fs)), maxLine) <==> SomeFillsUp(Lines(Stream(fs[1..])), maxLine)
  {
    var x, rest := carried + fs[0].data[..|fs[0].data| - 1], Stream(fs[1..]);
    CutOut(carried, fs[0], rest);
    LineEnds(x, rest);
    EndedEarlier(carried, fs[0], maxLine);
    SomeInFront(Line(x, true), Lines(rest), maxLine);
  }

  /**
   With the buffer the reader has, reading succeeds exactly if the stream is importable and has no line of the
   full length whose carriage return fills up a buffer.
   */
  lemma BufferedReads(fs: seq<Fragment>, limits: Limits, accept: Accept, r: BulkResult)
    requires BufferCut(fs) && ReadsExactly(Stream(fs), fs, limits, accept, r)
    ensures r.Documents? <==> Importable(Stream(fs), limits, accept) && !SomeFillsUp(Lines(Stream(fs)), limits.line)
    ensures r.Documents? ==> r.documents == Accepted(Lines(Stream(fs)), limits.line, accept)
  {
    if Importable(Stream(fs), limits, accept) {
      FineIsShort(Lines(Stream(fs)), limits.line, accept);
      assert [] + Stream(fs) == Stream(fs);
      PeaksExactly(fs, [], limits.line);
    }
  }

  lemma FineIsShort(lines: seq<Line>, maxLine: nat, accept: Accept)
    requires AllFine(lines, maxLine, accept)
    ensures NoneTooLong(lines, maxLine)
  {
    forall i | 0 <= i < |lines| ensures |Content(lines[i])| <= maxLine {
      assert Fine(lines[i], maxLine, accept);
    }
  }

  /** The text `{"a":"xx...x"}` with `n` letters in the string. */
  function ObjectText(n: nat): (text: bytes)
    ensures |text| == n + 8 && LF !in text && CR !in text
  {
    [0x7b, 0x22, 0x61, 0x22, 0x3a, 0x22] + seq(n, _ => 0x78) + [0x22, 0x7d]
  }

  /**
   Such lines exist: whenever the line limit is one less than a multiple of the buffer, an object of exactly
   that many bytes, ended by a carriage return and a newline, is importable and refused.
   */
  lemma FullLineRefused(fs: seq<Fragment>, limits: Limits, accept: Accept, r: BulkResult)
    requires limits.line >= 8 && (limits.line + 1) % READ_BUFFER == 0
    requires accept(ObjectText(limits.line - 8)).Some? && limits.total >= limits.line + 2 && limits.documents >= 1
    requires BufferCut(fs) && Stream(fs) == ObjectText(limits.line - 8) + [CR, LF]
    requires ReadsExactly(Stream(fs), fs, limits, accept, r)
    ensures Importable(Stream(fs), limits, accept) && r.Rejected?
  {
    var text := ObjectText(limits.line - 8);
    var line := Line(text + [CR], true);
    assert Stream(fs) == (text + [CR]) + [LF] + [];
    LineEnds(text + [CR], []);
    assert [line] + Lines([]) == [line];
    assert Lines(Stream(fs)) == [line];
    assert Content(line) == text;
    assert Fine(line, limits.line, accept) && FillsUp([line][0], limits.line);
    BufferedReads(fs, limits, accept, r);
  }

  /** For a limit of 4095 bytes this is how the reader cuts that stream. */
  lemma FullLineCut(text: bytes)
    requires text == ObjectText(READ_BUFFER - 9)
    ensures var fs := [Full(text + [CR]), Complete([LF]), Eof([])];
            BufferCut(fs) && Stream(fs) == text + [CR, LF]
  {
    var end: seq<Fragment> := [Eof([])];
    var rest := [Complete([LF])] + end;
    var fs := [Full(text + [CR])] + rest;
    assert fs[1..] == rest && rest[1..] == end && end[1..] == [];
    assert Stream(end) == [] && Stream(rest) == [LF];
    assert Stream(fs) == (text + [CR]) + [LF];
  }

  // ---------------------------------------------------------------------------
  // Writing

  /** Documents one to a line. */
  function Framed(documents: seq<bytes>): bytes {
    if documents == [] then [] else Framed(documents[..|documents| - 1]) + (documents[|documents| - 1] + [LF])
  }

  lemma Regrouped(a: bytes, b: bytes, c: bytes)
    ensures (a + b) + c == a + (b + c)
  {
  }

  lemma {:induction false} FramedFront(documents: seq<bytes>)
    requires documents != []
    ensures Framed(documents) == documents[0] + [LF] + Framed(documents[1..])
    decreases |documents|
  {
    var n := |documents| - 1;
    if n == 0 {
      assert documents[..0] == [] && documents[1..] == [];
    } else {
      FramedFront(documents[..n]);
      var rest := documents[1..];
      assert documents[..n][1..] == rest[..n - 1] && rest[n - 1] == documents[n];
      Regrouped(documents[0] + [LF], Framed(rest[..n - 1]), documents[n] + [LF]);
    }
  }

  function AsLines(documents: seq<bytes>): seq<Line> {
    seq(|documents|, i requires 0 <= i < |documents| => Line(documents[i], true))
  }

  /** A document as it is stored: canonical text, on one line. */
  predicate Storable(document: bytes, maxLine: nat, accept: Accept) {
    0 < |document| <= maxLine && LF !in document && CR !in document && accept(document) == Some(document)
  }

  lemma {:induction false} FramedLines(documents: seq<bytes>, maxLine: nat, accept: Accept)
    requires forall i :: 0 <= i < |documents| ==> Storable(documents[i], maxLine, accept)
    ensures Lines(Framed(documents)) == AsLines(documents) && CR !in Framed(documents)
    decreases |documents|
  {
    if documents != [] {
      FramedFront(documents);
      FramedLines(documents[1..], maxLine, accept);
      assert Storable(documents[0], maxLine, accept);
      LineEnds(documents[0], Framed(documents[1..]));
      LinesFront(documents);
    }
  }

  lemma LinesFront(documents: seq<bytes>)
    requires documents != []
    ensures AsLines(documents) == [Line(documents[0], true)] + AsLines(documents[1..])
  {
  }

  /** What was exported is read back, however the stream is cut, if it keeps to the limits. */
  lemma ExportReadsBack(documents: seq<bytes>, fs: seq<Fragment>, limits: Limits, accept: Accept, r: BulkResult)
    requires documents != [] && forall i :: 0 <= i < |documents| ==> Storable(documents[i], limits.line, accept)
    requires |Framed(documents)| <= limits.total && |documents| <= limits.documents
    requires WellCut(fs) && Stream(fs) == Framed(documents) && ReadsExactly(Stream(fs), fs, limits, accept, r)
    ensures r == Documents(documents)
  {
    FramedLines(documents, limits.line, accept);
    var lines := AsLines(documents);
    forall i | 0 <= i < |lines| ensures Fine(lines[i], limits.line, accept) && Content(lines[i]) == documents[i] {
      assert Storable(documents[i], limits.line, accept);
      NoTrim(lines[i], documents[i]);
    }
    AnyCut(fs, limits, accept, r);
    assert r.documents == documents;
  }

  const BUFFER_SIZE: nat := 32768

  /** A response body behind a `bufio.Writer`, flushed whenever enough is pending. */
  class BulkStream {
    var sent: bytes
    var buffered: bytes
    var pending: nat
    var started: bool

    ghost predicate Valid()
      reads this
    {
      |buffered| <= pending < BUFFER_SIZE && (!started ==> sent == [] && buffered == [])
    }

    /** Everything written so far. */
    ghost function Output(): bytes
      reads this
    {
      sent + buffered
    }

    constructor ()
      ensures Valid() && Output() == [] && !started
    {
      sent, buffered, pending, started := [], [], 0, false;
    }

    /** `bufio.Writer.Write`: fills the buffer and sends it while there is more than fits; with an empty buffer, sends directly. */
    method Put(data: bytes)
      requires |buffered| <= BUFFER_SIZE
      modifies this`sent, this`buffered
      ensures Output() == old(Output()) + data
      ensures |buffered| <= BUFFER_SIZE && |buffered| <= |old(buffered)| + |data|
    {
      var rest := data;
      while |rest| > BUFFER_SIZE - |buffered|
        invariant |buffered| <= BUFFER_SIZE && |buffered| + |rest| <= |old(buffered)| + |data|
        invariant sent + buffered + rest == old(sent + buffered) + data
        decreases |rest|, |buffered|
      {
        if |buffered| == 0 {
          sent, rest := sent + rest, [];
        } else {
          var n := BUFFER_SIZE - |buffered|;
          assert rest == rest[..n] + rest[n..];
          sent, buffered, rest := sent + (buffered + rest[..n]), [], rest[n..];
        }
      }
      buffered := buffered + rest;
    }

    /** `bufio.Writer.WriteByte` */
    method PutByte(b: byte)
      requires |buffered| <= BUFFER_SIZE
      modifies this`sent, this`buffered
      ensures Output() == old(Output()) + [b]
      ensures |buffered| <= BUFFER_SIZE && |buffered| <= |old(buffered)| + 1
    {
      if |buffered| >= BUFFER_SIZE {
        sent, buffered := sent + buffered, [];
      }
      buffered := buffered + [b];
    }

    method Write(document: bytes)
      requires Valid()
      modifies this
      ensures Valid() && started && Output() == old(Output()) + (document + [LF])
    {
      started := true;
      Put(document);
      PutByte(LF);
      pending := pending + |document| + 1;
      if pending >= BUFFER_SIZE {
        Flush();
      }
    }

    method Flush()
      modifies this`sent, this`buffered, this`pending
      ensures sent == Output() == old(Output()) && buffered == [] && pending == 0
    {
      sent, buffered, pending := sent + buffered, [], 0;
    }
  }

  /** Exporting documents one after the other. */
  method Export(documents: seq<bytes>) returns (body: bytes)
    ensures body == Framed(documents)
  {
    var stream := new BulkStream();
    var i := 0;
    while i < |documents|
      invariant 0 <= i <= |documents| && stream.Valid() && stream.Output() == Framed(documents[..i]) && fresh(stream)
    {
      assert documents[..i + 1][..i] == documents[..i];
      stream.Write(documents[i]);
      i := i + 1;
    }
    assert documents[..i] == documents;
    stream.Flush();
    body := stream.sent;
  }
}

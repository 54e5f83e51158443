/**
 JSONPath queries as lists of segments, after parsing. Name selectors have the meaning section 2.3.1 of RFC 9535
 gives them; what other selectors and descendant segments select is left open.
 */
module JsonPath {
  import opened Bytes
  import opened Sizes
  import opened Json
  import opened Bounds
  import opened QueryNodes
  import Pointer
  import V = IndexValue

  datatype Selector = Name(name: bytes) | Index(index: int) | Other(pick: Json -> seq<Json>)

  datatype Segment = Children(selectors: seq<Selector>) | Descendants(selectors: seq<Selector>, visit: Json -> seq<Json>)

  type Path = seq<Segment>

  /** A name selects the member of an object and nothing from anything else. */
  function PickName(name: bytes, value: Json): seq<Json> {
    if value.Obj? && name in value.fields then [value.fields[name]] else []
  }

  /** An index selects an element of an array; a negative one counts from the end. */
  function PickIndex(index: int, value: Json): seq<Json> {
    if !value.Arr? then []
    else
      var i := if index < 0 then |value.items| + index else index;
      if 0 <= i < |value.items| then [value.items[i]] else []
  }

  function Pick(selector: Selector, value: Json): seq<Json> {
    match selector
    case Name(name) => PickName(name, value)
    case Index(index) => PickIndex(index, value)
    case Other(pick) => pick(value)
  }

  function PickAll(selectors: seq<Selector>, value: Json): seq<Json> {
    if selectors == [] then [] else Pick(selectors[0], value) + PickAll(selectors[1..], value)
  }

  function Visit(segment: Segment, value: Json): seq<Json> {
    match segment
    case Children(selectors) => PickAll(selectors, value)
    case Descendants(_, visit) => visit(value)
  }

  function VisitAll(segment: Segment, values: seq<Json>): seq<Json> {
    if values == [] then [] else Visit(segment, values[0]) + VisitAll(segment, values[1..])
  }

  /** The nodes selected, starting from all of `values`. */
  function SelectFrom(values: seq<Json>, path: Path): seq<Json>
    decreases |path|
  {
    if path == [] then values else SelectFrom(VisitAll(path[0], values), path[1..])
  }

  function Select(path: Path, root: Json): seq<Json> {
    SelectFrom([root], path)
  }

  lemma {:induction false} VisitEach(segment: Segment, values: seq<Json>, v: Json)
    ensures v in VisitAll(segment, values) <==> exists u :: u in values && v in Visit(segment, u)
    decreases |values|
  {
    if values != [] {
      VisitEach(segment, values[1..], v);
      assert values == [values[0]] + values[1..];
    }
  }

  lemma {:induction false} PickEach(selectors: seq<Selector>, value: Json, v: Json)
    ensures v in PickAll(selectors, value) <==> exists s :: s in selectors && v in Pick(s, value)
    decreases |selectors|
  {
    if selectors != [] {
      PickEach(selectors[1..], value, v);
      assert selectors == [selectors[0]] + selectors[1..];
    }
  }

  lemma {:induction false} SelectFromLast(values: seq<Json>, path: Path, segment: Segment)
    ensures SelectFrom(values, path + [segment]) == VisitAll(segment, SelectFrom(values, path))
    decreases |path|
  {
    var longer := path + [segment];
    if path == [] {
      assert longer[1..] == [];
    } else {
      assert longer[1..] == path[1..] + [segment];
      SelectFromLast(VisitAll(path[0], values), path[1..], segment);
    }
  }

  /** A segment more selects, in every value selected so far, what any of its selectors picks. */
  lemma SelectsMore(path: Path, selectors: seq<Selector>, root: Json, v: Json)
    ensures v in Select(path + [Children(selectors)], root) <==>
            exists u, s :: u in Select(path, root) && s in selectors && v in Pick(s, u)
  {
    SelectFromLast([root], path, Children(selectors));
    VisitEach(Children(selectors), Select(path, root), v);
    forall u ensures v in Visit(Children(selectors), u) <==> exists s :: s in selectors && v in Pick(s, u) {
      PickEach(selectors, u, v);
    }
  }

  /** A negative index counts from the end, where -1 is the last element. */
  lemma PickFromEnd(items: seq<Json>, k: int)
    requires k > 0
    ensures Pick(Index(-k), Arr(items)) == if k <= |items| then Pick(Index(|items| - k), Arr(items)) else []
  {
  }

  // ---------------------------------------------------------------------------
  // Paths that are pointers

  /** A segment that names one member, by a name that no array takes for an index. */
  predicate PlainName(segment: Segment) {
    && segment.Children? && |segment.selectors| == 1 && segment.selectors[0].Name?
    && Pointer.CanonicalIndex(segment.selectors[0].name).None?
  }

  predicate Plain(path: Path) {
    forall i :: 0 <= i < |path| ==> PlainName(path[i])
  }

  function NamesOf(path: Path): (names: seq<bytes>)
    requires Plain(path)
    ensures |names| == |path| && forall i :: 0 <= i < |path| ==> names[i] == path[i].selectors[0].name
  {
    seq(|path|, i requires 0 <= i < |path| => path[i].selectors[0].name)
  }

  lemma {:induction false} FromNamesAppend(names: seq<bytes>, name: bytes)
    ensures Pointer.FromNames(names + [name]) == Pointer.FromNames(names) + [Pointer.SLASH] + Pointer.Escape(name)
    decreases |names|
  {
    if names == [] {
      assert names + [name] == [name] && [name][1..] == [];
    } else {
      assert (names + [name])[1..] == names[1..] + [name];
      FromNamesAppend(names[1..], name);
    }
  }

  lemma NamesNext(path: Path, i: nat)
    requires i < |path| && Plain(path[..i]) && PlainName(path[i])
    ensures Plain(path[..i + 1]) && NamesOf(path[..i + 1]) == NamesOf(path[..i]) + [path[i].selectors[0].name]
  {
    var next := path[..i + 1];
    forall j | 0 <= j < |next| ensures PlainName(next[j]) {
      if j < i { assert path[..i][j] == next[j]; }
    }
  }

  /** `jsonPathPointer`: the pointer of a path that is one, built name by name. */
  method PathPointer(path: Path) returns (pointer: Option<bytes>)
    ensures pointer.Some? <==> path != [] && Plain(path)
    ensures pointer.Some? ==> pointer.value == Pointer.FromNames(NamesOf(path)) && pointer.value != []
  {
    var built: bytes := [];
    var i := 0;
    while i < |path|
      invariant 0 <= i <= |path| && Plain(path[..i]) && built == Pointer.FromNames(NamesOf(path[..i]))
    {
      var segment := path[i];
      if segment.Descendants? || |segment.selectors| != 1 {
        return None;
      }
      if !segment.selectors[0].Name? {
        return None;
      }
      var name := segment.selectors[0].name;
      var index := Pointer.Atoi(name);
      if index.Some? && index.value >= 0 && Pointer.Itoa(index.value) == name {
        return None;
      }
      NamesNext(path, i);
      FromNamesAppend(NamesOf(path[..i]), name);
      built := built + [Pointer.SLASH] + Pointer.Escape(name);
      i := i + 1;
    }
    assert path[..i] == path;
    if path != [] { Pointer.NamesRoundTrip(NamesOf(path)); }
    return if built == [] then None else Some(built);
  }

  function AsList(value: Option<Json>): seq<Json> {
    if value.Some? then [value.value] else []
  }

  /** A segment that asks for one member or for one element, counted from the front. */
  predicate Single(segment: Segment) {
    && segment.Children? && |segment.selectors| == 1
    && (segment.selectors[0].Name? || (segment.selectors[0].Index? && 0 <= segment.selectors[0].index <= MAX_INT))
  }

  predicate AllSingle(path: Path) {
    forall i :: 0 <= i < |path| ==> Single(path[i])
  }

  /** The pointer token for a name or an index. */
  function TokenOf(segment: Segment): bytes
    requires Single(segment)
  {
    match segment.selectors[0]
    case Name(name) => name
    case Index(index) => Pointer.Itoa(index)
    case Other(_) => []
  }

  function TokensOf(path: Path): (names: seq<bytes>)
    requires AllSingle(path)
    ensures |names| == |path| && forall i :: 0 <= i < |path| ==> names[i] == TokenOf(path[i])
  {
    seq(|path|, i requires 0 <= i < |path| => TokenOf(path[i]))
  }

  /**
   The container is of the kind asked for, as far as it matters: no array has an element under the text of the name,
   and no object a member under the text of the index.
   */
  predicate KindFits(segment: Segment, value: Json)
    requires Single(segment)
  {
    match segment.selectors[0]
    case Name(name) => value.Arr? ==> forall n :: 0 <= n < |value.items| && n <= MAX_INT ==> name != Pointer.Itoa(n)
    case Index(index) => value.Obj? ==> Pointer.Itoa(index) !in value.fields
    case Other(_) => false
  }

  /** It fits at every step the pointer takes. */
  predicate Fits(path: Path, value: Json)
    requires AllSingle(path)
    decreases |path|
  {
    path == []
    || (KindFits(path[0], value)
        && (SingleTail(path);
            var next := Pointer.Child(value, TokenOf(path[0])); next.Some? ==> Fits(path[1..], next.value)))
  }

  lemma SingleTail(path: Path)
    requires path != [] && AllSingle(path)
    ensures AllSingle(path[1..]) && TokensOf(path)[1..] == TokensOf(path[1..]) && TokensOf(path)[0] == TokenOf(path[0])
  {
    var rest := path[1..];
    forall j | 0 <= j < |rest| ensures Single(rest[j]) {
      assert rest[j] == path[j + 1];
    }
  }

  lemma SingleVisit(segment: Segment, value: Json)
    requires Single(segment)
    ensures VisitAll(segment, [value]) == Pick(segment.selectors[0], value)
  {
    assert segment.selectors[1..] == [] && [value][1..] == [];
    assert VisitAll(segment, [value]) == Visit(segment, value) + VisitAll(segment, []);
    assert PickAll(segment.selectors, value) == Pick(segment.selectors[0], value) + PickAll([], value);
  }

  /** A name or an index selects what its token selects, or nothing where the token selects something of the other kind. */
  lemma SingleStep(segment: Segment, value: Json)
    requires Single(segment)
    ensures VisitAll(segment, [value]) ==
            if KindFits(segment, value) then AsList(Pointer.Child(value, TokenOf(segment))) else []
    ensures !KindFits(segment, value) ==> Pointer.Child(value, TokenOf(segment)).Some?
  {
    SingleVisit(segment, value);
    var name := TokenOf(segment);
    if value.Arr? {
      forall n: nat ensures Pointer.CanonicalIndex(name) == Some(n) <==> n <= MAX_INT && name == Pointer.Itoa(n) {
        Pointer.CanonicalExact(name, n);
      }
    }
  }

  lemma {:induction false} SelectFromNothing(path: Path)
    ensures SelectFrom([], path) == []
    decreases |path|
  {
    if path != [] { SelectFromNothing(path[1..]); }
  }

  /**
   A path of names and indices selects what the corresponding pointer selects, if at each step the container is of the kind
   asked for. Otherwise it selects nothing, so it agrees with the pointer exactly if that selects nothing either.
   */
  lemma {:induction false} SingleSelects(path: Path, value: Json)
    requires AllSingle(path)
    ensures Fits(path, value) ==> SelectFrom([value], path) == AsList(Pointer.Walk(value, TokensOf(path)))
    ensures !Fits(path, value) ==> SelectFrom([value], path) == []
    decreases |path|
  {
    if path != [] {
      SingleStep(path[0], value);
      SingleTail(path);
      var next := Pointer.Child(value, TokenOf(path[0]));
      if KindFits(path[0], value) && next.Some? {
        SingleSelects(path[1..], next.value);
      } else {
        SelectFromNothing(path[1..]);
      }
    }
  }

  lemma SingleIsPointer(path: Path, root: Json)
    requires path != [] && AllSingle(path)
    ensures Pointer.FromNames(TokensOf(path)) != []
    ensures Fits(path, root) ==> Select(path, root) == AsList(Pointer.Select(root, Pointer.FromNames(TokensOf(path))))
    ensures !Fits(path, root) ==> Select(path, root) == []
  {
    SingleSelects(path, root);
    Pointer.NamesRoundTrip(TokensOf(path));
  }

  /** A plain path is one of names that fits every document. */
  lemma {:induction false} PlainFits(path: Path, value: Json)
    requires Plain(path)
    ensures AllSingle(path) && TokensOf(path) == NamesOf(path) && Fits(path, value)
    decreases |path|
  {
    if path != [] {
      PlainTail(path);
      var name := path[0].selectors[0].name;
      forall n: nat | n <= MAX_INT ensures name != Pointer.Itoa(n) {
        Pointer.CanonicalExact(name, n);
      }
      assert AllSingle(path);
      var next := Pointer.Child(value, name);
      if next.Some? { PlainFits(path[1..], next.value); }
    }
  }

  lemma PlainTail(path: Path)
    requires path != [] && Plain(path)
    ensures Plain(path[1..]) && NamesOf(path)[1..] == NamesOf(path[1..]) && NamesOf(path)[0] == path[0].selectors[0].name
  {
    var rest := path[1..];
    forall j | 0 <= j < |rest| ensures PlainName(rest[j]) {
      assert rest[j] == path[j + 1];
    }
  }

  /** ... that is, what its pointer selects. */
  lemma PathIsPointer(path: Path, root: Json)
    requires path != [] && Plain(path)
    ensures Pointer.FromNames(NamesOf(path)) != []
    ensures Select(path, root) == AsList(Pointer.Select(root, Pointer.FromNames(NamesOf(path))))
  {
    PlainFits(path, root);
    SingleIsPointer(path, root);
  }

  // ---------------------------------------------------------------------------
  // Matching

  const MAX_QUERY_NODES: nat := 1_000_000

  /** A selected value of the right type that compares as asked. */
  predicate Agrees(value: Json, op: CmpOp, expected: bytes) {
    && V.Encode(value).Value? && expected != []
    && V.Encode(value).bytes != [] && V.Encode(value).bytes[0] == expected[0]
    && Compare(op, V.Encode(value).bytes, expected)
  }

  predicate Matches(path: Path, root: Json, op: CmpOp, expected: bytes) {
    exists i :: 0 <= i < |Select(path, root)| && Agrees(Select(path, root)[i], op, expected)
  }

  /** A selected value agrees exactly if, as a scalar, it compares as asked with the one whose encoding is given. */
  lemma AgreesMeans(value: Json, op: CmpOp, y: Json)
    requires V.Encode(y).Value? && (op == Eq || y.Number? || y.Str?)
    ensures Agrees(value, op, V.Encode(y).bytes) <==> V.Encode(value).Value? && ScalarCompare(op, value, y)
  {
    V.EncodedValid(y);
    if V.Encode(value).Value? {
      V.EncodedValid(value);
      CompareMeans(op, value, y);
    }
  }

  /** Some value the path selects can be indexed and compares as asked. */
  lemma MatchesMeans(path: Path, root: Json, op: CmpOp, y: Json)
    requires V.Encode(y).Value? && (op == Eq || y.Number? || y.Str?)
    ensures Matches(path, root, op, V.Encode(y).bytes) <==>
            exists v :: v in Select(path, root) && V.Encode(v).Value? && ScalarCompare(op, v, y)
  {
    var values := Select(path, root);
    forall v ensures Agrees(v, op, V.Encode(y).bytes) <==> Compares(v, op, y) {
      AgreesMeans(v, op, y);
    }
    SomeOf(values, (v: Json) => Agrees(v, op, V.Encode(y).bytes));
  }

  /** The value can be indexed and compares as asked. */
  predicate Compares(value: Json, op: CmpOp, y: Json) {
    V.Encode(value).Value? && ScalarCompare(op, value, y)
  }

  lemma SomeOf(values: seq<Json>, good: Json -> bool)
    ensures (exists i :: 0 <= i < |values| && good(values[i])) <==> exists v :: v in values && good(v)
  {
    if i :| 0 <= i < |values| && good(values[i]) { assert values[i] in values; }
  }

  /** `pathMatches`: the first selected value that agrees, if the document is not too large. */
  method PathMatches(path: Path, root: Json, op: CmpOp, expected: bytes, maxNodes: nat) returns (r: Option<bool>)
    requires expected != []
    ensures r.None? <==> Size(root) > maxNodes
    ensures r.Some? ==> (r.value <==> Matches(path, root, op, expected))
    ensures r.Some? ==> forall y :: V.Encode(y) == V.Value(expected) && (op == Eq || y.Number? || y.Str?) ==>
                                      (r.value <==> exists v :: v in Select(path, root) && V.Encode(v).Value? && ScalarCompare(op, v, y))
  {
    var small := CheckQueryNodes(root, maxNodes);
    if !small {
      return None;
    }
    var matches := AnyAgrees(Select(path, root), op, expected);
    forall y | V.Encode(y) == V.Value(expected) && (op == Eq || y.Number? || y.Str?)
      ensures Matches(path, root, op, expected) <==> exists v :: v in Select(path, root) && V.Encode(v).Value? && ScalarCompare(op, v, y)
    {
      MatchesMeans(path, root, op, y);
    }
    return Some(matches);
  }

  method AnyAgrees(values: seq<Json>, op: CmpOp, expected: bytes) returns (any: bool)
    requires expected != []
    ensures any <==> exists i :: 0 <= i < |values| && Agrees(values[i], op, expected)
  {
    var i := 0;
    while i < |values|
      invariant 0 <= i <= |values|
      invariant forall j :: 0 <= j < i ==> !Agrees(values[j], op, expected)
    {
      var agrees := ValueAgrees(values[i], op, expected);
      if agrees {
        return true;
      }
      i := i + 1;
    }
    return false;
  }

  /** The comparison of one value: its order decides, between values of one type. */
  method ValueAgrees(value: Json, op: CmpOp, expected: bytes) returns (agrees: bool)
    requires expected != []
    ensures agrees <==> Agrees(value, op, expected)
  {
    var actual := V.Encode(value);
    if actual.Failed? {
      return false;
    }
    V.EncodedValid(value);
    agrees := ByOrder(actual.bytes, op, expected);
  }

  /** The order of two encodings decides, if they have one tag. */
  method ByOrder(actual: bytes, op: CmpOp, expected: bytes) returns (agrees: bool)
    requires actual != [] && expected != []
    ensures agrees <==> actual[0] == expected[0] && Compare(op, actual, expected)
  {
    if actual[0] != expected[0] {
      return false;
    }
    var less, more := Less(actual, expected), Less(expected, actual);
    OrderDecides(actual, expected);
    return (op == Eq && !less && !more) || (op == Lt && less) || (op == Le && !more) || (op == Gt && more) || (op == Ge && !less);
  }

  lemma OrderDecides(v: bytes, w: bytes)
    ensures v == w <==> !Less(v, w) && !Less(w, v)
  {
    LessTotal(v, w);
    LessIrreflexive(v);
  }
}

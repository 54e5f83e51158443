/**
 JSON Pointer (RFC 6901): the text form, the list of names it stands for, and the value it
 points to.
 */
module Pointer {
  import opened Sizes
  import opened Bytes
  import opened Digits
  import opened Json
  import Utf8

  const SLASH: byte := 0x2f
  const TILDE: byte := 0x7e
  const ZERO: byte := 0x30
  const ONE: byte := 0x31
  const MAX_INDEX_PATH: nat := 256

  /** Every tilde is followed by 0 or 1. */
  predicate Escaped(s: bytes) {
    if s == [] then true
    else if s[0] != TILDE then Escaped(s[1..])
    else |s| >= 2 && (s[1] == ZERO || s[1] == ONE) && Escaped(s[2..])
  }

  predicate Valid(path: bytes) {
    0 < |path| <= MAX_INDEX_PATH && path[0] == SLASH && Utf8.Valid(path) && Escaped(path)
  }

  method ValidatePointer(path: bytes) returns (ok: bool)
    ensures ok <==> Valid(path)
  {
    if |path| == 0 || |path| > MAX_INDEX_PATH || path[0] != SLASH || !Utf8.Valid(path) {
      return false;
    }
    var i := 0;
    assert path[0..] == path;
    while i < |path|
      invariant 0 <= i <= |path|
      invariant Escaped(path) <==> Escaped(path[i..])
    {
      assert path[i..][1..] == path[i + 1..];
      if path[i] != TILDE {
        i := i + 1;
      } else if i + 1 == |path| || (path[i + 1] != ZERO && path[i + 1] != ONE) {
        return false;
      } else {
        assert path[i..][2..] == path[i + 2..];
        i := i + 2;
      }
    }
    return true;
  }

  // ---------------------------------------------------------------------------
  // Text and names

  /** `strings.Split(s, "/")` */
  function SplitSlash(s: bytes): (parts: seq<bytes>)
    ensures parts != []
  {
    if s == [] then [[]]
    else if s[0] == SLASH then [[]] + SplitSlash(s[1..])
    else
      var parts := SplitSlash(s[1..]);
      [[s[0]] + parts[0]] + parts[1..]
  }

  /** `strings.ReplaceAll` of a tilde followed by `code`. */
  function Replace(s: bytes, code: byte, sub: byte): bytes {
    if s == [] then []
    else if |s| >= 2 && s[0] == TILDE && s[1] == code then [sub] + Replace(s[2..], code, sub)
    else [s[0]] + Replace(s[1..], code, sub)
  }

  /** The decoding of a token in two passes, as `pointerValue` does it. */
  function DecodeToken(token: bytes): bytes {
    Replace(Replace(token, ONE, SLASH), ZERO, TILDE)
  }

  /** The decoding of a token from left to right, as section 4 of RFC 6901 asks for. */
  function Unescape(token: bytes): bytes {
    if token == [] then []
    else if |token| >= 2 && token[0] == TILDE && token[1] == ONE then [SLASH] + Unescape(token[2..])
    else if |token| >= 2 && token[0] == TILDE && token[1] == ZERO then [TILDE] + Unescape(token[2..])
    else [token[0]] + Unescape(token[1..])
  }

  /** The two passes do not disturb one another. */
  lemma {:induction false} TwoPassesAgree(token: bytes)
    requires Escaped(token)
    ensures DecodeToken(token) == Unescape(token)
    decreases |token|
  {
    if token != [] {
      if token[0] != TILDE {
        TwoPassesAgree(token[1..]);
        KeepHead(token[0], Replace(token[1..], ONE, SLASH));
      } else if token[1] == ONE {
        TwoPassesAgree(token[2..]);
        KeepHead(SLASH, Replace(token[2..], ONE, SLASH));
      } else {
        TwoPassesAgree(token[2..]);
        var rest := Replace(token[2..], ONE, SLASH);
        assert token[1..][1..] == token[2..];
        assert Replace(token[1..], ONE, SLASH) == [ZERO] + rest;
        assert Replace(token, ONE, SLASH) == [TILDE] + ([ZERO] + rest);
        assert ([TILDE] + ([ZERO] + rest))[2..] == rest;
      }
    }
  }

  lemma KeepHead(c: byte, rest: bytes)
    requires c != TILDE
    ensures Replace([c] + rest, ZERO, TILDE) == [c] + Replace(rest, ZERO, TILDE)
  {
    assert ([c] + rest)[1..] == rest;
  }

  function EscapeTildes(name: bytes): bytes {
    if name == [] then [] else (if name[0] == TILDE then [TILDE, ZERO] else [name[0]]) + EscapeTildes(name[1..])
  }

  function EscapeSlashes(name: bytes): bytes {
    if name == [] then [] else (if name[0] == SLASH then [TILDE, ONE] else [name[0]]) + EscapeSlashes(name[1..])
  }

  /** The two replacements `jsonPathPointer` makes. */
  function Escape(name: bytes): bytes {
    EscapeSlashes(EscapeTildes(name))
  }

  function EscapeByte(b: byte): bytes {
    if b == TILDE then [TILDE, ZERO] else if b == SLASH then [TILDE, ONE] else [b]
  }

  lemma {:induction false} SlashesConcat(a: bytes, b: bytes)
    ensures EscapeSlashes(a + b) == EscapeSlashes(a) + EscapeSlashes(b)
    decreases |a|
  {
    if a == [] {
      assert a + b == b;
    } else {
      assert (a + b)[1..] == a[1..] + b;
      SlashesConcat(a[1..], b);
    }
  }

  lemma EscapeHead(name: bytes)
    requires name != []
    ensures Escape(name) == EscapeByte(name[0]) + Escape(name[1..])
  {
    var head := if name[0] == TILDE then [TILDE, ZERO] else [name[0]];
    SlashesConcat(head, EscapeTildes(name[1..]));
    assert EscapeSlashes(head) == EscapeByte(name[0]) by {
      if name[0] == TILDE {
        assert head[1..] == [ZERO] && [ZERO][1..] == [];
        assert EscapeSlashes([ZERO]) == [ZERO];
      } else {
        assert head[1..] == [];
      }
    }
  }

  /** An escaped name is well formed, has no slash, and decodes to the name. */
  lemma {:induction false} UnescapeEscape(name: bytes)
    ensures Escaped(Escape(name)) && SLASH !in Escape(name) && Unescape(Escape(name)) == name
  {
    if name != [] {
      EscapeHead(name);
      UnescapeEscape(name[1..]);
      var e, rest := Escape(name), Escape(name[1..]);
      assert e[|EscapeByte(name[0])|..] == rest;
      assert name == [name[0]] + name[1..];
    }
  }

  lemma {:induction false} EscapeUnescape(token: bytes)
    requires Escaped(token) && SLASH !in token
    ensures Escape(Unescape(token)) == token
    decreases |token|
  {
    if token != [] {
      var n := if token[0] == TILDE then 2 else 1;
      var c := if token[0] != TILDE then token[0] else if token[1] == ONE then SLASH else TILDE;
      assert Unescape(token) == [c] + Unescape(token[n..]);
      EscapeUnescape(token[n..]);
      EscapeHead(Unescape(token));
      assert Unescape(token)[1..] == Unescape(token[n..]);
      assert token == token[..n] + token[n..];
      assert EscapeByte(c) == token[..n];
    }
  }

  /** The pointer made from a list of names. */
  function FromNames(names: seq<bytes>): bytes {
    if names == [] then [] else [SLASH] + Escape(names[0]) + FromNames(names[1..])
  }

  /** The names a pointer stands for. */
  function ToNames(path: bytes): (names: seq<bytes>)
    requires path != []
  {
    DecodeAll(SplitSlash(path[1..]))
  }

  function DecodeAll(tokens: seq<bytes>): (names: seq<bytes>)
    ensures |names| == |tokens|
  {
    if tokens == [] then [] else [DecodeToken(tokens[0])] + DecodeAll(tokens[1..])
  }

  lemma {:induction false} SplitPlain(token: bytes, rest: bytes)
    requires SLASH !in token && (rest == [] || rest[0] == SLASH)
    ensures SplitSlash(token + rest) == [token] + (if rest == [] then [] else SplitSlash(rest[1..]))
    decreases |token|
  {
    if token == [] {
      assert token + rest == rest;
    } else {
      assert (token + rest)[1..] == token[1..] + rest;
      SplitPlain(token[1..], rest);
      var parts := SplitSlash(token[1..] + rest);
      assert token == [token[0]] + token[1..];
      assert parts[0] == token[1..];
      assert parts[1..] == if rest == [] then [] else SplitSlash(rest[1..]);
    }
  }

  /** Escaping a list of names, then splitting and decoding, gives the list back. */
  lemma {:induction false} NamesRoundTrip(names: seq<bytes>)
    requires names != []
    ensures FromNames(names) != [] && ToNames(FromNames(names)) == names
    decreases |names|
  {
    var path, token, rest := FromNames(names), Escape(names[0]), FromNames(names[1..]);
    UnescapeEscape(names[0]);
    TwoPassesAgree(token);
    assert path[1..] == token + rest;
    SplitPlain(token, rest);
    if names[1..] != [] {
      NamesRoundTrip(names[1..]);
      DecodeFront(token, SplitSlash(rest[1..]));
    } else {
      DecodeFront(token, []);
      assert [token] + [] == [token];
    }
    assert names == [names[0]] + names[1..];
  }

  lemma DecodeFront(token: bytes, tokens: seq<bytes>)
    ensures DecodeAll([token] + tokens) == [DecodeToken(token)] + DecodeAll(tokens)
  {
    assert ([token] + tokens)[1..] == tokens;
  }

  /** The tokens of an escaped text are escaped, contain no slash, and joined again give the text. */
  lemma {:induction false} PathFromTokens(s: bytes)
    requires Escaped(s)
    ensures FromNames(DecodeAll(SplitSlash(s))) == [SLASH] + s
    decreases |s|
  {
    var token, rest := FirstToken(s);
    JoinFirst(token, rest);
    if rest != [] {
      PathFromTokens(rest[1..]);
      assert [SLASH] + rest[1..] == rest;
    }
  }

  lemma JoinFirst(token: bytes, rest: bytes)
    requires Escaped(token) && SLASH !in token && (rest == [] || rest[0] == SLASH)
    ensures FromNames(DecodeAll(SplitSlash(token + rest))) ==
            [SLASH] + (token + if rest == [] then [] else FromNames(DecodeAll(SplitSlash(rest[1..]))))
  {
    SplitPlain(token, rest);
    TwoPassesAgree(token);
    EscapeUnescape(token);
    FromFront(token, if rest == [] then [] else SplitSlash(rest[1..]));
  }

  lemma FromFront(token: bytes, tokens: seq<bytes>)
    ensures FromNames(DecodeAll([token] + tokens)) == [SLASH] + (Escape(DecodeToken(token)) + FromNames(DecodeAll(tokens)))
  {
    DecodeFront(token, tokens);
    var names := [DecodeToken(token)] + DecodeAll(tokens);
    assert names[1..] == DecodeAll(tokens);
  }

  lemma {:induction false} FirstToken(s: bytes) returns (token: bytes, rest: bytes)
    requires Escaped(s)
    ensures s == token + rest && Escaped(token) && SLASH !in token
    ensures rest == [] || (rest[0] == SLASH && Escaped(rest[1..]))
    decreases |s|
  {
    if s == [] {
      token, rest := [], [];
    } else if s[0] == SLASH {
      token, rest := [], s;
    } else {
      var n := if s[0] == TILDE then 2 else 1;
      token, rest := FirstToken(s[n..]);
      assert s == s[..n] + s[n..];
      assert (s[..n] + token)[n..] == token;
      token := s[..n] + token;
    }
  }

  /** Decoding a valid pointer and escaping the names gives the pointer back. */
  lemma PathRoundTrip(path: bytes)
    requires Valid(path)
    ensures FromNames(ToNames(path)) == path
  {
    PathFromTokens(path[1..]);
    assert path == [SLASH] + path[1..];
  }

  /** Text and lists of names correspond one to one. */
  lemma PointersOneToOne(p: bytes, q: bytes)
    requires Valid(p) && Valid(q)
    ensures p == q <==> ToNames(p) == ToNames(q)
  {
    PathRoundTrip(p);
    PathRoundTrip(q);
  }

  // ---------------------------------------------------------------------------
  // Which texts are pointers

  lemma {:induction false} EscapedConcat(a: bytes, b: bytes)
    requires Escaped(a) && Escaped(b)
    ensures Escaped(a + b)
    decreases |a|
  {
    if a == [] {
      assert a + b == b;
    } else {
      var n := if a[0] == TILDE then 2 else 1;
      EscapedConcat(a[n..], b);
      assert (a + b)[n..] == a[n..] + b;
    }
  }

  lemma {:induction false} FromNamesEscaped(names: seq<bytes>)
    ensures Escaped(FromNames(names)) && (names != [] ==> FromNames(names) != [] && FromNames(names)[0] == SLASH)
  {
    if names != [] {
      FromNamesEscaped(names[1..]);
      UnescapeEscape(names[0]);
      SlashFront(Escape(names[0]), FromNames(names[1..]));
    }
  }

  lemma SlashFront(token: bytes, rest: bytes)
    requires Escaped(token) && Escaped(rest)
    ensures Escaped([SLASH] + token + rest) && ([SLASH] + token + rest)[0] == SLASH
  {
    EscapedConcat(token, rest);
    assert ([SLASH] + token + rest)[1..] == token + rest;
  }

  /** Bytes that are not ASCII are not escaped. */
  lemma {:induction false} HighFront(name: bytes, m: nat)
    requires m <= |Escape(name)| && forall i :: 0 <= i < m ==> Escape(name)[i] >= 0x80
    ensures m <= |name| && name[..m] == Escape(name)[..m]
    decreases m
  {
    if m > 0 {
      assert name != [];
      EscapeHead(name);
      var rest := Escape(name[1..]);
      assert Escape(name)[0] == EscapeByte(name[0])[0];
      assert EscapeByte(name[0]) == [name[0]];
      assert forall i :: 0 <= i < m - 1 ==> rest[i] == Escape(name)[i + 1];
      HighFront(name[1..], m - 1);
      assert name[..m] == [name[0]] + name[1..][..m - 1] && Escape(name)[..m] == [name[0]] + rest[..m - 1];
    }
  }

  lemma {:induction false} HighKept(name: bytes, n: nat)
    requires n <= |name| && forall i :: 0 <= i < n ==> name[i] >= 0x80
    ensures Escape(name) == name[..n] + Escape(name[n..])
    decreases n
  {
    if n > 0 {
      EscapeHead(name);
      HighKept(name[1..], n - 1);
      Reassociate(name, n, Escape(name[n..]));
    } else {
      assert name[0..] == name && name[..0] == [];
    }
  }

  lemma Reassociate(name: bytes, n: nat, rest: bytes)
    requires 0 < n <= |name|
    ensures name[1..][n - 1..] == name[n..] && [name[0]] + (name[1..][..n - 1] + rest) == name[..n] + rest
  {
  }

  lemma HighCharacter(s: bytes)
    requires s != [] && s[0] >= 0x80 && Utf8.FirstLength(s) > 0
    ensures forall i :: 0 <= i < Utf8.FirstLength(s) ==> s[i] >= 0x80
  {
  }

  /** Escaping keeps well-formed texts well formed, and others as they are. */
  lemma {:induction false} EscapeUtf8(name: bytes)
    ensures Utf8.Valid(Escape(name)) <==> Utf8.Valid(name)
    decreases |name|
  {
    if name != [] {
      EscapeHead(name);
      if name[0] < 0x80 {
        EscapeUtf8(name[1..]);
        EscapeAscii(name[0], Escape(name[1..]));
        Utf8.AsciiFirst(name[0], name[1..]);
        assert name == [name[0]] + name[1..];
      } else {
        EscapeHighUtf8(name);
      }
    }
  }

  lemma EscapeAscii(b: byte, rest: bytes)
    requires b < 0x80
    ensures Utf8.Valid(EscapeByte(b) + rest) <==> Utf8.Valid(rest)
  {
    var e := EscapeByte(b);
    if |e| == 2 {
      Utf8.AsciiFirst(e[1], rest);
      Utf8.AsciiFirst(e[0], [e[1]] + rest);
      assert e + rest == [e[0]] + ([e[1]] + rest);
    } else {
      Utf8.AsciiFirst(b, rest);
    }
  }

  lemma {:induction false} EscapeHighUtf8(name: bytes)
    requires name != [] && name[0] >= 0x80
    ensures Utf8.Valid(Escape(name)) <==> Utf8.Valid(name)
    decreases |name|, 0
  {
    var e := Escape(name);
    EscapeHead(name);
    assert e[0] == name[0];
    if Utf8.FirstLength(e) > 0 {
      HighCharacter(e);
      HighFront(name, Utf8.FirstLength(e));
      Utf8.FirstLocal(e, name);
    }
    var n := Utf8.FirstLength(name);
    if n > 0 {
      HighCharacter(name);
      HighKept(name, n);
      assert e[..n] == name[..n] && e[n..] == Escape(name[n..]);
      Utf8.FirstLocal(name, e);
      EscapeUtf8(name[n..]);
    }
  }

  predicate AllUtf8(names: seq<bytes>) {
    forall i :: 0 <= i < |names| ==> Utf8.Valid(names[i])
  }

  lemma {:induction false} FromNamesUtf8(names: seq<bytes>)
    ensures Utf8.Valid(FromNames(names)) <==> AllUtf8(names)
  {
    if names != [] {
      var rest := FromNames(names[1..]);
      FromNamesUtf8(names[1..]);
      FromNamesEscaped(names[1..]);
      EscapeUtf8(names[0]);
      Utf8.AsciiCuts(Escape(names[0]), rest);
      Utf8.AsciiFirst(SLASH, Escape(names[0]) + rest);
      assert FromNames(names) == [SLASH] + (Escape(names[0]) + rest);
      assert AllUtf8(names) <==> Utf8.Valid(names[0]) && AllUtf8(names[1..]) by {
        assert names == [names[0]] + names[1..];
      }
    }
  }

  /** The accepted texts are exactly those of lists of well-formed names, in at most 256 bytes. */
  lemma ValidExact(path: bytes)
    ensures Valid(path) <==> |path| <= 256 && exists names :: names != [] && AllUtf8(names) && path == FromNames(names)
  {
    if Valid(path) {
      PathRoundTrip(path);
      FromNamesUtf8(ToNames(path));
    }
    forall names | names != [] && AllUtf8(names) && path == FromNames(names) ensures |path| <= 256 ==> Valid(path) {
      FromNamesEscaped(names);
      FromNamesUtf8(names);
    }
  }

  // ---------------------------------------------------------------------------
  // The value a pointer selects

  /** `strconv.Itoa` of a number that is not negative. */
  function Itoa(n: nat): (s: bytes)
    ensures |s| > 0
  {
    Text(Numeral(n))
  }

  function Text(d: seq<int>): (s: bytes)
    requires IsDigits(10, d)
    ensures |s| == |d|
  {
    seq(|d|, i requires 0 <= i < |d| => d[i] + 0x30)
  }

  predicate AllDigits(s: bytes) {
    s != [] && forall i :: 0 <= i < |s| ==> 0x30 <= s[i] <= 0x39
  }

  function DigitValues(s: bytes): (d: seq<int>)
    requires AllDigits(s)
    ensures IsDigits(10, d) && |d| == |s|
  {
    seq(|s|, i requires 0 <= i < |s| => (s[i] as int) - 0x30)
  }

  /** `strconv.Atoi` */
  function Atoi(s: bytes): Option<int> {
    var signed := s != [] && (s[0] == 0x2b || s[0] == 0x2d);
    var digits := if signed then s[1..] else s;
    if !AllDigits(digits) then None
    else
      var magnitude: int := Value(10, DigitValues(digits));
      if signed && s[0] == 0x2d then (if magnitude <= MAX_INT + 1 then Some(-magnitude) else None)
      else if magnitude <= MAX_INT then Some(magnitude) else None
  }

  /** The array index a token denotes: a canonical decimal. */
  function CanonicalIndex(name: bytes): Option<nat> {
    match Atoi(name)
    case None => None
    case Some(i) => if i < 0 || Itoa(i) != name then None else Some(i)
  }

  lemma CanonicalExact(name: bytes, n: nat)
    ensures CanonicalIndex(name) == Some(n) <==> n <= MAX_INT && name == Itoa(n)
  {
    if n <= MAX_INT && name == Itoa(n) {
      assert AllDigits(name);
      assert DigitValues(name) == Numeral(n);
    }
  }

  function Child(value: Json, name: bytes): Option<Json> {
    match value
    case Obj(fields) => if name in fields then Some(fields[name]) else None
    case Arr(items) =>
      (match CanonicalIndex(name)
       case None => None
       case Some(i) => if i < |items| then Some(items[i]) else None)
    case _ => None
  }

  function Walk(value: Json, names: seq<bytes>): Option<Json> {
    if names == [] then Some(value)
    else
      match Child(value, names[0])
      case None => None
      case Some(next) => Walk(next, names[1..])
  }

  /** The value at `path`. */
  function Select(root: Json, path: bytes): Option<Json>
    requires path != []
  {
    Walk(root, ToNames(path))
  }

  /** The loop of `pointerValue` over the tokens. */
  method PointerValue(root: Json, path: bytes) returns (value: Option<Json>)
    requires path != []
    ensures value == Select(root, path)
  {
    var tokens := SplitSlash(path[1..]);
    var current := root;
    var i := 0;
    assert tokens[0..] == tokens;
    while i < |tokens|
      invariant 0 <= i <= |tokens|
      invariant Select(root, path) == Walk(current, DecodeAll(tokens[i..]))
    {
      WalkNext(current, tokens, i);
      var next := Descend(current, DecodeToken(tokens[i]));
      if next.None? {
        return None;
      }
      current := next.value;
      i := i + 1;
    }
    return Some(current);
  }

  lemma WalkNext(value: Json, tokens: seq<bytes>, i: nat)
    requires i < |tokens|
    ensures Walk(value, DecodeAll(tokens[i..])) ==
            match Child(value, DecodeToken(tokens[i])) case None => None case Some(next) => Walk(next, DecodeAll(tokens[i + 1..]))
  {
    assert tokens[i..][1..] == tokens[i + 1..];
    var names := DecodeAll(tokens[i..]);
    assert names[0] == DecodeToken(tokens[i]) && names[1..] == DecodeAll(tokens[i + 1..]);
  }

  /** One step of the loop: into a member of an object or an element of an array. */
  method Descend(value: Json, name: bytes) returns (next: Option<Json>)
    ensures next == Child(value, name)
  {
    match value {
      case Obj(fields) =>
        if name !in fields {
          return None;
        }
        return Some(fields[name]);
      case Arr(items) =>
        var index := ParseIndex(name);
        if index.None? || index.value >= |items| {
          return None;
        }
        return Some(items[index.value]);
      case _ =>
        return None;
    }
  }

  method ParseIndex(name: bytes) returns (index: Option<nat>)
    ensures index == CanonicalIndex(name)
  {
    var i := Atoi(name);
    if i.None? || i.value < 0 || Itoa(i.value) != name {
      return None;
    }
    return Some(i.value);
  }

  // ---------------------------------------------------------------------------
  // What a pointer selects, one token at a time

  /** The text of a number is its decimal digits. */
  lemma ItoaDigits(n: nat)
    ensures Itoa(n) == (if n < 10 then [] else Itoa(n / 10)) + [0x30 + n % 10]
  {
  }

  lemma WalkFirst(value: Json, name: bytes, rest: seq<bytes>)
    ensures Walk(value, [name] + rest) == match Child(value, name) case None => None case Some(next) => Walk(next, rest)
  {
    assert ([name] + rest)[1..] == rest;
  }

  lemma SelectIsWalk(value: Json, names: seq<bytes>)
    requires names != []
    ensures FromNames(names) != [] && Select(value, FromNames(names)) == Walk(value, names)
  {
    NamesRoundTrip(names);
  }

  /** In an object the first name selects the member of that name, and the rest selects inside it. */
  lemma SelectsMember(fields: map<bytes, Json>, name: bytes, rest: seq<bytes>)
    ensures FromNames([name] + rest) != []
    ensures name !in fields ==> Select(Obj(fields), FromNames([name] + rest)).None?
    ensures name in fields && rest == [] ==> Select(Obj(fields), FromNames([name])) == Some(fields[name])
    ensures name in fields && rest != [] ==>
              FromNames(rest) != [] && Select(Obj(fields), FromNames([name] + rest)) == Select(fields[name], FromNames(rest))
  {
    SelectIsWalk(Obj(fields), [name] + rest);
    WalkFirst(Obj(fields), name, rest);
    if rest == [] { assert [name] + rest == [name]; } else if name in fields { SelectIsWalk(fields[name], rest); }
  }

  /** In an array the decimal text of a number selects the element with that number, counted from zero. */
  lemma SelectsElement(items: seq<Json>, n: nat, rest: seq<bytes>)
    requires n <= MAX_INT
    ensures FromNames([Itoa(n)] + rest) != []
    ensures n >= |items| ==> Select(Arr(items), FromNames([Itoa(n)] + rest)).None?
    ensures n < |items| && rest == [] ==> Select(Arr(items), FromNames([Itoa(n)])) == Some(items[n])
    ensures n < |items| && rest != [] ==>
              FromNames(rest) != [] && Select(Arr(items), FromNames([Itoa(n)] + rest)) == Select(items[n], FromNames(rest))
  {
    var name := Itoa(n);
    CanonicalExact(name, n);
    SelectIsWalk(Arr(items), [name] + rest);
    WalkFirst(Arr(items), name, rest);
    if rest == [] { assert [name] + rest == [name]; } else if n < |items| { SelectIsWalk(items[n], rest); }
  }

  /** No other name selects anything in an array, and nothing is selected in a scalar. */
  lemma SelectsNothing(value: Json, name: bytes, rest: seq<bytes>)
    requires value.Arr? ==> forall n: nat :: n <= MAX_INT ==> name != Itoa(n)
    ensures FromNames([name] + rest) != []
    ensures !value.Obj? ==> Select(value, FromNames([name] + rest)).None?
  {
    SelectIsWalk(value, [name] + rest);
    WalkFirst(value, name, rest);
    if value.Arr? && CanonicalIndex(name).Some? { CanonicalExact(name, CanonicalIndex(name).value); }
  }
}

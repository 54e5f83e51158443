/** Well-formed UTF-8, as table 3-7 of the Unicode standard and `utf8.Valid` define it. */
module Utf8 {
  import opened Bytes

  predicate Continuation(b: byte) {
    0x80 <= b <= 0xbf
  }

  /** The length of the well-formed character at the start, zero if there is none. */
  function FirstLength(s: bytes): (n: nat)
    ensures n <= |s|
  {
    if s == [] then 0
    else if s[0] <= 0x7f then 1
    else if |s| >= 2 && 0xc2 <= s[0] <= 0xdf && Continuation(s[1]) then 2
    else if |s| >= 3 && 0xe0 <= s[0] <= 0xef && Continuation(s[1]) && Continuation(s[2])
         && (s[0] == 0xe0 ==> s[1] >= 0xa0) && (s[0] == 0xed ==> s[1] <= 0x9f) then 3
    else if |s| >= 4 && 0xf0 <= s[0] <= 0xf4 && Continuation(s[1]) && Continuation(s[2]) && Continuation(s[3])
         && (s[0] == 0xf0 ==> s[1] >= 0x90) && (s[0] == 0xf4 ==> s[1] <= 0x8f) then 4
    else 0
  }

  predicate Valid(s: bytes)
    decreases |s|
  {
    s == [] || (var n := FirstLength(s); n > 0 && Valid(s[n..]))
  }

  // ---------------------------------------------------------------------------
  // Characters

  /** A Unicode scalar value: any code point but the surrogates. */
  predicate Scalar(c: nat) {
    c <= 0x10_ffff && !(0xd800 <= c <= 0xdfff)
  }

  /** The bytes of a character, six bits to each byte after the first. */
  function Char(c: nat): (s: bytes)
    requires Scalar(c)
    ensures s != []
  {
    if c < 0x80 then [c]
    else if c < 0x800 then [0xc0 + c / 0x40, 0x80 + c % 0x40]
    else if c < 0x1_0000 then [0xe0 + c / 0x1000, 0x80 + c / 0x40 % 0x40, 0x80 + c % 0x40]
    else [0xf0 + c / 0x4_0000, 0x80 + c / 0x1000 % 0x40, 0x80 + c / 0x40 % 0x40, 0x80 + c % 0x40]
  }

  predicate AllScalar(cs: seq<nat>) {
    forall i :: 0 <= i < |cs| ==> Scalar(cs[i])
  }

  function Text(cs: seq<nat>): bytes
    requires AllScalar(cs)
  {
    if cs == [] then [] else Char(cs[0]) + Text(cs[1..])
  }

  lemma CharFirst(c: nat, rest: bytes)
    requires Scalar(c)
    ensures FirstLength(Char(c) + rest) == |Char(c)|
  {
    if c < 0x80 {
    } else if c < 0x800 {
      CharTwo(c, rest);
    } else if c < 0x1_0000 {
      CharThree(c, rest);
    } else {
      CharFour(c, rest);
    }
  }

  lemma CharTwo(c: nat, rest: bytes)
    requires 0x80 <= c < 0x800
    ensures FirstLength([0xc0 + c / 0x40, 0x80 + c % 0x40] + rest) == 2
  {
  }

  lemma CharThree(c: nat, rest: bytes)
    requires 0x800 <= c < 0x1_0000 && Scalar(c)
    ensures FirstLength([0xe0 + c / 0x1000, 0x80 + c / 0x40 % 0x40, 0x80 + c % 0x40] + rest) == 3
  {
    Groups(c / 0x40);
    assert c / 0x1000 == c / 0x40 / 0x40;
  }

  lemma CharFour(c: nat, rest: bytes)
    requires 0x1_0000 <= c && Scalar(c)
    ensures FirstLength([0xf0 + c / 0x4_0000, 0x80 + c / 0x1000 % 0x40, 0x80 + c / 0x40 % 0x40, 0x80 + c % 0x40] + rest) == 4
  {
    Groups(c / 0x1000);
    assert c / 0x4_0000 == c / 0x1000 / 0x40;
  }

  lemma Groups(n: nat)
    ensures n == 0x40 * (n / 0x40) + n % 0x40
  {
  }

  lemma SixBits(high: nat, b: byte)
    requires Continuation(b)
    ensures (0x40 * high + b % 0x40) / 0x40 == high && 0x80 + (0x40 * high + b % 0x40) % 0x40 == b
  {
  }

  /** The character at the start. */
  lemma FirstIsChar(s: bytes) returns (c: nat)
    requires FirstLength(s) > 0
    ensures Scalar(c) && s[..FirstLength(s)] == Char(c)
  {
    match FirstLength(s) {
      case 1 => c := s[0];
      case 2 => c := TwoBytes(s);
      case 3 => c := ThreeBytes(s);
      case _ => c := FourBytes(s);
    }
  }

  lemma TwoBytes(s: bytes) returns (c: nat)
    requires FirstLength(s) == 2
    ensures Scalar(c) && s[..2] == Char(c)
  {
    var h: int := s[0];
    c := 0x40 * (h - 0xc0) + s[1] % 0x40;
    SixBits(h - 0xc0, s[1]);
  }

  lemma ThreeBytes(s: bytes) returns (c: nat)
    requires FirstLength(s) == 3
    ensures Scalar(c) && s[..3] == Char(c)
  {
    var h: int := s[0];
    var m := 0x40 * (h - 0xe0) + s[1] % 0x40;
    c := 0x40 * m + s[2] % 0x40;
    SixBits(h - 0xe0, s[1]);
    SixBits(m, s[2]);
    assert c / 0x1000 == m / 0x40;
  }

  lemma FourBytes(s: bytes) returns (c: nat)
    requires FirstLength(s) == 4
    ensures Scalar(c) && s[..4] == Char(c)
  {
    var h: int := s[0];
    var l := 0x40 * (h - 0xf0) + s[1] % 0x40;
    var m := 0x40 * l + s[2] % 0x40;
    c := 0x40 * m + s[3] % 0x40;
    SixBits(h - 0xf0, s[1]);
    SixBits(l, s[2]);
    SixBits(m, s[3]);
    assert c / 0x1000 == m / 0x40 && c / 0x4_0000 == l / 0x40;
  }

  /** Well-formed are exactly the texts of scalar values. */
  lemma {:induction false} ValidExact(s: bytes)
    ensures Valid(s) <==> exists cs :: AllScalar(cs) && s == Text(cs)
  {
    if Valid(s) { var cs := Characters(s); }
    forall cs | AllScalar(cs) && s == Text(cs) ensures Valid(s) {
      TextValid(cs);
    }
  }

  lemma {:induction false} Characters(s: bytes) returns (cs: seq<nat>)
    requires Valid(s)
    ensures AllScalar(cs) && s == Text(cs)
    decreases |s|
  {
    if s == [] {
      cs := [];
    } else {
      var n := FirstLength(s);
      var rest := Characters(s[n..]);
      var c := FirstIsChar(s);
      cs := [c] + rest;
      assert cs[1..] == rest && s == s[..n] + s[n..];
    }
  }

  lemma {:induction false} TextValid(cs: seq<nat>)
    requires AllScalar(cs)
    ensures Valid(Text(cs))
  {
    if cs != [] {
      TextValid(cs[1..]);
      CharFirst(cs[0], Text(cs[1..]));
      assert (Char(cs[0]) + Text(cs[1..]))[|Char(cs[0])|..] == Text(cs[1..]);
    }
  }

  // ---------------------------------------------------------------------------
  // Cutting texts

  /** A character at the start stays one whatever follows it. */
  lemma FirstLocal(a: bytes, b: bytes)
    requires FirstLength(a) > 0 && |b| >= FirstLength(a) && b[..FirstLength(a)] == a[..FirstLength(a)]
    ensures FirstLength(b) == FirstLength(a)
  {
    var n := FirstLength(a);
    assert forall i :: 0 <= i < n ==> b[i] == b[..n][i] == a[..n][i] == a[i];
  }

  lemma FirstBeforeAscii(x: bytes, t: bytes)
    requires x != [] && (t == [] || t[0] < 0x80)
    ensures FirstLength(x + t) == FirstLength(x)
  {
    var s := x + t;
    assert forall i :: 0 <= i < |x| ==> s[i] == x[i];
    assert t != [] ==> s[|x|] == t[0];
  }

  /** Before an ASCII character a text can be cut. */
  lemma {:induction false} AsciiCuts(x: bytes, t: bytes)
    requires t == [] || t[0] < 0x80
    ensures Valid(x + t) <==> Valid(x) && Valid(t)
    decreases |x|
  {
    if x == [] {
      assert x + t == t;
    } else {
      FirstBeforeAscii(x, t);
      var n := FirstLength(x);
      if n > 0 {
        assert (x + t)[n..] == x[n..] + t;
        AsciiCuts(x[n..], t);
      }
    }
  }

  lemma AsciiFirst(c: byte, rest: bytes)
    requires c < 0x80
    ensures Valid([c] + rest) <==> Valid(rest)
  {
    assert ([c] + rest)[1..] == rest;
  }
}

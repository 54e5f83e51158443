/**
 The order-preserving byte encoding of strings: a zero byte is written as 00 FF and the
 string is closed by 00 00, so that encodings are prefix free and sort as the strings do.
 */
module SortableString {
  import opened Bytes
  import opened Sizes
  import Utf8

  function Unit(b: byte): (u: bytes)
    ensures |u| <= 2
  {
    if b == 0x00 then [0x00, 0xff] else [b]
  }

  function Encode(s: bytes): (e: bytes)
    ensures 2 + |s| <= |e| <= 2 + 2 * |s|
  {
    if s == [] then [0x00, 0x00] else Unit(s[0]) + Encode(s[1..])
  }

  /** The string whose encoding is `v`, if there is one. */
  function Decode(v: bytes): Option<bytes> {
    if v == [] then None
    else if v[0] != 0x00 then Prepend([v[0]], Decode(v[1..]))
    else if |v| == 1 then None
    else if v[1] == 0x00 then (if |v| == 2 then Some([]) else None)
    else if v[1] == 0xff then Prepend([0x00], Decode(v[2..]))
    else None
  }

  function Prepend(p: bytes, rest: Option<bytes>): Option<bytes> {
    match rest
    case None => None
    case Some(s) => Some(p + s)
  }

  predicate Valid(v: bytes) {
    var s := Decode(v);
    s.Some? && |s.value| + 1 <= MAX_INDEX_VALUE && Utf8.Valid(s.value)
  }

  /** Byte order of the encodings is byte order of the strings, zero bytes included. */
  lemma {:induction false} StringOrder(a: bytes, b: bytes)
    ensures Less(Encode(a), Encode(b)) <==> Less(a, b)
    ensures a != b ==> Diverge(Encode(a), Encode(b))
    decreases |a|
  {
    if a == [] && b == [] {
      LessIrreflexive(Encode(a));
    } else if a != [] && b != [] && a[0] == b[0] {
      assert a == [a[0]] + a[1..] && b == [b[0]] + b[1..];
      StringOrder(a[1..], b[1..]);
      LessAfterPrefix(Unit(a[0]), Encode(a[1..]), Encode(b[1..]));
      if a != b { DivergeAfterPrefix(Unit(a[0]), Encode(a[1..]), Encode(b[1..])); }
    } else {
      var u := if a == [] then [0x00, 0x00] else Unit(a[0]);
      var v := if b == [] then [0x00, 0x00] else Unit(b[0]);
      var s := if a == [] then [] else Encode(a[1..]);
      var t := if b == [] then [] else Encode(b[1..]);
      assert Encode(a) == u + s && Encode(b) == v + t;
      assert u[0] != v[0] || u[1] != v[1];
      DivergeOrder(u, v, s, t);
      if u[0] == v[0] { assert Less(u[1..], v[1..]) <==> u[1] < v[1]; }
    }
  }

  lemma {:induction false} DecodeEncode(s: bytes)
    ensures Decode(Encode(s)) == Some(s)
  {
    if s != [] {
      DecodeEncode(s[1..]);
      assert s == [s[0]] + s[1..];
      assert Encode(s)[|Unit(s[0])|..] == Encode(s[1..]);
    }
  }

  lemma {:induction false} EncodeDecode(v: bytes)
    requires Decode(v).Some?
    ensures Encode(Decode(v).value) == v
    decreases |v|
  {
    if v[0] != 0x00 {
      EncodeDecode(v[1..]);
      var s := Decode(v[1..]).value;
      assert ([v[0]] + s)[1..] == s;
      assert v == [v[0]] + v[1..];
    } else if v[1] == 0x00 {
      assert v == [0x00, 0x00];
    } else {
      EncodeDecode(v[2..]);
      var s := Decode(v[2..]).value;
      assert ([0x00] + s)[1..] == s;
      assert v == [0x00, 0xff] + v[2..];
    }
  }

  /** The validator accepts exactly the encodings of valid strings that are not too long. */
  lemma ValidExact(v: bytes)
    ensures Valid(v) <==> exists s: bytes :: |s| <= 4095 && Utf8.Valid(s) && v == Encode(s)
  {
    if Valid(v) { EncodeDecode(v); }
    forall s: bytes | |s| <= 4095 && Utf8.Valid(s) && v == Encode(s) ensures Valid(v) {
      DecodeEncode(s);
    }
  }

  // ---------------------------------------------------------------------------
  // The loops

  method EncodeSortableString(value: bytes) returns (encoded: bytes)
    ensures encoded == Encode(value)
  {
    encoded := [];
    var i := 0;
    while i < |value|
      invariant 0 <= i <= |value|
      invariant encoded + Encode(value[i..]) == Encode(value)
    {
      NextByte(value, i, encoded);
      if value[i] == 0x00 {
        encoded := encoded + [0x00, 0xff];
      } else {
        encoded := encoded + [value[i]];
      }
      i := i + 1;
    }
    encoded := encoded + [0x00, 0x00];
  }

  lemma NextByte(value: bytes, i: nat, encoded: bytes)
    requires i < |value|
    ensures encoded + Encode(value[i..])
         == encoded + (if value[i] == 0x00 then [0x00, 0xff] else [value[i]]) + Encode(value[i + 1..])
  {
    assert value[i..][1..] == value[i + 1..];
  }

  method CheckSortableString(value: bytes) returns (ok: bool)
    ensures ok <==> Valid(value)
  {
    var decoded: bytes := [];
    var i := 0;
    assert value[0..] == value;
    assert Decode(value).Some? ==> [] + Decode(value).value == Decode(value).value;
    while i < |value|
      invariant 0 <= i <= |value|
      invariant Decode(value) == Prepend(decoded, Decode(value[i..]))
    {
      var rest := value[i..];
      if value[i] != 0x00 {
        assert rest[1..] == value[i + 1..];
        PrependTwice(decoded, [value[i]], Decode(value[i + 1..]));
        decoded := decoded + [value[i]];
        i := i + 1;
      } else if i + 1 >= |value| {
        return false;
      } else if value[i + 1] == 0x00 {
        assert Decode(value) == if i + 2 == |value| then Some(decoded + []) else None;
        assert decoded + [] == decoded;
        return i + 2 == |value| && |decoded| + 1 <= MAX_INDEX_VALUE && Utf8.Valid(decoded);
      } else if value[i + 1] == 0xff {
        assert rest[2..] == value[i + 2..];
        PrependTwice(decoded, [0x00], Decode(value[i + 2..]));
        decoded := decoded + [0x00];
        i := i + 2;
      } else {
        return false;
      }
    }
    return false;
  }

  lemma PrependTwice(p: bytes, q: bytes, rest: Option<bytes>)
    ensures Prepend(p, Prepend(q, rest)) == Prepend(p + q, rest)
  {
    if rest.Some? { assert p + (q + rest.value) == (p + q) + rest.value; }
  }
}

/**
 Making document identifiers: UUIDs of version 7 (section 5.7 of RFC 9562), the time in milliseconds in
 front so that later ones sort later.
 */
module Ids {
  import opened Bytes
  import opened Digits
  import opened Names
  import opened Sizes
  import opened Picks

  const STAMP_BYTES: nat := 6

  /** The low `width` bytes of a number, most significant first. */
  function Stamp(n: int, width: nat): (b: bytes)
    ensures |b| == width
    decreases width
  {
    if width == 0 then [] else Stamp(n / 0x100, width - 1) + [n % 0x100]
  }

  /** Equal lengths: once one is less, what follows does not matter. */
  lemma {:induction false} LessExtends(a: seq<int>, b: seq<int>, s: seq<int>, t: seq<int>)
    requires Less(a, b) && |a| == |b|
    ensures Less(a + s, b + t)
    decreases |a|
  {
    assert (a + s)[0] == a[0] && (b + t)[0] == b[0];
    if a[0] == b[0] {
      LessExtends(a[1..], b[1..], s, t);
      assert (a + s)[1..] == a[1..] + s && (b + t)[1..] == b[1..] + t;
    }
  }

  lemma {:induction false} StampOrder(m: nat, n: nat, width: nat)
    requires m < n < Pow(0x100, width)
    ensures Less(Stamp(m, width), Stamp(n, width))
    decreases width
  {
    if width > 0 {
      var x, y := Stamp(m / 0x100, width - 1), Stamp(n / 0x100, width - 1);
      if m / 0x100 < n / 0x100 {
        StampOrder(m / 0x100, n / 0x100, width - 1);
        LessExtends(x, y, [m % 0x100], [n % 0x100]);
      } else {
        LessAfterPrefix(x, [m % 0x100], [n % 0x100]);
      }
    }
  }

  // ---------------------------------------------------------------------------
  // Text

  function HexChar(n: int): byte
    requires 0 <= n < 16
  {
    if n < 10 then 0x30 + n else 0x57 + n
  }

  function HexPair(b: byte): bytes {
    [HexChar(b / 16), HexChar(b % 16)]
  }

  function Hex(b: bytes): (text: bytes)
    ensures |text| == 2 * |b| && forall i :: 0 <= i < |text| ==> LowerHex(text[i])
  {
    if b == [] then [] else HexPair(b[0]) + Hex(b[1..])
  }

  lemma {:induction false} HexAppend(b: bytes, c: byte)
    ensures Hex(b + [c]) == Hex(b) + HexPair(c)
    decreases |b|
  {
    if b == [] {
      assert ([] + [c])[1..] == [];
    } else {
      assert (b + [c])[1..] == b[1..] + [c];
      HexAppend(b[1..], c);
    }
  }

  lemma HexPairOrder(x: byte, y: byte)
    requires x < y
    ensures Less(HexPair(x), HexPair(y))
  {
    assert HexPair(x)[1..] == [HexChar(x % 16)] && HexPair(y)[1..] == [HexChar(y % 16)];
  }

  /** Hexadecimal text sorts as the bytes do. */
  lemma {:induction false} HexOrder(a: bytes, b: bytes)
    requires Less(a, b) && |a| == |b|
    ensures Less(Hex(a), Hex(b))
    decreases |a|
  {
    var x, y := HexPair(a[0]), HexPair(b[0]);
    if a[0] < b[0] {
      HexPairOrder(a[0], b[0]);
      LessExtends(x, y, Hex(a[1..]), Hex(b[1..]));
    } else {
      HexOrder(a[1..], b[1..]);
      LessAfterPrefix(x, Hex(a[1..]), Hex(b[1..]));
    }
  }

  /** The groups of the text form. */
  function Text(b: bytes): bytes
    requires |b| == 16
  {
    Hex(b[..4]) + ([HYPHEN] + (Hex(b[4..6]) + ([HYPHEN] + (Hex(b[6..8]) + ([HYPHEN] + (Hex(b[8..10]) + ([HYPHEN] + Hex(b[10..]))))))))
  }

  predicate Versioned(b: bytes) {
    |b| == 16 && b[6] / 16 == 7 && 8 <= b[8] / 16 < 12
  }

  lemma TextValid(b: bytes)
    requires Versioned(b)
    ensures ValidId(Text(b))
  {
    var id := Text(b);
    var e, d, c := Hex(b[10..]), Hex(b[8..10]), Hex(b[6..8]);
    assert |id| == 36;
    assert id[8] == HYPHEN && id[13] == HYPHEN && id[18] == HYPHEN && id[23] == HYPHEN;
    forall i | 0 <= i < 36 && !HyphenPlace(i) ensures LowerHex(id[i]) {
      TextChar(b, i);
    }
    assert c[0] == HexPair(b[6])[0] == 0x37 && id[14] == c[0];
    assert d[0] == HexPair(b[8])[0] && id[19] == d[0];
  }

  lemma TextChar(b: bytes, i: nat)
    requires |b| == 16 && i < 36 && !HyphenPlace(i)
    ensures |Text(b)| == 36 && LowerHex(Text(b)[i])
  {
    if i < 8 { assert Text(b)[i] == Hex(b[..4])[i]; }
    else if i < 13 { assert Text(b)[i] == Hex(b[4..6])[i - 9]; }
    else if i < 18 { assert Text(b)[i] == Hex(b[6..8])[i - 14]; }
    else if i < 23 { assert Text(b)[i] == Hex(b[8..10])[i - 19]; }
    else { assert Text(b)[i] == Hex(b[10..])[i - 24]; }
  }

  /** What follows the first two groups. */
  function TextTail(b: bytes): bytes
    requires |b| == 16
  {
    [HYPHEN] + (Hex(b[6..8]) + ([HYPHEN] + (Hex(b[8..10]) + ([HYPHEN] + Hex(b[10..])))))
  }

  /** Two groups sort as their bytes do. */
  lemma GroupsOrder(p: bytes, r: bytes, x: bytes, q: bytes, s: bytes, y: bytes)
    requires |p| == |q| && |r| == |s| && Less(p + r, q + s)
    ensures Less(Hex(p) + ([HYPHEN] + (Hex(r) + x)), Hex(q) + ([HYPHEN] + (Hex(s) + y)))
  {
    var u, v := [HYPHEN] + (Hex(r) + x), [HYPHEN] + (Hex(s) + y);
    LessTotal(p, q);
    if p == q {
      LessAfterPrefix(p, r, s);
      HexOrder(r, s);
      LessExtends(Hex(r), Hex(s), x, y);
      LessAfterPrefix([HYPHEN], Hex(r) + x, Hex(s) + y);
      LessAfterPrefix(Hex(p), u, v);
    } else {
      FrontDecides(p, r, q, s);
      HexOrder(p, q);
      LessExtends(Hex(p), Hex(q), u, v);
    }
  }

  lemma FrontDecides(p: bytes, r: bytes, q: bytes, s: bytes)
    requires |p| == |q| && p != q && Less(p + r, q + s)
    ensures Less(p, q)
  {
    LessTotal(p, q);
    if Less(q, p) {
      LessExtends(q, p, s, r);
      LessAsymmetric(q + s, p + r);
    }
  }

  /** Text sorts by the first six bytes when they differ. */
  lemma TextOrder(a: bytes, b: bytes)
    requires |a| == 16 && |b| == 16 && Less(a[..STAMP_BYTES], b[..STAMP_BYTES])
    ensures Less(Text(a), Text(b))
  {
    assert a[..6] == a[..4] + a[4..6] && b[..6] == b[..4] + b[4..6];
    GroupsOrder(a[..4], a[4..6], TextTail(a), b[..4], b[4..6], TextTail(b));
  }

  // ---------------------------------------------------------------------------
  // Making an identifier

  /** The bytes of an identifier: time, version, variant, and what was drawn at random. */
  function IdBytes(random: bytes, millis: int): (b: bytes)
    requires |random| == 16
    ensures Versioned(b) && b[..STAMP_BYTES] == Stamp(millis, STAMP_BYTES)
  {
    var b := Stamp(millis, STAMP_BYTES) + [0x70 + random[6] % 0x10, random[7], 0x80 + random[8] % 0x40] + random[9..];
    assert b[6] == 0x70 + random[6] % 0x10 && b[8] == 0x80 + random[8] % 0x40;
    b
  }

  /** Writes the text of `source` behind what is written already. */
  method HexEncode(encoded: array<byte>, at: nat, source: bytes)
    requires at + 2 * |source| <= encoded.Length
    modifies encoded
    ensures encoded[..at + 2 * |source|] == old(encoded[..at]) + Hex(source)
  {
    ghost var start := encoded[..at];
    var i := 0;
    assert source[..0] == [] && start + [] == start;
    while i < |source|
      invariant 0 <= i <= |source|
      invariant encoded[..at + 2 * i] == start + Hex(source[..i])
    {
      NextPair(start, source, i);
      PutPair(encoded, at + 2 * i, source[i]);
      i := i + 1;
    }
    assert source[..i] == source;
  }

  lemma NextPair(start: bytes, source: bytes, i: nat)
    requires i < |source|
    ensures start + Hex(source[..i + 1]) == start + Hex(source[..i]) + HexPair(source[i])
  {
    HexAppend(source[..i], source[i]);
    assert source[..i + 1] == source[..i] + [source[i]];
  }

  method PutPair(encoded: array<byte>, at: nat, b: byte)
    requires at + 2 <= encoded.Length
    modifies encoded
    ensures encoded[..at + 2] == old(encoded[..at]) + HexPair(b)
  {
    encoded[at] := HexChar(b / 16);
    encoded[at + 1] := HexChar(b % 16);
  }

  method PutHyphen(encoded: array<byte>, at: nat)
    requires at < encoded.Length
    modifies encoded
    ensures encoded[..at + 1] == old(encoded[..at]) + [HYPHEN]
  {
    encoded[at] := HYPHEN;
  }

  /** The sixteen bytes, filled in place. */
  method FillBytes(random: bytes, now: int) returns (id: bytes)
    requires |random| == 16
    ensures id == IdBytes(random, now)
  {
    var b := new byte[16](i requires 0 <= i < 16 => random[i]);
    var millis := now;
    var i := 5;
    while i >= 0
      invariant -1 <= i <= 5
      invariant Stamp(now, STAMP_BYTES) == Stamp(millis, i + 1) + b[i + 1..STAMP_BYTES]
      invariant forall j :: STAMP_BYTES <= j < 16 ==> b[j] == random[j]
    {
      ghost var later := b[i + 1..STAMP_BYTES];
      b[i] := millis % 0x100;
      assert b[i..STAMP_BYTES] == [millis % 0x100] + later;
      millis := millis / 0x100;
      i := i - 1;
    }
    b[6] := b[6] % 0x10 + 0x70;
    b[8] := b[8] % 0x40 + 0x80;
    assert b[..STAMP_BYTES] == b[0..STAMP_BYTES];
    assert b[9..] == random[9..];
    id := b[..];
    assert id == b[..STAMP_BYTES] + [b[6], b[7], b[8]] + b[9..];
  }

  /** `makeID` with the bytes drawn and the clock read. */
  method MakeId(random: bytes, now: int) returns (id: bytes)
    requires |random| == 16
    ensures id == Text(IdBytes(random, now)) && ValidId(id)
  {
    var b := FillBytes(random, now);
    var encoded := new byte[36](_ => 0);
    HexEncode(encoded, 0, b[..4]);
    PutHyphen(encoded, 8);
    HexEncode(encoded, 9, b[4..6]);
    PutHyphen(encoded, 13);
    HexEncode(encoded, 14, b[6..8]);
    PutHyphen(encoded, 18);
    HexEncode(encoded, 19, b[8..10]);
    PutHyphen(encoded, 23);
    HexEncode(encoded, 24, b[10..]);
    id := encoded[..];
    Assembled(b);
    assert id == encoded[..36];
    TextValid(b);
  }

  /** The text form, written from the left. */
  lemma Assembled(b: bytes)
    requires |b| == 16
    ensures [] + Hex(b[..4]) + [HYPHEN] + Hex(b[4..6]) + [HYPHEN] + Hex(b[6..8]) + [HYPHEN] + Hex(b[8..10]) + [HYPHEN] + Hex(b[10..]) == Text(b)
  {
  }

  /** An identifier made in a later millisecond sorts later, whatever was drawn at random. */
  lemma LaterSortsLater(r: bytes, m: nat, s: bytes, n: nat)
    requires |r| == 16 && |s| == 16 && m < n < 0x1_0000_0000_0000
    ensures Less(Text(IdBytes(r, m)), Text(IdBytes(s, n)))
  {
    assert Pow(0x100, STAMP_BYTES) == 0x1_0000_0000_0000;
    StampOrder(m, n, STAMP_BYTES);
    TextOrder(IdBytes(r, m), IdBytes(s, n));
  }

  // ---------------------------------------------------------------------------
  // Enough identifiers

  lemma HexInjective(a: bytes, b: bytes)
    requires |a| == |b| && a != b
    ensures Hex(a) != Hex(b)
  {
    LessTotal(a, b);
    LessIrreflexive(Hex(a));
    if Less(a, b) { HexOrder(a, b); } else { HexOrder(b, a); }
  }

  lemma StampInjective(m: nat, n: nat, width: nat)
    requires m < n < Pow(0x100, width)
    ensures Stamp(m, width) != Stamp(n, width)
  {
    StampOrder(m, n, width);
    LessIrreflexive(Stamp(m, width));
  }

  const STAMPS: nat := 0x1_0000_0000_0000

  /** Identifiers by number: the high part in the place of the time, the low part in that of the last random bytes. */
  function CounterId(n: nat): bytes {
    Text(CounterBytes(n))
  }

  function CounterBytes(n: nat): (b: bytes)
    ensures Versioned(b) && b[10..] == Stamp(n % STAMPS, STAMP_BYTES)
  {
    var random := seq(10, _ => 0x00) + Stamp(n % STAMPS, STAMP_BYTES);
    var b := IdBytes(random, n / STAMPS);
    assert random[9..] == [0x00] + Stamp(n % STAMPS, STAMP_BYTES);
    assert b[9..] == random[9..] && b[10..] == b[9..][1..];
    b
  }

  lemma CounterIdValid(n: nat)
    ensures ValidId(CounterId(n))
  {
    TextValid(CounterBytes(n));
  }

  lemma LastGroup(b: bytes)
    requires |b| == 16
    ensures |Text(b)| == 36 && Text(b)[24..] == Hex(b[10..])
  {
  }

  lemma CounterIdsDiffer(m: nat, n: nat)
    requires m < n < WORD
    ensures CounterId(m) != CounterId(n)
  {
    assert Pow(0x100, STAMP_BYTES) == STAMPS;
    if m / STAMPS < n / STAMPS {
      StampOrder(m / STAMPS, n / STAMPS, STAMP_BYTES);
      TextOrder(CounterBytes(m), CounterBytes(n));
      LessIrreflexive(CounterId(m));
    } else {
      StampInjective(m % STAMPS, n % STAMPS, STAMP_BYTES);
      HexInjective(CounterBytes(m)[10..], CounterBytes(n)[10..]);
      LastGroup(CounterBytes(m));
      LastGroup(CounterBytes(n));
    }
  }

  /** As many different valid identifiers as are asked for, none of them taken, while there are numbers left. */
  lemma EnoughIds(taken: set<bytes>, count: nat) returns (ids: seq<bytes>)
    requires |taken| + count <= WORD
    ensures |ids| == count && Distinct(ids)
    ensures forall i :: 0 <= i < count ==> ValidId(ids[i]) && ids[i] !in taken
  {
    forall m: nat, n: nat | m < n < WORD ensures CounterId(m) != CounterId(n) {
      CounterIdsDiffer(m, n);
    }
    ids := Enough(CounterId, WORD, taken, count);
    forall i | 0 <= i < count ensures ValidId(ids[i]) {
      assert Numbered(CounterId, ids[i]);
      var k :| CounterId(k) == ids[i];
      CounterIdValid(k);
    }
  }

  // ---------------------------------------------------------------------------
  // Which identifiers are made

  function HexValue(c: byte): (n: int)
    requires LowerHex(c)
    ensures 0 <= n < 16 && HexChar(n) == c
  {
    if c <= 0x39 then c - 0x30 else c - 0x57
  }

  predicate AllHex(t: bytes) {
    forall i :: 0 <= i < |t| ==> LowerHex(t[i])
  }

  function UnHex(t: bytes): (b: bytes)
    requires AllHex(t) && |t| % 2 == 0
    ensures |b| == |t| / 2 && Hex(b) == t
  {
    if t == [] then []
    else
      assert AllHex(t[2..]) by { assert forall i :: 0 <= i < |t[2..]| ==> t[2..][i] == t[i + 2]; }
      var first: byte, rest := HexValue(t[0]) * 16 + HexValue(t[1]), UnHex(t[2..]);
      assert HexPair(first) == t[..2] && t == t[..2] + t[2..] && ([first] + rest)[1..] == rest;
      [first] + rest
  }

  lemma GroupHex(id: bytes, from: nat, to: nat)
    requires ValidId(id) && from <= to <= 36 && forall i :: from <= i < to ==> !HyphenPlace(i)
    ensures AllHex(id[from..to])
  {
  }

  /** Every valid identifier is the text of sixteen bytes with version and variant. */
  lemma TextOfBytes(id: bytes) returns (b: bytes)
    requires ValidId(id)
    ensures Versioned(b) && Text(b) == id
  {
    GroupHex(id, 0, 8);
    GroupHex(id, 9, 13);
    GroupHex(id, 14, 18);
    GroupHex(id, 19, 23);
    GroupHex(id, 24, 36);
    var p, q, r, s, t := UnHex(id[0..8]), UnHex(id[9..13]), UnHex(id[14..18]), UnHex(id[19..23]), UnHex(id[24..36]);
    b := p + q + r + s + t;
    GroupsOf(p, q, r, s, t);
    Grouped(id);
    FirstDigit(r, id[14..18]);
    FirstDigit(s, id[19..23]);
  }

  lemma GroupsOf(p: bytes, q: bytes, r: bytes, s: bytes, t: bytes)
    requires |p| == 4 && |q| == |r| == |s| == 2 && |t| == 6
    ensures var b := p + q + r + s + t;
            |b| == 16 && b[..4] == p && b[4..6] == q && b[6..8] == r && b[8..10] == s && b[10..] == t && b[6] == r[0] && b[8] == s[0]
  {
  }

  lemma Grouped(id: bytes)
    requires ValidId(id)
    ensures id == id[0..8] + ([HYPHEN] + (id[9..13] + ([HYPHEN] + (id[14..18] + ([HYPHEN] + (id[19..23] + ([HYPHEN] + id[24..36])))))))
  {
    assert id[8] == HYPHEN && id[13] == HYPHEN && id[18] == HYPHEN && id[23] == HYPHEN by {
      assert HyphenPlace(8) && HyphenPlace(13) && HyphenPlace(18) && HyphenPlace(23);
    }
  }

  lemma FirstDigit(b: bytes, t: bytes)
    requires b != [] && t == Hex(b)
    ensures t[0] == HexChar(b[0] / 16)
  {
  }

  lemma TextGroups(b: bytes)
    requires |b| == 16
    ensures |Text(b)| == 36 && Text(b)[..8] == Hex(b[..4]) && Text(b)[9..13] == Hex(b[4..6]) && Text(b)[14..18] == Hex(b[6..8])
    ensures Text(b)[19..23] == Hex(b[8..10]) && Text(b)[24..] == Hex(b[10..])
  {
  }

  lemma SameHex(a: bytes, b: bytes)
    requires |a| == |b| && Hex(a) == Hex(b)
    ensures a == b
  {
    if a != b { HexInjective(a, b); }
  }

  lemma TextInjective(a: bytes, b: bytes)
    requires |a| == |b| == 16 && Text(a) == Text(b)
    ensures a == b
  {
    TextGroups(a);
    TextGroups(b);
    SameHex(a[..4], b[..4]);
    SameHex(a[4..6], b[4..6]);
    SameHex(a[6..8], b[6..8]);
    SameHex(a[8..10], b[8..10]);
    SameHex(a[10..], b[10..]);
    assert a == a[..4] + a[4..6] + a[6..8] + a[8..10] + a[10..] && b == b[..4] + b[4..6] + b[6..8] + b[8..10] + b[10..];
  }

  /** All 74 random bits and all 48 bits of the time are in the identifier: it is the same only if they all are. */
  lemma BitsKept(r: bytes, m: nat, s: bytes, n: nat)
    requires |r| == |s| == 16 && m < STAMPS && n < STAMPS
    ensures Text(IdBytes(r, m)) == Text(IdBytes(s, n)) <==>
            m == n && r[6] % 16 == s[6] % 16 && r[7] == s[7] && r[8] % 64 == s[8] % 64 && r[9..] == s[9..]
  {
    assert Pow(0x100, STAMP_BYTES) == STAMPS;
    if Text(IdBytes(r, m)) == Text(IdBytes(s, n)) {
      TextInjective(IdBytes(r, m), IdBytes(s, n));
      if m < n { StampInjective(m, n, STAMP_BYTES); }
      if n < m { StampInjective(n, m, STAMP_BYTES); }
      SameBytes(r, s, m);
    }
  }

  lemma SameBytes(r: bytes, s: bytes, m: nat)
    requires |r| == |s| == 16 && IdBytes(r, m) == IdBytes(s, m)
    ensures r[6] % 16 == s[6] % 16 && r[7] == s[7] && r[8] % 64 == s[8] % 64 && r[9..] == s[9..]
  {
    var a, b := IdBytes(r, m), IdBytes(s, m);
    assert a[6] == b[6] && a[7] == b[7] && a[8] == b[8] && a[9..] == b[9..];
    assert a[9..] == r[9..] && b[9..] == s[9..];
  }

  lemma {:induction false} StampOf(b: bytes) returns (n: nat)
    ensures n < Pow(0x100, |b|) && Stamp(n, |b|) == b
  {
    if b == [] {
      n := 0;
    } else {
      var high := StampOf(b[..|b| - 1]);
      n := 0x100 * high + b[|b| - 1];
      assert n / 0x100 == high && n % 0x100 == b[|b| - 1];
    }
  }

  /** The valid identifiers are exactly those that can be made. */
  lemma ValidExact(id: bytes)
    ensures ValidId(id) <==> exists r: bytes, m: nat :: |r| == 16 && m < STAMPS && id == Text(IdBytes(r, m))
  {
    if ValidId(id) {
      var b := TextOfBytes(id);
      assert Pow(0x100, STAMP_BYTES) == STAMPS;
      var m := StampOf(b[..STAMP_BYTES]);
      assert IdBytes(b, m) == b;
    }
    forall r: bytes, m: nat | |r| == 16 && m < STAMPS && id == Text(IdBytes(r, m)) ensures ValidId(id) {
      TextValid(IdBytes(r, m));
    }
  }
}

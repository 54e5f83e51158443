/**
 Length-prefixed parts: an unsigned variable-length integer followed by that many bytes.
 */
module Parts {
  import opened Bytes
  import opened Sizes

  datatype Split = Split(part: bytes, rest: bytes)

  /** `binary.AppendUvarint`: seven bits a byte, least significant first, the top bit set on all but the last. */
  function Uvarint(n: nat): (e: bytes)
    ensures |e| > 0
  {
    if n < 0x80 then [n] else [0x80 + n % 0x80] + Uvarint(n / 0x80)
  }

  /** `binary.Uvarint` from the byte with number `i` on: the value of the bytes read and how many they are. */
  function ReadUvarint(b: bytes, i: nat): Option<(nat, nat)>
    decreases |b|
  {
    if b == [] || i == 10 then None
    else if b[0] < 0x80 then
      if i == 9 && b[0] > 1 then None else Some((b[0], 1))
    else
      match ReadUvarint(b[1..], i + 1)
      case None => None
      case Some(r) => Some((b[0] - 0x80 + 0x80 * r.0, 1 + r.1))
  }

  function AppendPart(key: bytes, part: bytes): bytes {
    key + Uvarint(|part|) + part
  }

  function ReadPart(key: bytes): Option<Split> {
    match ReadUvarint(key, 0)
    case None => None
    case Some((length, size)) =>
      if size > |key| || length > |key| - size then None
      else Some(Split(key[size..size + length], key[size + length..]))
  }

  lemma {:induction false} ReadUvarintBack(n: nat, i: nat, rest: bytes)
    requires i < 10 && n < Room(i)
    ensures ReadUvarint(Uvarint(n) + rest, i) == Some((n, |Uvarint(n)|))
    decreases 10 - i
  {
    var b := Uvarint(n) + rest;
    if n >= 0x80 {
      assert b[1..] == Uvarint(n / 0x80) + rest;
      ReadUvarintBack(n / 0x80, i + 1, rest);
    }
  }

  /** What is left of 64 bits when `i` groups of seven are taken. */
  function Room(i: nat): nat
    requires i < 10
  {
    match i
    case 0 => 0x1_0000_0000_0000_0000
    case 1 => 0x200_0000_0000_0000
    case 2 => 0x4_0000_0000_0000
    case 3 => 0x800_0000_0000
    case 4 => 0x10_0000_0000
    case 5 => 0x2000_0000
    case 6 => 0x40_0000
    case 7 => 0x8000
    case 8 => 0x100
    case _ => 2
  }

  /** A part is read back whatever follows it. */
  lemma ReadPartBack(part: bytes, rest: bytes)
    requires |part| < WORD
    ensures ReadPart(AppendPart([], part) + rest) == Some(Split(part, rest))
  {
    var size := Uvarint(|part|);
    var key := AppendPart([], part) + rest;
    assert key == size + (part + rest);
    ReadUvarintBack(|part|, 0, part + rest);
    assert key[|size|..|size| + |part|] == part;
    assert key[|size| + |part|..] == rest;
  }

  /** A part in front decides how the rest is cut off. */
  lemma PartsApart(p: bytes, s: bytes, q: bytes, t: bytes)
    requires |p| < WORD && |q| < WORD
    requires AppendPart([], p) + s == AppendPart([], q) + t
    ensures p == q && s == t
  {
    ReadPartBack(p, s);
    ReadPartBack(q, t);
  }

  lemma {:induction false} UvarintLength(n: nat, i: nat)
    requires i < 10 && n < Room(i)
    ensures |Uvarint(n)| <= 10 - i
    decreases 10 - i
  {
    if n >= 0x80 { UvarintLength(n / 0x80, i + 1); }
  }

  // ---------------------------------------------------------------------------
  // Longer spellings of a length

  /** Only zero groups add nothing. */
  lemma {:induction false} ZeroEndsInZero(b: bytes, i: nat)
    requires ReadUvarint(b, i).Some? && ReadUvarint(b, i).value.0 == 0
    ensures 1 <= ReadUvarint(b, i).value.1 <= |b| && b[ReadUvarint(b, i).value.1 - 1] == 0
    decreases |b|
  {
    if b[0] >= 0x80 { ZeroEndsInZero(b[1..], i + 1); }
  }

  /** A number is spelled as `Uvarint` spells it unless the last of several bytes is zero. */
  lemma {:induction false} MinimalSpelling(b: bytes, i: nat)
    requires ReadUvarint(b, i).Some?
    ensures var (n, size) := ReadUvarint(b, i).value;
            1 <= size <= |b| && (b[..size] == Uvarint(n) <==> size == 1 || b[size - 1] != 0)
    decreases |b|
  {
    if b[0] >= 0x80 {
      MinimalSpelling(b[1..], i + 1);
      var (n, size) := ReadUvarint(b[1..], i + 1).value;
      assert b[..1 + size] == [b[0]] + b[1..][..size];
      if n == 0 {
        ZeroEndsInZero(b[1..], i + 1);
      } else {
        SpellNext(b[0], n, b[1..][..size]);
      }
    }
  }

  lemma SpellNext(first: byte, n: nat, s: bytes)
    requires first >= 0x80 && n > 0
    ensures [first] + s == Uvarint(first - 0x80 + 0x80 * n) <==> s == Uvarint(n)
  {
    assert Uvarint(first - 0x80 + 0x80 * n) == [first] + Uvarint(n);
    assert ([first] + s)[1..] == s && ([first] + Uvarint(n))[1..] == Uvarint(n);
  }

  /** How many bytes the length takes that a key starts with. */
  function LengthSize(key: bytes): nat
    requires ReadPart(key).Some?
  {
    ReadUvarint(key, 0).value.1
  }

  /** The length is spelled with no byte more than needed. */
  predicate Minimal(key: bytes)
    requires ReadPart(key).Some?
  {
    LengthSize(key) == 1 || (1 <= LengthSize(key) <= |key| && key[LengthSize(key) - 1] != 0)
  }

  /**
   The reader also accepts longer spellings of a length. A key is the encoding of what is read from it exactly if
   the length takes one byte or does not end in a zero byte.
   */
  lemma ReadExact(key: bytes)
    requires ReadPart(key).Some?
    ensures var s := ReadPart(key).value; key == AppendPart([], s.part) + s.rest <==> Minimal(key)
  {
    var (n, size) := ReadUvarint(key, 0).value;
    var s := ReadPart(key).value;
    MinimalSpelling(key, 0);
    assert AppendPart([], s.part) + s.rest == Uvarint(n) + (s.part + s.rest);
    assert key == key[..size] + (s.part + s.rest);
    SameFront(key[..size], Uvarint(n), s.part + s.rest);
  }

  lemma SameFront(a: bytes, b: bytes, rest: bytes)
    ensures a + rest == b + rest <==> a == b
  {
    if a + rest == b + rest {
      assert |a| == |b| && a == (a + rest)[..|a|] && b == (b + rest)[..|b|];
    }
  }

  /** Between keys with minimal lengths decoding is injective. */
  lemma MinimalInjective(key: bytes, other: bytes)
    requires ReadPart(key).Some? && ReadPart(key) == ReadPart(other) && Minimal(key) && Minimal(other)
    ensures key == other
  {
    ReadExact(key);
    ReadExact(other);
  }

  /** The bytes of `Uvarint` with the top bit set on the last as well, and a zero byte behind. */
  function LongUvarint(n: nat): bytes {
    if n < 0x80 then [0x80 + n, 0x00] else [0x80 + n % 0x80] + LongUvarint(n / 0x80)
  }

  lemma {:induction false} ReadLongBack(n: nat, i: nat, rest: bytes)
    requires i < 9 && 2 * n < Room(i)
    ensures ReadUvarint(LongUvarint(n) + rest, i) == Some((n, |LongUvarint(n)|))
    decreases 9 - i
  {
    var b := LongUvarint(n) + rest;
    if n >= 0x80 {
      assert b[1..] == LongUvarint(n / 0x80) + rest;
      ReadLongBack(n / 0x80, i + 1, rest);
    } else {
      assert b[1..][0] == 0x00;
      assert ReadUvarint(b[1..], i + 1) == Some((0, 1));
    }
  }

  lemma {:induction false} LongerByOne(n: nat)
    ensures |LongUvarint(n)| == |Uvarint(n)| + 1
  {
    if n >= 0x80 { LongerByOne(n / 0x80); }
  }

  /** Every part that fits a slice has a second encoding: decoding is not injective on all bytes. */
  lemma NonMinimalLength(part: bytes, rest: bytes)
    requires |part| <= MAX_INT
    ensures var key := LongUvarint(|part|) + part + rest;
            ReadPart(key) == Some(Split(part, rest)) && !Minimal(key) && key != AppendPart([], part) + rest
  {
    var size := LongUvarint(|part|);
    var key := size + part + rest;
    assert key == size + (part + rest);
    ReadLongBack(|part|, 0, part + rest);
    assert key[|size|..|size| + |part|] == part && key[|size| + |part|..] == rest;
    LongerByOne(|part|);
    ReadExact(key);
  }
}

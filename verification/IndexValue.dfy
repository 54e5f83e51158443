/**
 Index values: a type tag followed by the order-preserving encoding of a JSON scalar.
 */
module IndexValue {
  import opened Bytes
  import opened Digits
  import opened Decimals
  import opened Sizes
  import opened Json
  import Num = SortableNumber
  import Str = SortableString
  import Utf8

  const MAX_ENCODED: int := 2 * MAX_INDEX_VALUE + 1

  const NUMBER: byte := 0x03
  const STRING: byte := 0x04

  datatype IndexError = TooLarge | InvalidUtf8 | Unsupported

  datatype Encoded = Value(bytes: bytes) | Failed(error: IndexError)

  /** `validIndexValue` */
  predicate Valid(v: bytes) {
    && 0 < |v| <= MAX_ENCODED
    && (match v[0]
        case 0x00 | 0x01 | 0x02 => |v| == 1
        case 0x03 => Num.ValidNumber(v[1..])
        case 0x04 => Str.Valid(v[1..])
        case _ => false)
  }

  function NatLength(n: nat): nat {
    |Numeral(n)|
  }

  /** `len(number.RatString())` */
  function RatStringLength(f: Fraction): nat {
    var sign := if f.num < 0 then 1 else 0;
    var top := sign + NatLength(Abs(f.num));
    if f.den == 1 then top else top + 1 + NatLength(f.den)
  }

  /** The bytes an encodable scalar is turned into before the size check. */
  function Raw(value: Json): bytes
    requires !value.Arr? && !value.Obj?
  {
    match value
    case Null => [0x00]
    case Bool(b) => [if b then 0x02 else 0x01]
    case Number(f) => [NUMBER] + Num.Encode(f.num, f.den)
    case Str(s) => [STRING] + Str.Encode(s)
  }

  /** `encodeIndexValue` */
  function Encode(value: Json): Encoded {
    if value.Arr? || value.Obj? then Failed(Unsupported)
    else if value.Number? && RatStringLength(value.n) + 1 > MAX_INDEX_VALUE then Failed(TooLarge)
    else if value.Str? && !Utf8.Valid(value.s) then Failed(InvalidUtf8)
    else if value.Str? && |value.s| + 1 > MAX_INDEX_VALUE then Failed(TooLarge)
    else if !Valid(Raw(value)) then Failed(TooLarge)
    else Value(Raw(value))
  }

  // ---------------------------------------------------------------------------
  // Meaning

  /** Scalars of one type; values of different types never compare. */
  predicate SameType(x: Json, y: Json) {
    match x
    case Null => y.Null?
    case Bool(_) => y.Bool?
    case Number(_) => y.Number?
    case Str(_) => y.Str?
    case _ => false
  }

  /** The same scalar: numbers by value, not by spelling. */
  predicate SameScalar(x: Json, y: Json) {
    if x.Number? && y.Number? then x.n.num * y.n.den == y.n.num * x.n.den
    else SameType(x, y) && x == y
  }

  /** Numeric order of numbers, byte order of strings. */
  predicate ScalarLess(x: Json, y: Json) {
    match x
    case Number(f) => y.Number? && f.num * y.n.den < y.n.num * f.den
    case Str(s) => y.Str? && Less(s, y.s)
    case _ => false
  }

  lemma EncodedValid(value: Json)
    requires Encode(value).Value?
    ensures Valid(Encode(value).bytes)
    ensures Encode(value).bytes[0] in {NUMBER, STRING} <==> value.Number? || value.Str?
  {
  }

  /** Null and the truth values are always encoded, containers never, and only for being containers. */
  lemma ScalarsFail(value: Json)
    ensures value.Null? || value.Bool? ==> Encode(value).Value?
    ensures Encode(value) == Failed(Unsupported) <==> value.Arr? || value.Obj?
  {
  }

  /** The tag tells the type. */
  lemma TagIsType(x: Json, y: Json)
    requires Encode(x).Value? && Encode(y).Value?
    ensures x.Number? || x.Str? || y.Number? || y.Str? ==>
              (Encode(x).bytes[0] == Encode(y).bytes[0] <==> SameType(x, y))
  {
  }

  lemma RatLengthBounds(f: Decimal)
    requires RatStringLength(f) + 1 <= MAX_INDEX_VALUE
    ensures Abs(f.num) < Pow(10, 4095) && f.den < Pow(10, 4095)
  {
    var n := Abs(f.num);
    PowMonotone(10, |Numeral(n)|, 4095);
    assert n == Digits.Value(10, Numeral(n)) < Pow(10, |Numeral(n)|);
    PowMonotone(10, 1, 4095);
    assert Pow(10, 1) == 10 * Pow(10, 0) == 10;
    if f.den != 1 {
      PowMonotone(10, |Numeral(f.den)|, 4095);
      assert f.den == Digits.Value(10, Numeral(f.den)) < Pow(10, |Numeral(f.den)|);
    }
  }

  /** A number short enough as a fraction has an exponent far inside the stored range. */
  lemma ShortIsStorable(f: Decimal)
    requires RatStringLength(f) + 1 <= MAX_INDEX_VALUE && f.num != 0
    ensures -4095 < NormalForm(Abs(f.num), f.den).exponent <= 4095
    ensures IsNormal(NormalForm(Abs(f.num), f.den))
    ensures Num.Storable(f.num, f.den)
  {
    RatLengthBounds(f);
    NormalFormCorrect(Abs(f.num), f.den);
    ExponentBounds(NormalForm(Abs(f.num), f.den), Abs(f.num), f.den, 4095);
  }

  /** The cap on the encoding never refuses a valid number. */
  lemma TaggedNumber(e: bytes)
    ensures Valid([NUMBER] + e) <==> Num.ValidNumber(e)
  {
    TaggedTail(NUMBER, e);
  }

  lemma NumberValid(f: Decimal)
    requires RatStringLength(f) + 1 <= MAX_INDEX_VALUE
    ensures Num.ValidNumber(Num.Encode(f.num, f.den))
       <==> f.num == 0 || |NormalForm(Abs(f.num), f.den).digits| <= MAX_INDEX_VALUE
  {
    if f.num != 0 {
      ShortIsStorable(f);
      Num.EncodeNormalValid(f.num < 0, NormalForm(Abs(f.num), f.den));
    }
  }

  /**
   Which numbers can be indexed. The test of the fraction's length does not bound the number of decimal
   digits: 2^6144 is written with fewer than 2050 digits, its inverse has more than 4096, and it is the
   size check behind the length test that refuses it.
   */
  lemma NumberAccepted(f: Decimal)
    ensures Encode(Number(f)).Value? <==>
              && RatStringLength(f) + 1 <= MAX_INDEX_VALUE
              && (f.num == 0 || |NormalForm(Abs(f.num), f.den).digits| <= MAX_INDEX_VALUE)
  {
    NumberEncodes(f);
    if RatStringLength(f) + 1 <= MAX_INDEX_VALUE { NumberValid(f); }
  }

  /** A whole number can be indexed exactly if it has at most 4095 digits, or 4094 behind a minus sign. */
  lemma IntegerAccepted(f: Decimal)
    requires f.den == 1
    ensures Encode(Number(f)).Value? <==> Abs(f.num) < Pow(10, if f.num < 0 then 4094 else 4095)
  {
    var n, len := Abs(f.num), if f.num < 0 then 4094 else 4095;
    NumberAccepted(f);
    NumeralLength(n, len);
    if 0 < n < Pow(10, len) {
      NormalFormCorrect(n, 1);
      WholeDigits(NormalForm(n, 1), n, len);
    }
  }

  /** Any other can be exactly if both parts of the fraction, the slash and the sign fit 4095 characters and the digits are few enough. */
  lemma FractionAccepted(f: Decimal)
    requires f.den > 1
    ensures Encode(Number(f)).Value? <==>
            && (f.num == 0 || |NormalForm(Abs(f.num), f.den).digits| <= MAX_INDEX_VALUE)
            && exists i: nat, j: nat :: Abs(f.num) < Pow(10, i) && f.den < Pow(10, j) && (if f.num < 0 then 1 else 0) + i + 1 + j <= 4095
  {
    NumberAccepted(f);
    Proper(f);
    TextsFit(Abs(f.num), f.den, if f.num < 0 then 1 else 0);
  }

  lemma Proper(f: Decimal)
    requires f.den > 1
    ensures f.num != 0
  {
    assert f.den % f.den == 0 && LowestTerms(f);
    assert f.num % f.den != 0;
  }

  lemma TextsFit(n: nat, den: nat, sign: nat)
    requires n > 0 && den > 0
    ensures sign + NatLength(n) + 1 + NatLength(den) <= 4095 <==>
            exists i: nat, j: nat :: n < Pow(10, i) && den < Pow(10, j) && sign + i + 1 + j <= 4095
  {
    var k, m := |Numeral(n)|, |Numeral(den)|;
    NumeralLength(n, k);
    NumeralLength(den, m);
    forall i: nat, j: nat | n < Pow(10, i) && den < Pow(10, j) ensures k <= i && m <= j {
      if i > 0 { NumeralLength(n, i); }
      if j > 0 { NumeralLength(den, j); }
    }
  }

  lemma NumberEncodes(f: Decimal)
    ensures Encode(Number(f)).Value? <==> RatStringLength(f) + 1 <= MAX_INDEX_VALUE && Num.ValidNumber(Num.Encode(f.num, f.den))
  {
    var raw, e := Raw(Number(f)), Num.Encode(f.num, f.den);
    RawNumber(f, raw, e);
    EncodesIfValid(Number(f), raw);
    TaggedNumber(e);
  }

  lemma RawNumber(f: Decimal, raw: bytes, e: bytes)
    requires raw == Raw(Number(f)) && e == Num.Encode(f.num, f.den)
    ensures raw == [NUMBER] + e
  {
  }

  /** A number or a string is encoded if its text is short enough and the bytes are valid. */
  lemma EncodesIfValid(value: Json, raw: bytes)
    requires (value.Number? || value.Str?) && raw == Raw(value)
    ensures Encode(value).Value? <==>
            && Valid(raw)
            && (value.Number? ==> RatStringLength(value.n) + 1 <= MAX_INDEX_VALUE)
            && (value.Str? ==> Utf8.Valid(value.s) && |value.s| + 1 <= MAX_INDEX_VALUE)
  {
  }

  /**
   The validator of cursors accepts more: a form at the ends of the exponent range is valid, but every number
   with that encoding has too long a fraction to be indexed.
   */
  lemma AcceptedNeverMade(negative: bool, f: Normal)
    requires IsNormal(f) && Num.Bounded(f) && (f.exponent <= -4095 || f.exponent > 4095)
    ensures Valid([NUMBER] + Num.EncodeNormal(negative, f))
    ensures !exists x :: Encode(x) == Value([NUMBER] + Num.EncodeNormal(negative, f))
  {
    NormalAccepted(negative, f);
    forall x ensures Encode(x) != Value([NUMBER] + Num.EncodeNormal(negative, f)) {
      NotMadeOf(x, negative, f);
    }
  }

  lemma NormalAccepted(negative: bool, f: Normal)
    requires IsNormal(f) && Num.Bounded(f)
    ensures Valid([NUMBER] + Num.EncodeNormal(negative, f))
  {
    Num.EncodeNormalValid(negative, f);
    TaggedNumber(Num.EncodeNormal(negative, f));
  }

  lemma NotMadeOf(x: Json, negative: bool, f: Normal)
    requires IsNormal(f) && Num.Bounded(f) && (f.exponent <= -4095 || f.exponent > 4095)
    ensures Encode(x) != Value([NUMBER] + Num.EncodeNormal(negative, f))
  {
    var v := [NUMBER] + Num.EncodeNormal(negative, f);
    if Encode(x) == Value(v) {
      MadeOfNumber(x, v);
      NearEncoding(x.n, negative, f);
    }
  }

  lemma MadeOfNumber(x: Json, v: bytes)
    requires Encode(x) == Value(v) && v != [] && v[0] == NUMBER
    ensures x.Number? && Raw(x) == v && RatStringLength(x.n) + 1 <= MAX_INDEX_VALUE
  {
  }

  /** What is made of a number has an exponent inside the range. */
  lemma NearEncoding(n: Decimal, negative: bool, f: Normal)
    requires IsNormal(f) && Num.Bounded(f) && Raw(Number(n)) == [NUMBER] + Num.EncodeNormal(negative, f)
    requires RatStringLength(n) + 1 <= MAX_INDEX_VALUE
    ensures -4095 < f.exponent <= 4095
  {
    var e := Num.EncodeNormal(negative, f);
    assert Raw(Number(n))[1..] == Num.Encode(n.num, n.den) && Raw(Number(n))[1..] == e;
    assert e[0] != 0x01;
    ShortIsStorable(n);
    Num.SignedOrder(n.num < 0, NormalForm(Abs(n.num), n.den), negative, f);
  }

  /** One of them: `0.1 * 10^4096`. */
  lemma LargestPower()
    ensures var f := Normal(MAX_INDEX_VALUE, [1]);
            IsNormal(f) && Num.Bounded(f) && Valid([NUMBER] + Num.EncodeNormal(false, f))
            && !exists x :: Encode(x) == Value([NUMBER] + Num.EncodeNormal(false, f))
  {
    AcceptedNeverMade(false, Normal(MAX_INDEX_VALUE, [1]));
  }

  /** Every valid string of at most 4095 bytes can be indexed; the cap on the encoding never refuses one. */
  lemma StringAccepted(s: bytes)
    ensures Encode(Json.Str(s)).Value? <==> Utf8.Valid(s) && |s| <= 4095
  {
    EncodesIfValid(Json.Str(s), Raw(Json.Str(s)));
    Str.DecodeEncode(s);
    TaggedString(Str.Encode(s));
  }

  lemma TaggedString(e: bytes)
    ensures Valid([STRING] + e) <==> |e| < MAX_ENCODED && Str.Valid(e)
  {
    TaggedTail(STRING, e);
  }

  lemma TaggedTail(tag: byte, rest: bytes)
    ensures ([tag] + rest)[0] == tag && ([tag] + rest)[1..] == rest
  {
  }

  /** Accepted values with the string tag are exactly the encodings of indexable strings. */
  lemma ValidStringExact(v: bytes)
    ensures v != [] && v[0] == STRING && Valid(v)
       <==> exists s: bytes :: Encode(Json.Str(s)) == Value(v)
  {
    if v != [] && v[0] == STRING && Valid(v) {
      var s := Str.Decode(v[1..]).value;
      Str.EncodeDecode(v[1..]);
      StringAccepted(s);
      assert v == [STRING] + v[1..];
      assert Encode(Json.Str(s)) == Value(v);
    }
  }

  /** The cap is reached: a string of 4095 zero bytes encodes to exactly as many bytes as it allows. */
  lemma CapIsTight()
    ensures exists s :: |s| == 4095 && Encode(Json.Str(s)).Value? && |Encode(Json.Str(s)).bytes| == MAX_ENCODED
  {
    var n: nat :| n == 4095;
    ZeroString(n);
    StringAccepted(ZeroBytes(n));
  }

  function ZeroBytes(n: nat): (z: bytes)
    ensures |z| == n
  {
    seq(n, _ => 0x00)
  }

  lemma {:induction false} ZeroString(n: nat)
    ensures Utf8.Valid(ZeroBytes(n)) && |Str.Encode(ZeroBytes(n))| == 2 * n + 2
  {
    if n > 0 {
      ZeroString(n - 1);
      assert ZeroBytes(n)[1..] == ZeroBytes(n - 1);
    }
  }

  // ---------------------------------------------------------------------------
  // Order and prefix freedom

  lemma TagApart(v: bytes, w: bytes)
    requires v != [] && w != [] && v[0] != w[0]
    ensures Diverge(v, w) && (Less(v, w) <==> v[0] < w[0])
  {
  }

  /** No index value is a prefix of another. */
  lemma PrefixFree(v: bytes, w: bytes)
    requires Valid(v) && Valid(w) && v != w
    ensures Diverge(v, w)
  {
    if v[0] != w[0] {
      TagApart(v, w);
    } else if v[0] == NUMBER {
      Num.NumbersDiverge(v[1..], w[1..]);
      DivergeAfterPrefix([v[0]], v[1..], w[1..]);
    } else if v[0] == STRING {
      StringsDiverge(v[1..], w[1..]);
      DivergeAfterPrefix([v[0]], v[1..], w[1..]);
    }
    assert v == [v[0]] + v[1..] && w == [w[0]] + w[1..];
  }

  lemma StringsDiverge(v: bytes, w: bytes)
    requires Str.Valid(v) && Str.Valid(w) && v != w
    ensures Diverge(v, w)
  {
    Str.EncodeDecode(v);
    Str.EncodeDecode(w);
    Str.StringOrder(Str.Decode(v).value, Str.Decode(w).value);
  }

  /** Between scalars of one type, byte order of the encodings is the order of the scalars. */
  lemma ScalarOrder(x: Json, y: Json)
    requires Encode(x).Value? && Encode(y).Value? && SameType(x, y)
    ensures x.Number? || x.Str? ==> (Less(Encode(x).bytes, Encode(y).bytes) <==> ScalarLess(x, y))
    ensures Encode(x).bytes == Encode(y).bytes <==> SameScalar(x, y)
  {
    if x.Number? {
      NumbersOrder(x.n, y.n);
    } else if x.Str? {
      StringsOrder(x.s, y.s);
    }
  }

  lemma NumbersOrder(m: Decimal, n: Decimal)
    requires Encode(Number(m)).Value? && Encode(Number(n)).Value?
    ensures Less(Encode(Number(m)).bytes, Encode(Number(n)).bytes) <==> m.num * n.den < n.num * m.den
    ensures Encode(Number(m)).bytes == Encode(Number(n)).bytes <==> m.num * n.den == n.num * m.den
  {
    NumberBytes(m);
    NumberBytes(n);
    Num.NumberOrder(m.num, m.den, n.num, n.den);
    TaggedOrder(NUMBER, Num.Encode(m.num, m.den), Num.Encode(n.num, n.den));
  }

  lemma NumberBytes(n: Decimal)
    requires Encode(Number(n)).Value?
    ensures Encode(Number(n)).bytes == [NUMBER] + Num.Encode(n.num, n.den) && Num.Storable(n.num, n.den)
  {
    if n.num != 0 { ShortIsStorable(n); }
  }

  lemma StringsOrder(s: bytes, t: bytes)
    requires Encode(Json.Str(s)).Value? && Encode(Json.Str(t)).Value?
    ensures Less(Encode(Json.Str(s)).bytes, Encode(Json.Str(t)).bytes) <==> Less(s, t)
    ensures Encode(Json.Str(s)).bytes == Encode(Json.Str(t)).bytes <==> s == t
  {
    Str.StringOrder(s, t);
    TaggedOrder(STRING, Str.Encode(s), Str.Encode(t));
  }

  lemma TaggedOrder(tag: byte, v: bytes, w: bytes)
    ensures Less([tag] + v, [tag] + w) <==> Less(v, w)
    ensures [tag] + v == [tag] + w <==> v == w
  {
    LessAfterPrefix([tag], v, w);
    assert ([tag] + v)[1..] == v && ([tag] + w)[1..] == w;
  }
}

/**
 The order-preserving byte encoding of exact decimal numbers: a sign byte, the biased
 exponent of the normal form as eight big-endian bytes, the digits shifted to 1..10 and a
 closing zero. After the sign byte a negative number has every byte complemented.
 */
module SortableNumber {
  import opened Bytes
  import opened Digits
  import opened Decimals
  import opened Sizes

  const BIAS: int := 0x8000_0000_0000_0000

  /** `uint64(exponent) ^ (1 << 63)`, big-endian */
  function ExponentWord(exponent: int): (w: bytes)
    ensures |w| == 8
  {
    FixedWidth(256, 8, (exponent + BIAS) % WORD)
  }

  predicate FitsInt64(x: int) {
    -BIAS <= x < BIAS
  }

  function Body(f: Normal): (b: bytes)
    requires IsDigits(10, f.digits)
    ensures |b| == 9 + |f.digits|
  {
    ExponentWord(f.exponent) + Terminated(f.digits)
  }

  function Complement(b: bytes): (c: bytes)
    ensures |c| == |b| && forall i {:trigger c[i]} :: 0 <= i < |b| ==> c[i] == 0xff - b[i]
  {
    seq(|b|, i requires 0 <= i < |b| => 0xff - b[i])
  }

  function EncodeNormal(negative: bool, f: Normal): (e: bytes)
    requires IsDigits(10, f.digits)
  {
    if negative then [0x00] + Complement(Body(f)) else [0x02] + Body(f)
  }

  function Encode(num: int, den: nat): (e: bytes)
    requires den > 0
  {
    if num == 0 then [0x01] else EncodeNormal(num < 0, NormalForm(Abs(num), den))
  }

  /** The exponent of the number fits the eight bytes it is stored in. */
  predicate Storable(num: int, den: nat)
    requires den > 0
  {
    num == 0 || FitsInt64(NormalForm(Abs(num), den).exponent)
  }

  // ---------------------------------------------------------------------------
  // Order

  lemma WordValue()
    ensures Pow(256, 8) == WORD
  {
    assert Pow(256, 2) == 0x1_0000 by { assert Pow(256, 1) == 256; }
    PowAdd(256, 2, 2);
    PowAdd(256, 4, 4);
  }

  lemma ExponentWordValue(x: int)
    requires FitsInt64(x)
    ensures Value(256, ExponentWord(x)) == x + BIAS
  {
    WordValue();
    assert (x + BIAS) % WORD == x + BIAS;
    FixedWidthValue(256, 8, x + BIAS);
  }

  lemma ExponentWordOrder(x: int, y: int)
    requires FitsInt64(x) && FitsInt64(y)
    ensures Less(ExponentWord(x), ExponentWord(y)) <==> x < y
    ensures ExponentWord(x) == ExponentWord(y) <==> x == y
  {
    ExponentWordValue(x);
    ExponentWordValue(y);
    var u, v := ExponentWord(x), ExponentWord(y);
    SameLengthOrder(256, u, v);
  }

  lemma BodyOrder(f: Normal, g: Normal)
    requires IsDigits(10, f.digits) && IsDigits(10, g.digits)
    requires FitsInt64(f.exponent) && FitsInt64(g.exponent)
    ensures Less(Body(f), Body(g)) <==> NormalLess(f, g)
    ensures f != g ==> Diverge(Body(f), Body(g))
  {
    var u, v := ExponentWord(f.exponent), ExponentWord(g.exponent);
    ExponentWordOrder(f.exponent, g.exponent);
    if f.exponent != g.exponent {
      DivergeOrder(u, v, Terminated(f.digits), Terminated(g.digits));
    } else {
      LessAfterPrefix(u, Terminated(f.digits), Terminated(g.digits));
      if f != g {
        TerminatedDiverge(f.digits, g.digits);
        DivergeAfterPrefix(u, Terminated(f.digits), Terminated(g.digits));
      }
    }
  }

  lemma {:induction false} ComplementOrder(a: bytes, b: bytes)
    requires Diverge(a, b)
    ensures Less(Complement(a), Complement(b)) <==> Less(b, a)
    ensures Diverge(Complement(a), Complement(b))
    decreases |a|
  {
    var x, y := Complement(a), Complement(b);
    assert a != [] && b != [];
    if a[0] == b[0] {
      assert a == [a[0]] + a[1..] && b == [b[0]] + b[1..];
      ComplementOrder(a[1..], b[1..]);
      ComplementFront(a);
      ComplementFront(b);
      DivergeAfterPrefix([x[0]], Complement(a[1..]), Complement(b[1..]));
    }
  }

  lemma ComplementFront(a: bytes)
    requires a != []
    ensures Complement(a) == [0xff - a[0]] + Complement(a[1..]) && Complement(a)[1..] == Complement(a[1..])
  {
  }

  lemma ComplementTwice(a: bytes)
    ensures Complement(Complement(a)) == a
  {
  }

  /** The order of signed normal forms. */
  predicate SignedLess(n: bool, f: Normal, m: bool, g: Normal) {
    if n then !m || NormalLess(g, f) else !m && NormalLess(f, g)
  }

  lemma SignedOrder(n: bool, f: Normal, m: bool, g: Normal)
    requires IsDigits(10, f.digits) && IsDigits(10, g.digits)
    requires FitsInt64(f.exponent) && FitsInt64(g.exponent)
    ensures Less(EncodeNormal(n, f), EncodeNormal(m, g)) <==> SignedLess(n, f, m, g)
    ensures (n == m && f == g) || Diverge(EncodeNormal(n, f), EncodeNormal(m, g))
  {
    if n == m {
      BodyOrder(f, g);
      BodyOrder(g, f);
      if n {
        LessAfterPrefix([0x00], Complement(Body(f)), Complement(Body(g)));
        if f == g {
          LessIrreflexive(Complement(Body(f)));
          LessIrreflexive(Terminated(f.digits));
        } else {
          ComplementOrder(Body(f), Body(g));
          DivergeAfterPrefix([0x00], Complement(Body(f)), Complement(Body(g)));
        }
      } else {
        LessAfterPrefix([0x02], Body(f), Body(g));
        if f != g { DivergeAfterPrefix([0x02], Body(f), Body(g)); }
      }
    }
  }

  /** Byte order is numeric order, and different numbers have encodings that are not prefixes. */
  lemma NumberOrder(m: int, p: nat, n: int, q: nat)
    requires p > 0 && DecimalDenominator(p) && Storable(m, p)
    requires q > 0 && DecimalDenominator(q) && Storable(n, q)
    ensures Less(Encode(m, p), Encode(n, q)) <==> m * q < n * p
    ensures Encode(m, p) == Encode(n, q) <==> m * q == n * p
    ensures m * q != n * p ==> Diverge(Encode(m, p), Encode(n, q))
  {
    SignOfProduct(m, q);
    SignOfProduct(n, p);
    if m == 0 || n == 0 {
      ZeroOrder(m, p, n, q);
    } else {
      var f, g := NormalForm(Abs(m), p), NormalForm(Abs(n), q);
      NonzeroOrder(m, p, f, n, q, g);
    }
  }

  lemma ZeroOrder(m: int, p: nat, n: int, q: nat)
    requires p > 0 && q > 0 && (m == 0 || n == 0)
    ensures Less(Encode(m, p), Encode(n, q)) <==> m < n
    ensures Encode(m, p) == Encode(n, q) <==> m == n
    ensures m != n ==> Diverge(Encode(m, p), Encode(n, q))
  {
    var e, f := Encode(m, p), Encode(n, q);
    assert m != n ==> e[0] != f[0];
    LessIrreflexive([0x01]);
  }

  lemma NonzeroOrder(m: int, p: nat, f: Normal, n: int, q: nat, g: Normal)
    requires m != 0 && p > 0 && DecimalDenominator(p) && f == NormalForm(Abs(m), p) && FitsInt64(f.exponent)
    requires n != 0 && q > 0 && DecimalDenominator(q) && g == NormalForm(Abs(n), q) && FitsInt64(g.exponent)
    ensures Less(EncodeNormal(m < 0, f), EncodeNormal(n < 0, g)) <==> m * q < n * p
    ensures EncodeNormal(m < 0, f) == EncodeNormal(n < 0, g) <==> m * q == n * p
    ensures m * q != n * p ==> Diverge(EncodeNormal(m < 0, f), EncodeNormal(n < 0, g))
  {
    NormalFormCorrect(Abs(m), p);
    NormalFormCorrect(Abs(n), q);
    MagnitudeOrder(f, Abs(m), p, g, Abs(n), q);
    MagnitudeOrder(g, Abs(n), q, f, Abs(m), p);
    SignedOrder(m < 0, f, n < 0, g);
    SignOfProduct(m, q);
    SignOfProduct(n, p);
    NegateProduct(m, q);
    NegateProduct(n, p);
  }

  lemma NegateProduct(m: int, q: int)
    ensures (-m) * q == -(m * q)
  {
  }

  lemma SignOfProduct(m: int, q: nat)
    requires q > 0
    ensures m > 0 ==> m * q > 0
    ensures m < 0 ==> m * q < 0
    ensures m == 0 ==> m * q == 0
  {
  }

  // ---------------------------------------------------------------------------
  // The loops of the encoder

  method EncodeSortableNumber(num: int, den: nat) returns (encoded: bytes)
    requires den > 0 && DecimalDenominator(den)
    ensures encoded == Encode(num, den)
  {
    if num == 0 {
      return [0x01];
    }
    var f := FindNormalForm(Abs(num), den);
    var body := EncodeBody(f);
    if num > 0 {
      encoded := [0x02] + body[..];
    } else {
      ComplementInPlace(body);
      encoded := [0x00] + body[..];
    }
  }

  method FindNormalForm(magnitude: nat, den: nat) returns (f: Normal)
    requires magnitude > 0 && den > 0
    ensures f == NormalForm(magnitude, den)
  {
    var twos, odd := CountFactors(2, den);
    PowPositive(2, twos);
    DivideOut(odd, Pow(2, twos));
    var fives, _ := CountFactors(5, odd);
    CoefficientPositive(magnitude, twos, fives);
    var coefficient := ScaleCoefficient(magnitude, twos, fives);
    f := DropTrailingZeros(coefficient, Max(twos, fives));
  }

  method ScaleCoefficient(magnitude: nat, twos: nat, fives: nat) returns (coefficient: nat)
    ensures coefficient == Coefficient(magnitude, twos, fives)
  {
    var scale := Max(twos, fives);
    coefficient := magnitude;
    if twos < scale {
      coefficient := coefficient * Pow(2, scale - twos);
    }
    if fives < scale {
      coefficient := coefficient * Pow(5, scale - fives);
    }
  }

  /** Divides `p` out of `n` as often as possible. */
  method CountFactors(p: nat, n: nat) returns (count: nat, rest: nat)
    requires p > 1 && n > 0
    ensures count == Multiplicity(p, n) && rest > 0 && n == Pow(p, count) * rest
  {
    count, rest := 0, n;
    while rest % p == 0
      invariant rest > 0 && n == Pow(p, count) * rest
      invariant Multiplicity(p, n) == count + Multiplicity(p, rest)
      decreases rest
    {
      QuotientSmaller(p, rest);
      TakeOut(p, count, rest, n);
      rest, count := rest / p, count + 1;
    }
  }

  method DropTrailingZeros(coefficient: nat, places: nat) returns (f: Normal)
    requires coefficient > 0
    ensures f == Stripped(coefficient, places)
  {
    var digits, scale := Numeral(coefficient), places;
    ghost var all := digits;
    while digits[|digits| - 1] == 0
      invariant digits != [] && digits[0] != 0 && IsDigits(10, digits)
      invariant StripZeros(digits) == StripZeros(all)
      invariant scale - |digits| == places - |all|
      decreases |digits|
    {
      digits, scale := digits[..|digits| - 1], scale - 1;
    }
    f := Normal(|digits| - scale, digits);
  }

  method ComplementInPlace(a: array<byte>)
    modifies a
    ensures a[..] == Complement(old(a[..]))
  {
    var i := 0;
    while i < a.Length
      invariant 0 <= i <= a.Length
      invariant forall j :: 0 <= j < i ==> a[j] == 0xff - old(a[j])
      invariant forall j :: i <= j < a.Length ==> a[j] == old(a[j])
    {
      a[i] := 0xff - a[i];
      i := i + 1;
    }
  }

  lemma TakeOut(p: nat, e: nat, n: nat, den: nat)
    requires p > 0 && n % p == 0 && den == Pow(p, e) * n
    ensures den == Pow(p, e + 1) * (n / p)
  {
    EuclidExact(p, n);
    Reassociate(Pow(p, e), p, n / p, n);
  }

  lemma Reassociate(a: nat, p: nat, m: nat, n: nat)
    requires n == p * m
    ensures a * n == (p * a) * m
  {
  }

  method EncodeBody(f: Normal) returns (body: array<byte>)
    requires IsDigits(10, f.digits)
    ensures fresh(body) && body[..] == Body(f)
  {
    body := FillBody(ExponentWord(f.exponent), f.digits);
  }

  /** The exponent word, then one byte per digit, then the closing zero. */
  method FillBody(word: bytes, digits: seq<int>) returns (body: array<byte>)
    requires |word| == 8 && IsDigits(10, digits)
    ensures fresh(body) && body[..] == word + Terminated(digits)
  {
    body := new byte[9 + |digits|](_ => 0);
    var i := 0;
    while i < 8
      invariant 0 <= i <= 8
      invariant forall j :: 0 <= j < i ==> body[j] == word[j]
      invariant body[body.Length - 1] == 0
    {
      body[i] := word[i];
      i := i + 1;
    }
    i := 0;
    while i < |digits|
      invariant 0 <= i <= |digits|
      invariant forall j :: 0 <= j < 8 ==> body[j] == word[j]
      invariant forall j :: 0 <= j < i ==> body[8 + j] == digits[j] + 1
      invariant body[body.Length - 1] == 0
    {
      body[8 + i] := digits[i] + 1;
      i := i + 1;
    }
    forall j | 0 <= j < body.Length ensures body[..][j] == (word + Terminated(digits))[j] {
      if 8 <= j < 8 + |digits| {
        assert body[8 + (j - 8)] == digits[j - 8] + 1;
      }
    }
  }

  // ---------------------------------------------------------------------------
  // Which byte strings are encodings

  predicate ValidBody(b: bytes) {
    && 10 <= |b| <= 9 + MAX_INDEX_VALUE
    && -MAX_INDEX_VALUE <= Value(256, b[..8]) - BIAS <= MAX_INDEX_VALUE
    && b[|b| - 1] == 0 && b[8] != 1 && b[|b| - 2] != 1
    && forall i :: 8 <= i < |b| - 1 ==> 1 <= b[i] <= 10
  }

  /** What follows the sign byte, complemented back if the number is negative. */
  function BodyOf(v: bytes): (b: bytes)
    requires v != []
    ensures |b| == |v| - 1
  {
    if v[0] == 0x00 then Complement(v[1..]) else v[1..]
  }

  predicate ValidNumber(v: bytes) {
    v == [0x01] || (v != [] && (v[0] == 0x00 || v[0] == 0x02) && ValidBody(BodyOf(v)))
  }

  lemma BodyOfEncode(negative: bool, f: Normal)
    requires IsDigits(10, f.digits)
    ensures EncodeNormal(negative, f)[0] == (if negative then 0x00 else 0x02)
    ensures BodyOf(EncodeNormal(negative, f)) == Body(f)
  {
    ComplementTwice(Body(f));
    assert EncodeNormal(negative, f)[1..] == if negative then Complement(Body(f)) else Body(f);
  }

  /** The sign byte and the body determine the encoding. */
  lemma EncodeOfBody(v: bytes, f: Normal)
    requires v != [] && (v[0] == 0x00 || v[0] == 0x02) && IsDigits(10, f.digits) && BodyOf(v) == Body(f)
    ensures EncodeNormal(v[0] == 0x00, f) == v
  {
    ComplementTwice(v[1..]);
    assert v == [v[0]] + v[1..];
  }

  function DecodeBody(b: bytes): (f: Normal)
    requires |b| >= 9
  {
    Normal(Value(256, b[..8]) - BIAS, seq(|b| - 9, i requires 0 <= i < |b| - 9 => (b[8 + i] as int) - 1))
  }

  /** The numbers the store is willing to index. */
  predicate Bounded(f: Normal) {
    -MAX_INDEX_VALUE <= f.exponent <= MAX_INDEX_VALUE && |f.digits| <= MAX_INDEX_VALUE
  }

  lemma DecodeEncode(f: Normal)
    requires IsNormal(f) && Bounded(f)
    ensures ValidBody(Body(f)) && DecodeBody(Body(f)) == f
  {
    var b := Body(f);
    ExponentWordValue(f.exponent);
    assert b[..8] == ExponentWord(f.exponent);
    assert DecodeBody(b).digits == f.digits;
  }

  lemma EncodeDecode(b: bytes)
    requires ValidBody(b)
    ensures IsNormal(DecodeBody(b)) && Bounded(DecodeBody(b)) && Body(DecodeBody(b)) == b
  {
    var f := DecodeBody(b);
    ExponentWordValue(f.exponent);
    SameLengthOrder(256, b[..8], ExponentWord(f.exponent));
    assert b[8..] == Terminated(f.digits);
    assert b == b[..8] + b[8..];
  }

  /** The fraction a normal form stands for. */
  function Numerator(f: Normal): nat
    requires IsDigits(10, f.digits)
  {
    if Scale(f) >= 0 then Value(10, f.digits) else Value(10, f.digits) * Pow(10, -Scale(f))
  }

  function Denominator(f: Normal): nat {
    if Scale(f) >= 0 then Pow(10, Scale(f)) else 1
  }

  lemma NormalIsNumber(f: Normal)
    requires IsNormal(f)
    ensures Numerator(f) > 0 && Denominator(f) > 0 && DecimalDenominator(Denominator(f))
    ensures NormalForm(Numerator(f), Denominator(f)) == f
  {
    var n, den, s := Numerator(f), Denominator(f), Scale(f);
    PowPositive(10, if s >= 0 then s else -s);
    PowPositive(10, |f.digits| - 1);
    LeadingDigit(10, f.digits);
    if s >= 0 {
      PowTen(s);
      assert IsDenominator(den, s, s);
    } else {
      assert IsDenominator(1, 0, 0);
      AtLeastOnce(Value(10, f.digits), Pow(10, -s));
    }
    assert Denotes(f, n, den);
    NormalFormCorrect(n, den);
    MagnitudeOrder(f, n, den, NormalForm(n, den), n, den);
  }

  /** `v` encodes `num / den`, whose normal form is within the limits. */
  ghost predicate Encodes(v: bytes, num: int, den: nat) {
    && den > 0 && DecimalDenominator(den) && v == Encode(num, den)
    && (num != 0 ==> Bounded(NormalForm(Abs(num), den)))
  }

  /** The validator accepts exactly the encodings of bounded decimals. */
  lemma ValidNumberExact(v: bytes)
    ensures ValidNumber(v) <==> exists num: int, den: nat :: Encodes(v, num, den)
  {
    if ValidNumber(v) {
      var num, den := DecodeNumber(v);
    }
    forall num: int, den: nat | Encodes(v, num, den) ensures ValidNumber(v) {
      EncodesValid(num, den);
    }
  }

  lemma DecodeNormal(v: bytes) returns (f: Normal)
    requires ValidNumber(v) && v != [0x01]
    ensures IsNormal(f) && Bounded(f) && v == EncodeNormal(v[0] == 0x00, f)
  {
    f := DecodeBody(BodyOf(v));
    EncodeDecode(BodyOf(v));
    EncodeOfBody(v, f);
  }

  lemma DecodeNumber(v: bytes) returns (num: int, den: nat)
    requires ValidNumber(v)
    ensures Encodes(v, num, den)
  {
    if v == [0x01] {
      assert IsDenominator(1, 0, 0);
      num, den := 0, 1;
    } else {
      var f := DecodeNormal(v);
      NormalIsNumber(f);
      den := Denominator(f);
      num := Numerator(f);
      if v[0] == 0x00 { num := -num; }
    }
  }

  lemma BodyValid(f: Normal)
    requires IsNormal(f) && -MAX_INDEX_VALUE <= f.exponent <= MAX_INDEX_VALUE
    ensures ValidBody(Body(f)) <==> |f.digits| <= MAX_INDEX_VALUE
  {
    if |f.digits| <= MAX_INDEX_VALUE { DecodeEncode(f); }
  }

  /** Of the forms with a fitting exponent, exactly those with few enough digits are accepted. */
  lemma EncodeNormalValid(negative: bool, f: Normal)
    requires IsNormal(f) && -MAX_INDEX_VALUE <= f.exponent <= MAX_INDEX_VALUE
    ensures ValidNumber(EncodeNormal(negative, f)) <==> |f.digits| <= MAX_INDEX_VALUE
  {
    BodyOfEncode(negative, f);
    BodyValid(f);
  }

  lemma EncodesValid(num: int, den: nat)
    requires den > 0 && Encodes(Encode(num, den), num, den)
    ensures ValidNumber(Encode(num, den))
  {
    if num != 0 {
      NormalFormCorrect(Abs(num), den);
      EncodeNormalValid(num < 0, NormalForm(Abs(num), den));
    }
  }

  /** No two valid encodings are prefixes of one another. */
  lemma NumbersDiverge(v: bytes, w: bytes)
    requires ValidNumber(v) && ValidNumber(w) && v != w
    ensures Diverge(v, w)
  {
    if v != [0x01] && w != [0x01] {
      NonzeroDiverge(v, w);
    } else {
      assert v[0] != w[0];
    }
  }

  lemma NonzeroDiverge(v: bytes, w: bytes)
    requires ValidNumber(v) && ValidNumber(w) && v != [0x01] && w != [0x01] && v != w
    ensures Diverge(v, w)
  {
    var f := DecodeNormal(v);
    var g := DecodeNormal(w);
    SignedOrder(v[0] == 0x00, f, w[0] == 0x00, g);
  }

  /** The validator's own tests and loop. */
  method CheckSortableNumber(v: bytes) returns (ok: bool)
    ensures ok <==> ValidNumber(v)
  {
    if |v| == 1 {
      assert v[0] == 0x01 ==> v == [0x01];
      return v[0] == 0x01;
    }
    if |v| < 11 || (v[0] != 0x00 && v[0] != 0x02) {
      return false;
    }
    var negative := v[0] == 0x00;
    ghost var body := BodyOf(v);
    var word := if negative then Complement(v[1..9]) else v[1..9];
    assert v[1..][..8] == v[1..9];
    assert word == body[..8];
    var exponent := Value(256, word) - BIAS;
    if exponent < -MAX_INDEX_VALUE || exponent > MAX_INDEX_VALUE || |v| - 10 > MAX_INDEX_VALUE {
      return false;
    }
    var terminator, zero := if negative then 0xff else 0x00, if negative then 0xfe else 0x01;
    assert body[|body| - 1] == if negative then 0xff - v[|v| - 1] else v[|v| - 1];
    assert body[|body| - 2] == if negative then 0xff - v[|v| - 2] else v[|v| - 2];
    assert body[8] == if negative then 0xff - v[9] else v[9];
    if v[|v| - 1] != terminator || v[9] == zero || v[|v| - 2] == zero {
      return false;
    }
    var i := 9;
    while i < |v| - 1
      invariant 9 <= i <= |v| - 1
      invariant forall j :: 8 <= j < i - 1 ==> 1 <= body[j] <= 10
    {
      assert body[i - 1] == if negative then 0xff - v[i] else v[i];
      if (!negative && (v[i] < 0x01 || v[i] > 0x0a)) || (negative && (v[i] < 0xf5 || v[i] > 0xfe)) {
        return false;
      }
      i := i + 1;
    }
    return true;
  }
}

/**
 Exact decimal numbers.

 A number is a fraction `num / den` whose denominator has no prime factor but 2 and 5,
 which is what every JSON number is. Its normal form is `0.d1 d2 ... dn * 10^e` with `d1`
 and `dn` not zero; comparing exponents first and digits second compares the numbers.
 */
module Decimals {
  import opened Bytes
  import opened Digits

  /** `0.digits * 10^exponent` */
  datatype Normal = Normal(exponent: int, digits: seq<int>)

  /** The denominators of finite decimals. */
  ghost predicate DecimalDenominator(den: nat) {
    exists twos: nat, fives: nat :: IsDenominator(den, twos, fives)
  }

  ghost predicate IsDenominator(den: nat, twos: nat, fives: nat) {
    den == Pow(2, twos) * Pow(5, fives)
  }

  predicate IsNormal(f: Normal) {
    IsDigits(10, f.digits) && f.digits != [] && f.digits[0] != 0 && f.digits[|f.digits| - 1] != 0
  }

  /** How many of the digits stand behind the decimal point; negative if zeros are missing before it. */
  function Scale(f: Normal): int {
    |f.digits| - f.exponent
  }

  /** `f` is the number `n / den`. */
  ghost predicate Denotes(f: Normal, n: nat, den: nat)
    requires IsDigits(10, f.digits)
  {
    var s := Scale(f);
    if s >= 0 then Value(10, f.digits) * den == n * Pow(10, s)
    else Value(10, f.digits) * Pow(10, -s) * den == n
  }

  /** The digits written out with `places` digits behind the decimal point. */
  function Padded(f: Normal, places: nat): (d: seq<int>)
    requires Scale(f) <= places
    ensures |d| == f.exponent + places
  {
    f.digits + Zeros(places - Scale(f))
  }

  lemma PaddedScaled(f: Normal, places: nat)
    requires IsDigits(10, f.digits) && Scale(f) <= places
    ensures IsDigits(10, Padded(f, places))
    ensures Value(10, Padded(f, places)) == Value(10, f.digits) * Pow(10, places - Scale(f))
  {
    ValueShift(10, f.digits, places - Scale(f));
  }

  lemma PaddedDenotes(f: Normal, n: nat, den: nat, places: nat)
    requires IsNormal(f) && Denotes(f, n, den) && Scale(f) <= places
    ensures IsDigits(10, Padded(f, places))
    ensures Value(10, Padded(f, places)) * den == n * Pow(10, places)
  {
    PaddedScaled(f, places);
    if Scale(f) >= 0 {
      PaddedFraction(f, n, den, places);
    } else {
      PaddedWhole(f, n, den, places);
    }
  }

  lemma PaddedFraction(f: Normal, n: nat, den: nat, places: nat)
    requires IsNormal(f) && Denotes(f, n, den) && 0 <= Scale(f) <= places
    requires IsDigits(10, Padded(f, places))
    requires Value(10, Padded(f, places)) == Value(10, f.digits) * Pow(10, places - Scale(f))
    ensures Value(10, Padded(f, places)) * den == n * Pow(10, places)
  {
    var s := Scale(f);
    PowAdd(10, s, places - s);
    ScaleUp(Value(10, f.digits), Value(10, Padded(f, places)), den, n, Pow(10, s), Pow(10, places - s), Pow(10, places));
  }

  lemma PaddedWhole(f: Normal, n: nat, den: nat, places: nat)
    requires IsNormal(f) && Denotes(f, n, den) && Scale(f) < 0
    requires IsDigits(10, Padded(f, places))
    requires Value(10, Padded(f, places)) == Value(10, f.digits) * Pow(10, places - Scale(f))
    ensures Value(10, Padded(f, places)) * den == n * Pow(10, places)
  {
    var s := Scale(f);
    PowAdd(10, -s, places);
    ScaleAll(Value(10, f.digits), Value(10, Padded(f, places)), den, n, Pow(10, -s), Pow(10, places), Pow(10, places - s));
  }

  lemma ScaleUp(v: nat, w: nat, den: nat, n: nat, s: nat, t: nat, st: nat)
    requires v * den == n * s && st == s * t && w == v * t
    ensures w * den == n * st
  {
    assert (v * t) * den == (v * den) * t;
    assert (n * s) * t == n * (s * t);
  }

  lemma ScaleAll(v: nat, w: nat, den: nat, n: nat, s: nat, t: nat, st: nat)
    requires v * s * den == n && st == s * t && w == v * st
    ensures w * den == n * t
  {
    var u := v * s;
    assert v * (s * t) == u * t;
    assert (u * t) * den == (u * den) * t;
  }

  // ---------------------------------------------------------------------------
  // Order of normal forms

  /** The order the encoding realizes: the exponent decides, then the digits. */
  predicate NormalLess(f: Normal, g: Normal) {
    f.exponent < g.exponent
    || (f.exponent == g.exponent && Less(Terminated(f.digits), Terminated(g.digits)))
  }

  /** Digits shifted to 1..10 and closed by a zero, so that a shorter one that is a prefix comes first. */
  function Terminated(d: seq<int>): (t: seq<int>)
    ensures |t| == |d| + 1
  {
    seq(|d|, i requires 0 <= i < |d| => d[i] + 1) + [0]
  }

  lemma TerminatedTail(d: seq<int>)
    requires d != []
    ensures Terminated(d)[0] == d[0] + 1 && Terminated(d)[1..] == Terminated(d[1..])
  {
  }

  /** Closed digit sequences are prefix free. */
  lemma {:induction false} TerminatedDiverge(a: seq<int>, b: seq<int>)
    requires IsDigits(10, a) && IsDigits(10, b) && a != b
    ensures Diverge(Terminated(a), Terminated(b))
    decreases |a|
  {
    var s, t := Terminated(a), Terminated(b);
    if a != [] && b != [] {
      TerminatedTail(a);
      TerminatedTail(b);
      if a[0] == b[0] {
        assert a == [a[0]] + a[1..] && b == [b[0]] + b[1..];
        TerminatedDiverge(a[1..], b[1..]);
        assert s == [s[0]] + s[1..] && t == [t[0]] + t[1..];
      } else {
        assert s[0] != t[0];
      }
    } else {
      assert s[0] != t[0];
    }
  }

  /** Closing digits without trailing zero orders them as filling up with zeros does. */
  lemma {:induction false} TerminatedOrder(a: seq<int>, b: seq<int>, m: nat)
    requires IsDigits(10, a) && IsDigits(10, b) && |a| <= m && |b| <= m
    requires a != [] ==> a[|a| - 1] != 0
    requires b != [] ==> b[|b| - 1] != 0
    ensures Less(Terminated(a), Terminated(b)) <==> Less(a + Zeros(m - |a|), b + Zeros(m - |b|))
    ensures a == b <==> a + Zeros(m - |a|) == b + Zeros(m - |b|)
    decreases m
  {
    var x, y := a + Zeros(m - |a|), b + Zeros(m - |b|);
    if a == [] && b == [] {
      LessIrreflexive(x);
      LessIrreflexive(Terminated(a));
    } else if a == [] {
      ZerosBelow(b, m);
      assert x == Zeros(m);
      LessIrreflexive(x);
    } else if b == [] {
      ZerosBelow(a, m);
      assert y == Zeros(m);
      LessAsymmetric(y, x);
    } else {
      TerminatedTail(a);
      TerminatedTail(b);
      HeadOff(a, Zeros(m - |a|));
      HeadOff(b, Zeros(m - |b|));
      TerminatedOrder(a[1..], b[1..], m - 1);
    }
  }

  lemma HeadOff(a: seq<int>, z: seq<int>)
    requires a != []
    ensures (a + z)[1..] == a[1..] + z && (a + z)[0] == a[0]
    ensures a == [a[0]] + a[1..] && a + z == [a[0]] + (a[1..] + z)
  {
  }

  lemma {:induction false} ZerosBelow(b: seq<int>, m: nat)
    requires IsDigits(10, b) && b != [] && b[|b| - 1] != 0 && |b| <= m
    ensures Less(Zeros(m), b + Zeros(m - |b|))
    decreases m
  {
    var y := b + Zeros(m - |b|);
    if b[0] == 0 {
      ZerosBelow(b[1..], m - 1);
      assert Zeros(m)[1..] == Zeros(m - 1) && y[1..] == b[1..] + Zeros(m - |b|);
    }
  }

  /** Comparing normal forms compares the numbers. */
  lemma MagnitudeOrder(f: Normal, m: nat, p: nat, g: Normal, n: nat, q: nat)
    requires IsNormal(f) && Denotes(f, m, p) && p > 0
    requires IsNormal(g) && Denotes(g, n, q) && q > 0
    ensures NormalLess(f, g) <==> m * q < n * p
    ensures f == g <==> m * q == n * p
  {
    var places := Max(0, Max(Scale(f), Scale(g)));
    PaddedDenotes(f, m, p, places);
    PaddedDenotes(g, n, q, places);
    PowPositive(10, places);
    CrossMultiply(Value(10, Padded(f, places)), m, p, Value(10, Padded(g, places)), n, q, Pow(10, places));
    PaddedOrder(f, g, places);
  }

  lemma PaddedOrder(f: Normal, g: Normal, places: nat)
    requires IsNormal(f) && IsNormal(g) && Scale(f) <= places && Scale(g) <= places
    requires IsDigits(10, Padded(f, places)) && IsDigits(10, Padded(g, places))
    ensures NormalLess(f, g) <==> Value(10, Padded(f, places)) < Value(10, Padded(g, places))
    ensures f == g <==> Value(10, Padded(f, places)) == Value(10, Padded(g, places))
  {
    var x, y := Padded(f, places), Padded(g, places);
    if f.exponent < g.exponent {
      LongerIsLarger(10, x, y);
    } else if g.exponent < f.exponent {
      LongerIsLarger(10, y, x);
    } else {
      SameLengthOrder(10, x, y);
      TerminatedOrder(f.digits, g.digits, |x|);
    }
  }

  function Abs(n: int): nat {
    if n < 0 then -n else n
  }

  function Max(a: int, b: int): int {
    if a < b then b else a
  }

  lemma CrossMultiply(v: nat, m: nat, p: nat, w: nat, n: nat, q: nat, t: nat)
    requires v * p == m * t && w * q == n * t && t > 0 && p > 0 && q > 0
    ensures v < w <==> m * q < n * p
    ensures v == w <==> m * q == n * p
  {
    var d := p * q;
    ScaleUp(v, v * q, p, m, t, q, t * q);
    ScaleUp(w, w * p, q, n, t, p, t * p);
    Regroup(v, q, p, m, t);
    Regroup(w, p, q, n, t);
    assert d > 0;
    Cancel(v, w, d);
    Cancel(m * q, n * p, t);
  }

  lemma Regroup(v: nat, q: nat, p: nat, m: nat, t: nat)
    ensures (v * q) * p == v * (p * q) == v * (q * p)
    ensures m * (t * q) == (m * q) * t
  {
  }

  lemma Cancel(a: nat, b: nat, c: nat)
    requires c > 0
    ensures a < b <==> a * c < b * c
    ensures a == b <==> a * c == b * c
  {
    if a < b {
      assert (a + 1) * c <= b * c;
    } else if b < a {
      assert (b + 1) * c <= a * c;
    }
  }

  /** A number with at most `len` digits above and below the fraction bar has a small exponent. */
  lemma ExponentBounds(f: Normal, n: nat, den: nat, len: int)
    requires IsNormal(f) && Denotes(f, n, den) && len >= 0
    requires 0 < n < Pow(10, len) && 0 < den < Pow(10, len)
    ensures -len < f.exponent <= len
  {
    var places := Max(len, Max(len - f.exponent, Scale(f)));
    PaddedDenotes(f, n, den, places);
    var x := Padded(f, places);
    var v := Value(10, x);
    PowPositive(10, places);
    if x != [] { LeadingDigit(10, x); }
    if f.exponent > len {
      PowMonotone(10, len + places, |x| - 1);
      PowAdd(10, len, places);
      TooLarge(v, den, n, Pow(10, places), Pow(10, len));
    } else if f.exponent <= -len {
      PowMonotone(10, |x|, places - len);
      PowAdd(10, len, places - len);
      TooSmall(v, den, n, Pow(10, places - len), Pow(10, len));
    }
  }

  lemma TooLarge(v: nat, den: nat, n: nat, t: nat, u: nat)
    requires 0 < n < u && den > 0 && t > 0 && v >= u * t
    ensures v * den != n * t
  {
    AtLeastOnce(den, v);
    Cancel(n, u, t);
  }

  lemma TooSmall(v: nat, den: nat, n: nat, t: nat, u: nat)
    requires 0 < n && den < u && v < t
    ensures v * den != n * (u * t)
  {
    SmallProduct(v, t, den, u);
    AtLeastOnce(n, u * t);
  }

  lemma SmallProduct(a: nat, b: nat, c: nat, d: nat)
    requires a < b && c < d
    ensures a * c < d * b
  {
    assert a * c <= a * d;
    assert (a + 1) * d <= b * d;
  }

  // ---------------------------------------------------------------------------
  // Finding the normal form

  /** How often `p` divides `n`. */
  function Multiplicity(p: nat, n: nat): nat
    requires p > 1 && n > 0
    decreases n
  {
    if n % p == 0 then
      QuotientSmaller(p, n);
      1 + Multiplicity(p, n / p)
    else 0
  }

  lemma QuotientSmaller(p: nat, n: nat)
    requires p > 1 && n > 0 && n % p == 0
    ensures 0 < n / p < n
  {
    var q := n / p;
    EuclidExact(p, n);
    DoubleAtLeast(p, q);
  }

  lemma EuclidExact(p: nat, n: nat)
    requires p > 0 && n % p == 0
    ensures n == p * (n / p)
  {
  }

  lemma DoubleAtLeast(p: nat, q: nat)
    requires p > 1
    ensures p * q >= q + q
  {
    assert p * q == (p - 2) * q + 2 * q;
  }

  lemma {:induction false} OddPowers(b: nat)
    ensures Pow(5, b) % 2 == 1
  {
    if b > 0 { OddPowers(b - 1); }
  }

  lemma {:induction false} FactorTwos(a: nat, b: nat)
    ensures Pow(2, a) * Pow(5, b) > 0
    ensures Multiplicity(2, Pow(2, a) * Pow(5, b)) == a
  {
    PowPositive(5, b);
    if a == 0 {
      OddPowers(b);
    } else {
      FactorTwos(a - 1, b);
      MulAssoc(2, Pow(2, a - 1), Pow(5, b));
      DivideOut(Pow(2, a - 1) * Pow(5, b), 2);
    }
  }

  lemma {:induction false} FactorFives(b: nat)
    ensures Pow(5, b) > 0
    ensures Multiplicity(5, Pow(5, b)) == b
  {
    if b > 0 {
      FactorFives(b - 1);
      DivideOut(Pow(5, b - 1), 5);
    }
  }

  lemma DivideOut(a: nat, p: nat)
    requires p > 0
    ensures (p * a) / p == a && (p * a) % p == 0
  {
    var q, r := (p * a) / p, (p * a) % p;
    assert p * a == p * q + r;
    assert q < a ==> p * (q + 1) <= p * a;
    assert a < q ==> p * (a + 1) <= p * q;
  }

  /** The coefficient over `10^scale`, before trailing zeros are dropped. */
  function Coefficient(n: nat, twos: nat, fives: nat): nat {
    var scale := Max(twos, fives);
    n * Pow(2, scale - twos) * Pow(5, scale - fives)
  }

  lemma CoefficientValue(n: nat, twos: nat, fives: nat, den: nat)
    requires den == Pow(2, twos) * Pow(5, fives)
    ensures Coefficient(n, twos, fives) * den == n * Pow(10, Max(twos, fives))
  {
    var scale := Max(twos, fives);
    PowAdd(2, scale - twos, twos);
    PowAdd(5, scale - fives, fives);
    PowTen(scale);
    FillUp(n, Pow(2, scale - twos), Pow(5, scale - fives), Pow(2, twos), Pow(5, fives),
           Pow(2, scale), Pow(5, scale), Pow(10, scale), Coefficient(n, twos, fives), den);
  }

  lemma FillUp(n: nat, a: nat, b: nat, c: nat, d: nat, x: nat, y: nat, z: nat, k: nat, den: nat)
    requires x == a * c && y == b * d && z == x * y && k == n * a * b && den == c * d
    ensures k * den == n * z
  {
    MulSwap(a, b, c, d);
    MulAssoc(n, a, b);
    MulAssoc(n, a * b, c * d);
  }

  lemma CoefficientPositive(n: nat, twos: nat, fives: nat)
    requires n > 0
    ensures Coefficient(n, twos, fives) > 0
  {
    var scale := Max(twos, fives);
    var a, b := Pow(2, scale - twos), Pow(5, scale - fives);
    PowPositive(2, scale - twos);
    PowPositive(5, scale - fives);
    AtLeastOnce(n, a);
    AtLeastOnce(n * a, b);
  }

  /** Drops trailing zeros. */
  function StripZeros(d: seq<int>): (r: seq<int>)
    requires IsDigits(10, d) && d != [] && d[0] != 0
    ensures r != [] && r[0] != 0 && r[|r| - 1] != 0 && r <= d && IsDigits(10, r)
    ensures d == r + Zeros(|d| - |r|)
  {
    if d[|d| - 1] == 0 then
      var r := StripZeros(d[..|d| - 1]);
      assert d == d[..|d| - 1] + [0];
      r
    else d
  }

  /** The normal form of `n / den`. */
  function NormalForm(n: nat, den: nat): (f: Normal)
    requires n > 0 && den > 0
    ensures IsDigits(10, f.digits)
  {
    var twos := Multiplicity(2, den);
    PowPositive(2, twos);
    var rest := den / Pow(2, twos);
    if rest == 0 then Normal(0, [])
    else
      var fives := Multiplicity(5, rest);
      CoefficientPositive(n, twos, fives);
      Stripped(Coefficient(n, twos, fives), Max(twos, fives))
  }

  lemma NormalFormCorrect(n: nat, den: nat)
    requires n > 0 && den > 0 && DecimalDenominator(den)
    ensures IsNormal(NormalForm(n, den)) && Denotes(NormalForm(n, den), n, den)
  {
    var twos: nat, fives: nat :| IsDenominator(den, twos, fives);
    Factored(den, twos, fives);
    CoefficientValue(n, twos, fives, den);
    CoefficientPositive(n, twos, fives);
    StripDenotes(Coefficient(n, twos, fives), Max(twos, fives), n, den);
  }

  /** A normal form denotes the fraction exactly if it is the one found. */
  lemma NormalFormUnique(f: Normal, n: nat, den: nat)
    requires IsNormal(f) && n > 0 && den > 0 && DecimalDenominator(den)
    ensures Denotes(f, n, den) <==> f == NormalForm(n, den)
  {
    NormalFormCorrect(n, den);
    if Denotes(f, n, den) { MagnitudeOrder(f, n, den, NormalForm(n, den), n, den); }
  }

  /** A whole number has no more significant digits than its text has. */
  lemma WholeDigits(f: Normal, n: nat, len: nat)
    requires IsNormal(f) && Denotes(f, n, 1) && 0 < n < Pow(10, len) && len > 0
    ensures |f.digits| <= len
  {
    PowMonotone(10, 1, len);
    assert Pow(10, 1) == 10 * Pow(10, 0);
    ExponentBounds(f, n, 1, len);
    if Scale(f) > 0 { LastDigit(f.digits, n, Scale(f)); }
  }

  lemma LastDigit(d: seq<int>, n: nat, s: nat)
    requires IsDigits(10, d) && d != [] && s > 0 && Value(10, d) == n * Pow(10, s)
    ensures d[|d| - 1] == 0
  {
    OnlyTens(Value(10, d[..|d| - 1]), d[|d| - 1], n, Pow(10, s - 1));
  }

  lemma OnlyTens(high: nat, last: int, n: nat, q: nat)
    requires high * 10 + last == n * (10 * q) && 0 <= last < 10
    ensures last == 0
  {
    var p := n * q;
    assert n * (10 * q) == 10 * p;
  }

  lemma Factored(den: nat, twos: nat, fives: nat)
    requires IsDenominator(den, twos, fives) && den > 0
    ensures Multiplicity(2, den) == twos && Pow(2, twos) > 0 && Pow(5, fives) > 0
    ensures den / Pow(2, twos) == Pow(5, fives) && Multiplicity(5, Pow(5, fives)) == fives
  {
    FactorTwos(twos, fives);
    FactorFives(fives);
    PowPositive(2, twos);
    DivideOut(Pow(5, fives), Pow(2, twos));
  }

  /** The coefficient over `10^scale`, with trailing zeros dropped. */
  function Stripped(c: nat, scale: nat): Normal
    requires c > 0
  {
    var digits := Numeral(c);
    var stripped := StripZeros(digits);
    Normal(|stripped| - (scale - (|digits| - |stripped|)), stripped)
  }

  lemma StripDenotes(c: nat, scale: nat, n: nat, den: nat)
    requires c > 0 && c * den == n * Pow(10, scale)
    ensures IsNormal(Stripped(c, scale)) && Denotes(Stripped(c, scale), n, den)
  {
    var digits := Numeral(c);
    var stripped := StripZeros(digits);
    var dropped := |digits| - |stripped|;
    ValueShift(10, stripped, dropped);
    Unshift(Value(10, stripped), c, den, n, scale, dropped);
  }

  /** Taking zeros off the end of `c` takes as much off its scale. */
  lemma Unshift(v: nat, c: nat, den: nat, n: nat, scale: nat, dropped: nat)
    requires c * den == n * Pow(10, scale) && c == v * Pow(10, dropped)
    ensures if scale >= dropped then v * den == n * Pow(10, scale - dropped) else v * Pow(10, dropped - scale) * den == n
  {
    PowPositive(10, scale);
    PowPositive(10, dropped);
    if scale >= dropped {
      PowAdd(10, scale - dropped, dropped);
      Unscale(v, c, den, n, Pow(10, scale - dropped), Pow(10, dropped), Pow(10, scale));
    } else {
      PowAdd(10, dropped - scale, scale);
      UnscaleAll(v, c, den, n, Pow(10, dropped - scale), Pow(10, scale), Pow(10, dropped));
    }
  }

  lemma Unscale(v: nat, w: nat, den: nat, n: nat, s: nat, t: nat, st: nat)
    requires t > 0 && w * den == n * st && st == s * t && w == v * t
    ensures v * den == n * s
  {
    assert (v * den) * t == (v * t) * den;
    assert (n * s) * t == n * (s * t);
    Cancel(v * den, n * s, t);
  }

  lemma UnscaleAll(v: nat, w: nat, den: nat, n: nat, s: nat, t: nat, st: nat)
    requires t > 0 && w * den == n * t && st == s * t && w == v * st
    ensures v * s * den == n
  {
    var u := v * s;
    assert v * (s * t) == u * t;
    assert (u * t) * den == (u * den) * t;
    Cancel(u * den, n, t);
  }

}

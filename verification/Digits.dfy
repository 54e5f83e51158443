/**
 Positional notation in any base: decimal coefficients and big-endian integers.
 */
module Digits {
  import opened Bytes

  function Pow(b: nat, e: nat): nat {
    if e == 0 then 1 else b * Pow(b, e - 1)
  }

  lemma {:induction false} PowAdd(b: nat, x: nat, y: nat)
    ensures Pow(b, x + y) == Pow(b, x) * Pow(b, y)
  {
    if x > 0 {
      PowAdd(b, x - 1, y);
      Associate(b, Pow(b, x - 1), Pow(b, y));
    }
  }

  lemma Associate(a: nat, b: nat, c: nat)
    ensures a * (b * c) == (a * b) * c
  {
  }

  lemma {:induction false} PowPositive(b: nat, e: nat)
    requires b > 0
    ensures Pow(b, e) > 0
  {
    if e > 0 { PowPositive(b, e - 1); }
  }

  lemma {:induction false} PowMonotone(b: nat, x: nat, y: nat)
    requires b > 0 && x <= y
    ensures Pow(b, x) <= Pow(b, y)
    decreases y - x
  {
    if x < y {
      PowMonotone(b, x, y - 1);
      AtLeastOnce(b, Pow(b, y - 1));
    }
  }

  lemma AtLeastOnce(b: nat, p: nat)
    requires b > 0
    ensures p <= b * p
  {
    assert b * p == (b - 1) * p + p;
  }

  lemma MulSwap(a: nat, b: nat, p: nat, q: nat)
    ensures (a * b) * (p * q) == (a * p) * (b * q)
  {
    assert (a * b) * (p * q) == a * (b * (p * q)) == a * (p * (b * q));
  }

  lemma MulAssoc(a: nat, b: nat, c: nat)
    ensures (a * b) * c == a * (b * c)
    ensures (a * b) * c == a * (c * b)
  {
  }

  lemma {:induction false} PowTen(e: nat)
    ensures Pow(10, e) == Pow(2, e) * Pow(5, e)
  {
    if e > 0 {
      PowTen(e - 1);
      MulSwap(2, 5, Pow(2, e - 1), Pow(5, e - 1));
    }
  }

  /** Every element is a digit of the base. */
  predicate IsDigits(base: nat, d: seq<int>) {
    forall i :: 0 <= i < |d| ==> 0 <= d[i] < base
  }

  /** The number the digits denote, most significant digit first. */
  function Value(base: nat, d: seq<int>): (v: nat)
    requires IsDigits(base, d)
    ensures v < Pow(base, |d|)
  {
    if d == [] then 0
    else
      var n := |d| - 1;
      assert IsDigits(base, d[..n]);
      var high := Value(base, d[..n]);
      MulStep(base, high, Pow(base, n), d[n]);
      high * base + d[n]
  }

  lemma MulStep(base: nat, high: nat, bound: nat, low: int)
    requires high < bound && 0 <= low < base
    ensures 0 <= high * base + low < base * bound
  {
    assert (high + 1) * base <= bound * base;
  }

  function Zeros(n: nat): (z: seq<int>)
    ensures |z| == n && forall i :: 0 <= i < n ==> z[i] == 0
  {
    seq(n, _ => 0)
  }

  /** Appending zeros scales. */
  lemma {:induction false} ValueShift(base: nat, d: seq<int>, n: nat)
    requires base > 0 && IsDigits(base, d)
    ensures IsDigits(base, d + Zeros(n))
    ensures Value(base, d + Zeros(n)) == Value(base, d) * Pow(base, n)
  {
    var z := d + Zeros(n);
    if n == 0 {
      assert z == d;
    } else {
      ValueShift(base, d, n - 1);
      assert z[..|z| - 1] == d + Zeros(n - 1);
      assert z[|z| - 1] == 0;
      MulAssoc(Value(base, d), Pow(base, n - 1), base);
    }
  }

  lemma SplitStep(base: nat, v: nat, p: nat, w: nat, low: int)
    ensures (v * p + w) * base + low == v * (base * p) + (w * base + low)
  {
    MulAssoc(v, p, base);
    assert (v * p + w) * base == (v * p) * base + w * base;
  }

  lemma {:induction false} ValueSplit(base: nat, a: seq<int>, b: seq<int>)
    requires base > 0 && IsDigits(base, a) && IsDigits(base, b)
    ensures IsDigits(base, a + b)
    ensures Value(base, a + b) == Value(base, a) * Pow(base, |b|) + Value(base, b)
    decreases |b|
  {
    if b == [] {
      assert a + b == a;
    } else {
      var n := |b| - 1;
      ValueSplit(base, a, b[..n]);
      assert (a + b)[..|a + b| - 1] == a + b[..n];
      SplitStep(base, Value(base, a), Pow(base, n), Value(base, b[..n]), b[n]);
    }
  }

  /** Among numerals of one length, lexicographic order is numeric order. */
  lemma {:induction false} SameLengthOrder(base: nat, a: seq<int>, b: seq<int>)
    requires base > 0 && IsDigits(base, a) && IsDigits(base, b) && |a| == |b|
    ensures Less(a, b) <==> Value(base, a) < Value(base, b)
    ensures a == b <==> Value(base, a) == Value(base, b)
    decreases |a|
  {
    if a != [] {
      var x, y, n := a[1..], b[1..], |a| - 1;
      assert a == [a[0]] + x && b == [b[0]] + y;
      ValueSplit(base, [a[0]], x);
      ValueSplit(base, [b[0]], y);
      SingleDigit(base, a[0]);
      SingleDigit(base, b[0]);
      SameLengthOrder(base, x, y);
      LeadOrder(a[0], b[0], Pow(base, n), Value(base, x), Value(base, y));
    }
  }

  /** The first digit decides, then the rest. */
  lemma LeadOrder(x: nat, y: nat, p: nat, u: nat, v: nat)
    requires u < p && v < p
    ensures x * p + u < y * p + v <==> x < y || (x == y && u < v)
    ensures x * p + u == y * p + v <==> x == y && u == v
  {
    if x < y {
      LeadDecides(x, y, p, u, v);
    } else if y < x {
      LeadDecides(y, x, p, v, u);
    }
  }

  lemma SingleDigit(base: nat, d: int)
    requires 0 <= d < base
    ensures Value(base, [d]) == d
  {
    assert [d][..0] == [];
  }

  lemma LeadDecides(x: nat, y: nat, p: nat, u: nat, v: nat)
    requires x < y && u < p
    ensures x * p + u < y * p + v
  {
    assert (x + 1) * p <= y * p;
  }

  /** A numeral without leading zero is as large as its length says. */
  lemma LeadingDigit(base: nat, d: seq<int>)
    requires base > 0 && IsDigits(base, d) && d != [] && d[0] != 0
    ensures Pow(base, |d| - 1) <= Value(base, d)
  {
    var lead: nat, rest := d[0], d[1..];
    assert d == [lead] + rest;
    ValueSplit(base, [lead], rest);
    SingleDigit(base, lead);
    AtLeastOnce(lead, Pow(base, |rest|));
  }

  /** Without leading zeros a longer numeral is larger. */
  lemma LongerIsLarger(base: nat, a: seq<int>, b: seq<int>)
    requires base > 0 && IsDigits(base, a) && IsDigits(base, b)
    requires |a| < |b| && b[0] != 0
    ensures Value(base, a) < Value(base, b)
  {
    LeadingDigit(base, b);
    PowMonotone(base, |a|, |b| - 1);
  }

  /** The decimal text of a natural number, as digits. */
  function Numeral(n: nat): (d: seq<int>)
    ensures IsDigits(10, d) && d != [] && Value(10, d) == n
    ensures n > 0 ==> d[0] != 0
  {
    if n < 10 then
      SingleDigit(10, n);
      [n]
    else
      var d := Numeral(n / 10);
      assert (d + [n % 10])[..|d|] == d;
      d + [n % 10]
  }

  /** How long the text of a number is: at most `k` digits exactly if it is below `10^k`. */
  lemma NumeralLength(n: nat, k: nat)
    requires k > 0
    ensures |Numeral(n)| <= k <==> n < Pow(10, k)
  {
    var d := Numeral(n);
    if |d| <= k {
      PowMonotone(10, |d|, k);
    } else {
      LeadingDigit(10, d);
      PowMonotone(10, k, |d| - 1);
    }
  }

  /** `n` digits, most significant first, of `x` modulo `base` to the `n`: big-endian storage. */
  function FixedWidth(base: nat, n: nat, x: nat): (d: seq<int>)
    requires base > 0
    ensures IsDigits(base, d) && |d| == n
  {
    seq(n, i requires 0 <= i < n => PowPositive(base, n - 1 - i); x / Pow(base, n - 1 - i) % base)
  }

  lemma {:induction false} FixedWidthValue(base: nat, n: nat, x: nat)
    requires base > 0 && x < Pow(base, n)
    ensures Value(base, FixedWidth(base, n, x)) == x
  {
    if n > 0 {
      var d := FixedWidth(base, n, x);
      DivBound(base, x, Pow(base, n - 1));
      FixedWidthValue(base, n - 1, x / base);
      FixedWidthHigh(base, n, x);
      assert Pow(base, 0) == 1;
      assert d[n - 1] == x % base;
    }
  }

  lemma FixedWidthHigh(base: nat, n: nat, x: nat)
    requires base > 0 && n > 0
    ensures FixedWidth(base, n, x)[..n - 1] == FixedWidth(base, n - 1, x / base)
  {
    var high, next := FixedWidth(base, n, x), FixedWidth(base, n - 1, x / base);
    forall i | 0 <= i < n - 1 ensures high[i] == next[i] {
      HighAt(base, n, x, i);
    }
    SameFront(high, next);
  }

  lemma SameFront(a: seq<int>, b: seq<int>)
    requires |b| <= |a| && forall i :: 0 <= i < |b| ==> a[i] == b[i]
    ensures a[..|b|] == b
  {
  }

  lemma DigitAt(base: nat, n: nat, x: nat, i: nat)
    requires base > 0 && i < n
    ensures Pow(base, n - 1 - i) > 0 && FixedWidth(base, n, x)[i] == x / Pow(base, n - 1 - i) % base
  {
    PowPositive(base, n - 1 - i);
  }

  lemma HighAt(base: nat, n: nat, x: nat, i: nat)
    requires base > 0 && i < n - 1
    ensures FixedWidth(base, n, x)[i] == FixedWidth(base, n - 1, x / base)[i]
  {
    var e: nat := n - 2 - i;
    DigitAt(base, n, x, i);
    DigitAt(base, n - 1, x / base, i);
    HighDigit(base, e, x);
  }

  lemma HighDigit(base: nat, e: nat, x: nat)
    requires base > 0
    ensures Pow(base, e) > 0 && Pow(base, e + 1) > 0
    ensures x / Pow(base, e + 1) % base == (x / base) / Pow(base, e) % base
  {
    PowPositive(base, e);
    PowPositive(base, e + 1);
    DivDiv(x, base, Pow(base, e));
  }

  lemma DivDiv(x: nat, b: nat, p: nat)
    requires b > 0 && p > 0
    ensures b * p > 0 && x / (b * p) == (x / b) / p
  {
    var y, t := Euclid(x, b);
    var q, r := Euclid(y, p);
    Nested(b, p, q, r, y, t, x);
  }

  lemma Euclid(x: nat, d: nat) returns (q: nat, r: nat)
    requires d > 0
    ensures q == x / d && x == d * q + r && r < d
  {
    q, r := x / d, x % d;
  }

  lemma Nested(b: nat, p: nat, q: nat, r: nat, y: nat, t: nat, x: nat)
    requires x == b * y + t && t < b && y == p * q + r && r < p
    ensures b * p > 0 && x / (b * p) == q
  {
    RemainderFits(b, p, r, t);
    Regroup(b, p, q, r, y, t, x);
    QuotientUnique(x, b * p, q, b * r + t);
  }

  lemma RemainderFits(b: nat, p: nat, r: nat, t: nat)
    requires r < p && t < b
    ensures b * r + t < b * p && b * p > 0
  {
    assert b * (r + 1) <= b * p;
  }

  lemma Regroup(b: nat, p: nat, q: nat, r: nat, y: nat, t: nat, x: nat)
    requires y == p * q + r && x == b * y + t
    ensures x == (b * p) * q + (b * r + t)
  {
    assert b * (p * q) == (b * p) * q;
    assert b * (p * q + r) == b * (p * q) + b * r;
  }

  lemma QuotientUnique(x: nat, d: nat, q: nat, r: nat)
    requires d > 0 && x == d * q + r && r < d
    ensures x / d == q
  {
    var k := x / d;
    assert x == d * k + x % d;
    assert k < q ==> d * (k + 1) <= d * q;
    assert q < k ==> d * (q + 1) <= d * k;
  }

  lemma DivBound(base: nat, x: nat, p: nat)
    requires base > 0
    ensures x < base * p ==> x / base < p
    ensures x == (x / base) * base + x % base
  {
    assert x / base >= p ==> (x / base) * base >= p * base;
  }
}

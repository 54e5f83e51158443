/** JSON values as the decoder delivers them, with numbers kept exact. */
module Json {
  import opened Bytes
  import opened Decimals

  /** `num / den` */
  datatype Fraction = Fraction(num: int, den: nat)

  /** What `big.Rat` holds for a JSON number: a fraction in lowest terms that is a finite decimal. */
  type Decimal = f: Fraction | f.den > 0 && DecimalDenominator(f.den) && LowestTerms(f) witness Zero()

  ghost predicate LowestTerms(f: Fraction) {
    forall k: nat {:trigger f.num % k, f.den % k} :: k > 1 && f.num % k == 0 ==> f.den % k != 0
  }

  function Zero(): (f: Fraction)
    ensures f.den > 0 && DecimalDenominator(f.den) && LowestTerms(f)
  {
    assert IsDenominator(1, 0, 0);
    Fraction(0, 1)
  }

  datatype Json =
    | Null
    | Bool(b: bool)
    | Number(n: Decimal)
    | Str(s: bytes)
    | Arr(items: seq<Json>)
    | Obj(fields: map<bytes, Json>)
}

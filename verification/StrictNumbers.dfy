// Which numbers the strict checks let through, said of the numbers' values.
module StrictNumbers {
  import opened Prelude
  import opened Utf8
  import opened Decimals
  import opened Jcs
  import opened JcsRoundTrip
  import opened StrictJson

  // Integers up to here are exact in a double: 2^53 - 1.
  const BOUND := 9007199254740991.0

  // What a finite float is worth.
  function Worth(f: GoFloat): real
    requires FiniteFloat(f)
  {
    match f
    case ZeroFloat(_) => 0.0
    case Finite(negative, mantissa, exp) =>
      TrimScientific(mantissa);
      DecimalValue(DecimalOfFloat(negative, mantissa, exp))
  }

  predicate WholeNumber(x: real) {
    x == x.Floor as real
  }

  // A number with a whole value must be in the range; a json.Number only if its
  // text has no point or exponent.
  ghost predicate Interoperable(v: GoValue) {
    match v
    case Nil => true
    case Boolean(_) => true
    case Text(s) => Valid(s)
    case Number(parsed, plain) =>
      parsed.Some? && FiniteFloat(parsed.value) && (plain ==> -BOUND <= Worth(parsed.value) <= BOUND)
    case Float64(f) => FiniteFloat(f) && (WholeNumber(Worth(f)) ==> -BOUND <= Worth(f) <= BOUND)
    case Integer(i) => -BOUND <= i as real <= BOUND
    case Slice(items) => forall i | 0 <= i < |items| :: Interoperable(items[i])
    case Map(members) => forall k | k in members :: Valid(k) && Interoperable(members[k])
    case Other => false
  }

  // ----- whole values

  lemma TenMultiple(n: int)
    ensures (10 * n) % 10 == 0
  {
  }

  lemma {:induction false} Pow10Whole(n: nat)
    ensures Pow10(n) == IntPow10(n) as real && IntPow10(n) >= 1
    ensures n > 0 ==> IntPow10(n) % 10 == 0
  {
    if n == 0 {
      Pow10Zero();
    } else {
      hide Pow10;
      Pow10Whole(n - 1);
      Pow10Next(n - 1);
      TenMultiple(IntPow10(n - 1));
    }
  }

  lemma ScaledUp(d: nat, e: nat)
    ensures Scaled(d, e) == (d * IntPow10(e)) as real
  {
    Pow10Whole(e);
    hide Pow10, IntPow10;
  }

  lemma Undo(d: real, x: real, y: real)
    requires x * y == 1.0
    ensures (d * x) * y == d
  {
    Reassociate(d, x, y);
  }

  lemma WholeProduct(k: int, p: int)
    ensures (k * p) as real == (k as real) * (p as real)
  {
  }

  // Undoing a negative exponent.
  lemma ScaledDown(d: nat, e: int, k: int)
    requires e >= 0 && Scaled(d, -e) == k as real
    ensures d == k * IntPow10(e)
  {
    hide Pow10, IntPow10;
    Pow10Add(-e, e);
    Pow10Zero();
    Pow10Whole(e);
    Undo(d as real, Pow10(-e), Pow10(e));
    WholeProduct(k, IntPow10(e));
    hide Scaled;
    SameWhole(d, k * IntPow10(e));
  }

  lemma SameWhole(a: int, b: int)
    requires a as real == b as real
    ensures a == b
  {
  }

  lemma Multiple(k: int, p: int)
    requires p % 10 == 0
    ensures (k * p) % 10 == 0
  {
    var q := p / 10;
    assert k * p == 10 * (k * q);
    TenMultiple(k * q);
  }

  lemma LastDigit(s: string)
    requires s != "" && AllDigits(s) && s[|s| - 1] != '0'
    ensures DigitsValue(s) % 10 != 0
  {
  }

  // Trimmed digits make a whole number exactly when none is behind the point.
  lemma WholeExactly(digits: string, exp: int)
    requires AllDigits(digits) && digits != "" && digits[|digits| - 1] != '0'
    ensures WholeNumber(Scaled(DigitsValue(digits), exp + 1 - |digits|)) <==> |digits| <= exp + 1
  {
    var d, e := DigitsValue(digits), exp + 1 - |digits|;
    LastDigit(digits);
    hide DigitsValue, Scaled;
    if e >= 0 {
      ScaledUp(d, e);
    } else if WholeNumber(Scaled(d, e)) {
      var k := Scaled(d, e).Floor;
      ScaledDown(d, -e, k);
      Pow10Whole(-e);
      Multiple(k, IntPow10(-e));
    }
  }

  lemma WholeNegated(x: real)
    ensures WholeNumber(-x) <==> WholeNumber(x)
  {
    if WholeNumber(x) {
      assert -x == (-x.Floor) as real;
    }
    if WholeNumber(-x) {
      assert x == (-(-x).Floor) as real;
    }
  }

  lemma IntegralExactly(f: GoFloat)
    requires FiniteFloat(f)
    ensures Integral(f) <==> WholeNumber(Worth(f))
    ensures Magnitude(f) == if Worth(f) < 0.0 then -Worth(f) else Worth(f)
  {
    match f
    case ZeroFloat(_) => assert 0.0 == 0 as real;
    case Finite(negative, mantissa, exp) =>
      TrimScientific(mantissa);
      var digits := TrimZeros(mantissa);
      hide TrimZeros;
      WholeExactly(digits, exp);
      ScaledPositive(DigitsValue(digits), exp + 1 - |digits|);
      hide Scaled, DigitsValue, WholeNumber;
      WholeNegated(Scaled(DigitsValue(digits), exp + 1 - |digits|));
  }

  lemma ScaledPositive(d: nat, e: int)
    ensures Scaled(d, e) >= 0.0
  {
  }

  // The strict checks let through exactly the interoperable values.
  lemma {:induction false} StrictExactly(v: GoValue)
    ensures Strict(v) <==> Interoperable(v)
    decreases v
  {
    match v
    case Number(parsed, _) =>
      if parsed.Some? && FiniteFloat(parsed.value) {
        IntegralExactly(parsed.value);
      }
    case Float64(f) =>
      if FiniteFloat(f) {
        IntegralExactly(f);
      }
    case Slice(items) =>
      forall i | 0 <= i < |items| ensures Strict(items[i]) <==> Interoperable(items[i]) {
        StrictExactly(items[i]);
      }
    case Map(members) =>
      forall k | k in members ensures Strict(members[k]) <==> Interoperable(members[k]) {
        StrictExactly(members[k]);
      }
    case _ =>
  }
}

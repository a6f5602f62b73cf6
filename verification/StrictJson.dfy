// strictJCS of receiptcore/jcs.go on values without sharing or cycles: the
// checks of validateJSONValue, then the canonicalizer.
module StrictJson {
  import opened Prelude
  import opened Utf8
  import opened Decimals
  import opened Jcs

  const MAX_SAFE := 9007199254740991

  // |f| for a finite float.
  function Magnitude(f: GoFloat): real
    requires FiniteFloat(f)
  {
    match f
    case ZeroFloat(_) => 0.0
    case Finite(_, mantissa, exp) =>
      TrimScientific(mantissa);
      DecimalValue(DecimalOfFloat(false, mantissa, exp))
  }

  // math.Trunc(x) == x
  predicate Integral(f: GoFloat)
    requires FiniteFloat(f)
  {
    f.Finite? ==> |TrimZeros(f.mantissa)| <= f.exp + 1
  }

  predicate SafeFloat(f: GoFloat) {
    FiniteFloat(f) && (Integral(f) ==> Magnitude(f) <= MAX_SAFE as real)
  }

  predicate Strict(v: GoValue) {
    match v
    case Nil => true
    case Boolean(_) => true
    case Text(s) => Valid(s)
    case Number(parsed, plain) =>
      parsed.Some? && FiniteFloat(parsed.value) && (plain ==> Magnitude(parsed.value) <= MAX_SAFE as real)
    case Float64(f) => SafeFloat(f)
    case Integer(i) => -MAX_SAFE <= i <= MAX_SAFE
    case Slice(items) => forall i | 0 <= i < |items| :: Strict(items[i])
    case Map(members) => forall k | k in members :: Valid(k) && Strict(members[k])
    case Other => false
  }

  lemma {:induction false} StrictIsWritable(v: GoValue)
    requires Strict(v)
    ensures Writable(v)
    decreases v
  {
    match v
    case Slice(items) =>
      forall i | 0 <= i < |items| ensures Writable(items[i]) {
        StrictIsWritable(items[i]);
      }
    case Map(members) =>
      forall k | k in members ensures Valid(k) && Writable(members[k]) {
        StrictIsWritable(members[k]);
      }
    case _ =>
  }

  function StrictJcs(v: GoValue): (r: Option<string>)
    ensures r.Some? <==> Strict(v)
  {
    if Strict(v) then
      StrictIsWritable(v);
      Some(Canon(v))
    else None
  }
}

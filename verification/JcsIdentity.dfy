// Canonical texts are equal exactly for equal values, and canonicalising what
// was parsed from a canonical text gives the text back.
module JcsIdentity {
  import opened Prelude
  import opened Decimals
  import opened Jcs
  import opened JsonReader
  import opened JcsRoundTrip

  lemma ReadTextOfCanon(v: GoValue)
    requires Writable(v)
    ensures ReadText(Canon(v)) == Some(Denote(v))
  {
    ReadCanon(v, "");
    assert Canon(v) + "" == Canon(v);
  }

  // Decoding into Go's generic values. A number becomes the float that
  // json.Number.Float64 parses it to, which is all write looks at.
  function Decode(parse: Decimal -> GoFloat, j: Json): GoValue {
    match j
    case JNull => Nil
    case JBool(b) => Boolean(b)
    case JString(s) => Text(s)
    case JNumber(n) => Float64(parse(n))
    case JArray(items) => Slice(seq(|items|, i requires 0 <= i < |items| => Decode(parse, items[i])))
    case JObject(members) => Map(map k | k in members :: Decode(parse, members[k]))
  }

  // What `parse` yields has `n` as its shortest decimal again. An integer the
  // parser rounds fails this.
  predicate Kept(parse: Decimal -> GoFloat, n: Decimal) {
    FiniteFloat(parse(n)) && DenoteFloat(parse(n)) == n
  }

  // Every number of `j` is kept.
  predicate Survives(parse: Decimal -> GoFloat, j: Json) {
    match j
    case JNumber(n) => Kept(parse, n)
    case JArray(items) => forall i | 0 <= i < |items| :: Survives(parse, items[i])
    case JObject(members) => forall k | k in members :: Survives(parse, members[k])
    case _ => true
  }

  lemma FloatTextIsOfDecimal(f: GoFloat, g: GoFloat)
    requires FiniteFloat(f) && FiniteFloat(g) && DenoteFloat(f) == DenoteFloat(g)
    ensures NumberText(f) == NumberText(g)
  {
    hide TrimZeros, Itoa, Scientific;
    if f.Finite? {
      SameDigitsSameText(f.negative, f.mantissa, g.mantissa, f.exp);
    }
  }

  lemma SameDigitsSameText(negative: bool, m: string, m': string, exp: int)
    requires Scientific(m) && Scientific(m') && TrimZeros(m) == TrimZeros(m')
    ensures EsNumber(negative, m, exp) == EsNumber(negative, m', exp)
  {
    hide TrimZeros, Itoa;
    EsNumberIsLayout(negative, m, exp);
    EsNumberIsLayout(negative, m', exp);
  }

  lemma IntTextIsOfDecimal(i: Int64, g: GoFloat)
    requires FiniteFloat(g) && DenoteFloat(g) == DecimalOfInt(i)
    ensures FormatInt(i) == NumberText(g)
  {
    if i != 0 {
      Int64Digits(i);
      IntegerBranchesAgree(i);
      FloatTextIsOfDecimal(Finite(i < 0, Itoa(Abs(i)), |Itoa(Abs(i))| - 1), g);
    }
  }

  lemma {:induction false} RecanonicalizeIdentity(parse: Decimal -> GoFloat, v: GoValue)
    requires Writable(v) && Survives(parse, Denote(v))
    ensures var w := Decode(parse, Denote(v)); Writable(w) && Canon(w) == Canon(v)
    decreases v, 1, 0
  {
    var w := Decode(parse, Denote(v));
    match v
    case Number(parsed, _) => FloatTextIsOfDecimal(parsed.value, w.f);
    case Float64(f) => FloatTextIsOfDecimal(f, w.f);
    case Integer(i) => IntTextIsOfDecimal(i, w.f);
    case Slice(items) =>
      forall i | 0 <= i < |items|
        ensures Writable(w.items[i]) && Canon(w.items[i]) == Canon(items[i])
      {
        assert w.items[i] == Decode(parse, Denote(items[i]));
        RecanonicalizeIdentity(parse, items[i]);
      }
      ItemsAgree(v, w, 0);
    case Map(members) =>
      forall k | k in members
        ensures Writable(w.members[k]) && Canon(w.members[k]) == Canon(members[k])
      {
        RecanonicalizeIdentity(parse, members[k]);
      }
      assert w.members.Keys == members.Keys;
      MembersAgree(v, w, SortedKeys(members.Keys), 0);
    case _ =>
  }

  lemma {:induction false} ItemsAgree(v: GoValue, w: GoValue, i: nat)
    requires v.Slice? && w.Slice? && Writable(v) && Writable(w)
    requires |v.items| == |w.items| && i <= |v.items|
    requires forall k :: 0 <= k < |v.items| ==> Canon(w.items[k]) == Canon(v.items[k])
    ensures CanonItems(w, i) == CanonItems(v, i)
    decreases |v.items| - i
  {
    if i < |v.items| {
      ItemsAgree(v, w, i + 1);
    }
  }

  lemma {:induction false} MembersAgree(v: GoValue, w: GoValue, keys: seq<string>, i: nat)
    requires v.Map? && w.Map? && Writable(v) && Writable(w)
    requires forall k <- keys :: k in v.members && k in w.members && Canon(w.members[k]) == Canon(v.members[k])
    requires i <= |keys|
    ensures CanonMembers(w, keys, i) == CanonMembers(v, keys, i)
    decreases |keys| - i
  {
    if i < |keys| {
      MembersAgree(v, w, keys, i + 1);
    }
  }

  // A parser that rounds nothing, to compare values through.
  function Exactly(n: Decimal): GoFloat {
    match n
    case Zero => ZeroFloat(false)
    case Dec(negative, digits, exp) => if Scientific(digits) then Finite(negative, digits, exp) else NaN
  }

  lemma TrimIdempotent(m: string)
    requires Scientific(m)
    ensures TrimZeros(TrimZeros(m)) == TrimZeros(m) && Scientific(TrimZeros(m))
  {
    TrimScientific(m);
  }

  lemma {:induction false} ExactlySurvives(v: GoValue)
    requires Writable(v)
    ensures Survives(Exactly, Denote(v))
    decreases v
  {
    match v
    case Number(parsed, _) => if parsed.value.Finite? { TrimIdempotent(parsed.value.mantissa); }
    case Float64(f) => if f.Finite? { TrimIdempotent(f.mantissa); }
    case Integer(i) => if i != 0 { TrimIdempotent(Itoa(Abs(i))); }
    case Slice(items) =>
      forall i | 0 <= i < |items| ensures Survives(Exactly, Denote(v).items[i]) {
        ExactlySurvives(items[i]);
      }
    case Map(members) =>
      forall k | k in members ensures Survives(Exactly, Denote(v).members[k]) {
        ExactlySurvives(members[k]);
      }
    case _ =>
  }

  // Two Go values have the same canonical text exactly when they stand for the
  // same JSON value.
  lemma CanonEqualExactly(v: GoValue, w: GoValue)
    requires Writable(v) && Writable(w)
    ensures Canon(v) == Canon(w) <==> Denote(v) == Denote(w)
  {
    ReadTextOfCanon(v);
    ReadTextOfCanon(w);
    ExactlySurvives(v);
    ExactlySurvives(w);
    RecanonicalizeIdentity(Exactly, v);
    RecanonicalizeIdentity(Exactly, w);
  }

  // A decoded value that still stands for `j` has kept every number of it.
  lemma {:induction false} DecodedSurvives(parse: Decimal -> GoFloat, j: Json)
    requires Writable(Decode(parse, j)) && Denote(Decode(parse, j)) == j
    ensures Survives(parse, j)
    decreases j
  {
    var w := Decode(parse, j);
    match j
    case JArray(items) =>
      forall i | 0 <= i < |items| ensures Survives(parse, items[i]) {
        assert Writable(w.items[i]) && Denote(w).items[i] == Denote(w.items[i]);
        DecodedSurvives(parse, items[i]);
      }
    case JObject(members) =>
      forall k | k in members ensures Survives(parse, members[k]) {
        assert Writable(w.members[k]) && Denote(w).members[k] == Denote(w.members[k]);
        DecodedSurvives(parse, members[k]);
      }
    case _ =>
  }

  // Canonicalising a decoded canonical text gives the text back exactly when
  // every number in it survives the parser.
  lemma DecodedTextExactly(parse: Decimal -> GoFloat, v: GoValue)
    requires Writable(v)
    ensures var w := Decode(parse, Denote(v)); Writable(w) && Canon(w) == Canon(v) <==> Survives(parse, Denote(v))
  {
    var w := Decode(parse, Denote(v));
    if Survives(parse, Denote(v)) {
      RecanonicalizeIdentity(parse, v);
    } else if Writable(w) && Canon(w) == Canon(v) {
      CanonEqualExactly(w, v);
      DecodedSurvives(parse, Denote(v));
    }
  }
}

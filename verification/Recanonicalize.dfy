// CanonicalizeJSON of jcs/jcs.go: canonicalising raw text.
module Recanonicalize {
  import opened Prelude
  import opened Utf8
  import opened Decimals
  import opened Jcs
  import opened JsonReader
  import opened JcsRoundTrip
  import opened JcsIdentity
  import opened SurrogateScan
  import opened CanonText
  import opened StrictJson

  // ValidateJSONText.
  predicate Acceptable(raw: string) {
    Valid(raw) && !Scan(raw, false)
  }

  // The first value of the text decides; the decoder leaves the rest unread.
  function CanonicalText(parse: Decimal -> GoFloat, raw: string): (r: Option<string>) {
    if !Acceptable(raw) then None
    else match ReadValue(raw)
      case None => None
      case Some((j, _)) =>
        var v := Decode(parse, j);
        if Writable(v) then Some(Canon(v)) else None
  }

  method CanonicalizeJSON(parse: Decimal -> GoFloat, raw: string) returns (r: Option<string>)
    ensures r == CanonicalText(parse, raw)
  {
    if !Valid(raw) {
      return None;
    }
    var lone := HasLoneSurrogateEscape(raw);
    if lone {
      return None;
    }
    match ReadValue(raw)
    case None => return None;
    case Some((j, _)) =>
      var text := Canonicalize(Decode(parse, j));
      return match text case Ok(s) => Some(s) case Err(_) => None;
  }

  lemma CanonDecoded(parse: Decimal -> GoFloat, v: GoValue)
    requires Writable(v)
    ensures var w := Decode(parse, Denote(v)); CanonicalText(parse, Canon(v)) == if Writable(w) then Some(Canon(w)) else None
  {
    hide Canon, Writable, Decode, Denote, Valid, Scan;
    CanonIsText(v);
    ReadCanon(v, "");
    assert Canon(v) + "" == Canon(v);
  }

  // Canonicalising a canonical text gives it back exactly when every number in
  // it survives the parser.
  lemma RecanonicalizeExactly(parse: Decimal -> GoFloat, v: GoValue)
    requires Writable(v)
    ensures CanonicalText(parse, Canon(v)) == Some(Canon(v)) <==> Survives(parse, Denote(v))
  {
    hide CanonicalText, Canon, Writable, Decode, Denote, Survives;
    CanonDecoded(parse, v);
    DecodedTextExactly(parse, v);
  }

  // ----- what strconv promises

  // The shortest decimal of a float parses to a float of that decimal.
  predicate Shortest(parse: Decimal -> GoFloat, f: GoFloat) {
    FiniteFloat(f) && Kept(parse, DenoteFloat(f))
  }

  // Whatever is parsed is a float with a shortest decimal, and integers of at
  // most 53 bits are exact.
  ghost predicate Faithful(parse: Decimal -> GoFloat) {
    && (forall n :: FiniteFloat(parse(n)) ==> Shortest(parse, parse(n)))
    && (forall i :: -MAX_SAFE <= i <= MAX_SAFE ==> Kept(parse, DecimalOfInt(i)))
  }

  // They are consistent: the parser that rounds nothing keeps both.
  lemma FaithfulParserExists()
    ensures Faithful(Exactly)
  {
    forall n | FiniteFloat(Exactly(n)) ensures Shortest(Exactly, Exactly(n)) {
      if n.Dec? {
        TrimIdempotent(n.digits);
      }
    }
    forall i | -MAX_SAFE <= i <= MAX_SAFE ensures Kept(Exactly, DecimalOfInt(i)) {
      if i != 0 {
        TrimIdempotent(Itoa(Abs(i)));
      }
    }
  }

  // Every float of `v` is one the parser can produce.
  ghost predicate OfParser(parse: Decimal -> GoFloat, v: GoValue) {
    match v
    case Number(parsed, _) => parsed.Some? && FiniteFloat(parsed.value) ==> Shortest(parse, parsed.value)
    case Float64(f) => FiniteFloat(f) ==> Shortest(parse, f)
    case Slice(items) => forall i | 0 <= i < |items| :: OfParser(parse, items[i])
    case Map(members) => forall k | k in members :: OfParser(parse, members[k])
    case _ => true
  }

  lemma {:induction false} StrictSurvives(parse: Decimal -> GoFloat, v: GoValue)
    requires Faithful(parse) && OfParser(parse, v) && Strict(v) && Writable(v)
    ensures Survives(parse, Denote(v))
    decreases v
  {
    match v
    case Slice(items) =>
      forall i | 0 <= i < |items| ensures Survives(parse, Denote(v).items[i]) {
        StrictSurvives(parse, items[i]);
      }
    case Map(members) =>
      forall k | k in members ensures Survives(parse, Denote(v).members[k]) {
        StrictSurvives(parse, members[k]);
      }
    case _ =>
  }

  // The canonical text of a value the strict checks let through is a fixed
  // point.
  lemma StrictRecanonicalizes(parse: Decimal -> GoFloat, v: GoValue)
    requires Faithful(parse) && OfParser(parse, v) && Strict(v)
    ensures Writable(v) && CanonicalText(parse, Canon(v)) == Some(Canon(v))
  {
    StrictIsWritable(v);
    hide Strict, CanonicalText, Canon, OfParser, Faithful;
    StrictSurvives(parse, v);
    RecanonicalizeExactly(parse, v);
  }

  lemma {:induction false} DecodedKept(parse: Decimal -> GoFloat, j: Json)
    requires Faithful(parse) && Writable(Decode(parse, j))
    ensures Survives(parse, Denote(Decode(parse, j)))
    decreases j
  {
    var w := Decode(parse, j);
    match j
    case JArray(items) =>
      forall i | 0 <= i < |items| ensures Survives(parse, Denote(w).items[i]) {
        assert Writable(w.items[i]) && w.items[i] == Decode(parse, items[i]);
        DecodedKept(parse, items[i]);
      }
    case JObject(members) =>
      forall k | k in members ensures Survives(parse, Denote(w).members[k]) {
        assert Writable(w.members[k]) && w.members[k] == Decode(parse, members[k]);
        DecodedKept(parse, members[k]);
      }
    case _ =>
  }

  // Canonicalising is idempotent on every text it accepts.
  lemma CanonicalTextIdempotent(parse: Decimal -> GoFloat, raw: string)
    requires Faithful(parse)
    ensures var r := CanonicalText(parse, raw); r.Some? ==> CanonicalText(parse, r.value) == r
  {
    if CanonicalText(parse, raw).Some? {
      var j := ReadValue(raw).value.0;
      hide Canon, Writable, Decode, Faithful;
      DecodedKept(parse, j);
      RecanonicalizeExactly(parse, Decode(parse, j));
    }
  }

  // ----- text behind the first value

  // A comma or a bracket behind a value makes the text malformed, and is never
  // seen.
  lemma RestIgnored(parse: Decimal -> GoFloat, v: GoValue, rest: string)
    requires Writable(v) && Terminated(rest)
    ensures ReadText(Canon(v) + rest).Some? <==> rest == ""
    ensures CanonicalText(parse, Canon(v) + rest) == if Acceptable(rest) then CanonicalText(parse, Canon(v)) else None
  {
    hide Canon, Writable, Decode, Denote, Valid, Scan;
    CanonClear(v);
    ValidAppend(Canon(v), rest);
    CanonDecoded(parse, v);
    ReadCanon(v, rest);
  }

  // ----- an integer the parser rounds

  lemma {:induction false} ItoaOfDigits(s: string)
    requires s != "" && AllDigits(s) && s[0] != '0'
    ensures Itoa(DigitsValue(s)) == s && DigitsValue(s) > 0
  {
    var init, d := s[..|s| - 1], DigitOf(s[|s| - 1]);
    if init == "" {
      assert DigitsValue(init) == 0;
    } else {
      ItoaOfDigits(init);
      assert (10 * DigitsValue(init) + d) / 10 == DigitsValue(init) && (10 * DigitsValue(init) + d) % 10 == d;
    }
    assert s == init + [DigitChar(d)];
  }

  lemma {:induction false} DigitsThen(s: string, c: char, t: string)
    requires AllDigits(s) && IsDigit(c) && t == s + [c]
    ensures AllDigits(t) && DigitsValue(t) == 10 * DigitsValue(s) + DigitOf(c)
  {
    assert t[..|s|] == s;
  }

  lemma TwoTo53AndOne()
    ensures DigitsValue("9007199254740993") == 9007199254740993
  {
    hide DigitsValue;
    assert DigitsValue("") == 0 by {
      NoDigits();
    }
    DigitsThen("", '9', "9");
    DigitsThen("9", '0', "90");
    DigitsThen("90", '0', "900");
    DigitsThen("900", '7', "9007");
    DigitsThen("9007", '1', "90071");
    DigitsThen("90071", '9', "900719");
    DigitsThen("900719", '9', "9007199");
    DigitsThen("9007199", '2', "90071992");
    DigitsThen("90071992", '5', "900719925");
    DigitsThen("900719925", '4', "9007199254");
    DigitsThen("9007199254", '7', "90071992547");
    DigitsThen("90071992547", '4', "900719925474");
    DigitsThen("900719925474", '0', "9007199254740");
    DigitsThen("9007199254740", '9', "90071992547409");
    DigitsThen("90071992547409", '9', "900719925474099");
    DigitsThen("900719925474099", '3', "9007199254740993");
  }

  lemma NoDigits()
    ensures DigitsValue("") == 0
  {
  }

  lemma LastDigitKept(s: string)
    requires s != "" && s[|s| - 1] != '0'
    ensures TrimZeros(s) == s
  {
  }

  lemma TwoTo53AndOneDenotes()
    ensures Denote(Integer(9007199254740993)) == JNumber(Dec(false, "9007199254740993", 15))
    ensures Scientific("9007199254740992")
    ensures DenoteFloat(Finite(false, "9007199254740992", 15)) == Dec(false, "9007199254740992", 15)
  {
    hide Itoa, DigitsValue, TrimZeros;
    TwoTo53AndOne();
    ItoaOfDigits("9007199254740993");
    LastDigitKept("9007199254740993");
    LastDigitKept("9007199254740992");
  }

  lemma TwoTo53AndOneRounded(parse: Decimal -> GoFloat)
    requires parse(Dec(false, "9007199254740993", 15)) == Finite(false, "9007199254740992", 15)
    ensures var j := Denote(Integer(9007199254740993)); FiniteFloat(parse(j.n)) && !Kept(parse, j.n)
  {
    TwoTo53AndOneDenotes();
    hide Denote, DenoteFloat;
    assert "9007199254740993"[15] != "9007199254740992"[15];
  }

  // A number the parser rounds is not given back.
  lemma RoundedChanges(parse: Decimal -> GoFloat, v: GoValue)
    requires Writable(v) && Denote(v).JNumber? && FiniteFloat(parse(Denote(v).n)) && !Kept(parse, Denote(v).n)
    ensures CanonicalText(parse, Canon(v)).Some? && CanonicalText(parse, Canon(v)) != Some(Canon(v))
  {
    assert Decode(parse, Denote(v)) == Float64(parse(Denote(v).n));
    hide Denote, Canon, CanonicalText, Kept;
    CanonDecoded(parse, v);
    RecanonicalizeExactly(parse, v);
  }

  // 2^53 + 1, read as the nearest double, comes back as 2^53.
  lemma TwoTo53AndOneChanges(parse: Decimal -> GoFloat)
    requires parse(Dec(false, "9007199254740993", 15)) == Finite(false, "9007199254740992", 15)
    ensures var text := Canon(Integer(9007199254740993)); CanonicalText(parse, text).Some? && CanonicalText(parse, text) != Some(text)
  {
    TwoTo53AndOneRounded(parse);
    hide Canon, CanonicalText, Kept;
    RoundedChanges(parse, Integer(9007199254740993));
  }
}

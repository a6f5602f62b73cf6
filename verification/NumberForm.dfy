// The one text RFC 8785 gives a number: section 3.2.2.3 refers to the
// Number::toString of ECMAScript.
module NumberForm {
  import opened Decimals

  // Plain digits from 10^-6 up to but not including 10^21.
  predicate PlainRange(exp: int) {
    -6 <= exp < 21
  }

  // A JSON number of the value `n` with nothing superfluous: no leading zero but
  // a single one, no zero at the end of a fraction, an exponent exactly outside
  // the plain range, and then a single non-zero digit before the point.
  predicate Spells(raw: RawNumber, n: Decimal)
    requires n.Dec?
  {
    && raw.WellFormed() && Normalize(raw) == n
    && (raw.whole[0] == '0' ==> |raw.whole| == 1)
    && (raw.frac != "" ==> raw.frac[|raw.frac| - 1] != '0')
    && (if PlainRange(n.exp) then raw.exp == 0 else |raw.whole| == 1 && raw.whole[0] != '0')
  }

  // An exponent is written with a lower-case e and a sign.
  ghost predicate EsText(t: string, n: Decimal) {
    match n
    case Zero => t == "0"
    case Dec(_, _, exp) => exists raw :: Spells(raw, n) && t == Print(raw, !PlainRange(exp))
  }

  // ----- the pieces are determined

  lemma NormalizeParts(raw: RawNumber)
    requires Normalize(raw).Dec?
    ensures var all := raw.whole + raw.frac; var lead := DropZeros(all);
      lead != "" && Normalize(raw) == Dec(raw.negative, TrimZeros(lead), |raw.whole| - 1 - (|all| - |lead|) + raw.exp)
  {
  }

  // The digits with the zeros in front of them and behind.
  lemma PiecesOf(raw: RawNumber, n: Decimal) returns (z: nat, t: nat)
    requires n.Dec? && Spells(raw, n)
    ensures raw.whole + raw.frac == Zeros(z) + (n.digits + Zeros(t))
    ensures n.digits != "" && n.digits[0] != '0' && n.digits[|n.digits| - 1] != '0'
    ensures n.negative == raw.negative && n.exp == |raw.whole| - 1 - z + raw.exp
  {
    NormalizeParts(raw);
    hide Normalize, DropZeros, TrimZeros, Zeros;
    var all := raw.whole + raw.frac;
    var lead := DropZeros(all);
    z, t := |all| - |lead|, |lead| - |TrimZeros(lead)|;
  }

  // Without a leading zero the digits start the whole part.
  lemma WholeStarts(raw: RawNumber, n: Decimal)
    requires n.Dec? && Spells(raw, n) && raw.whole[0] != '0'
    ensures n.exp == |raw.whole| - 1 + raw.exp && n.digits != "" && n.negative == raw.negative
    ensures raw.frac != "" ==> raw.whole + raw.frac == n.digits
    ensures raw.frac == "" ==> |n.digits| <= |raw.whole| && raw.whole == n.digits + Zeros(|raw.whole| - |n.digits|)
  {
    var z, t := PiecesOf(raw, n);
    var all, lead := raw.whole + raw.frac, n.digits + Zeros(t);
    hide Normalize, Zeros;
    assert all[0] == raw.whole[0];
    FirstIsNoZero(z, lead, all);
    LastIsNoZero(n.digits, t, all);
    assert raw.frac != "" ==> all[|all| - 1] == raw.frac[|raw.frac| - 1];
    assert raw.frac == "" ==> all == raw.whole;
  }

  lemma FirstIsNoZero(z: nat, s: string, t: string)
    requires t == Zeros(z) + s && t != "" && t[0] != '0'
    ensures z == 0 && t == s
  {
    assert t[0] == (Zeros(z) + s)[0];
  }

  lemma LastIsNoZero(digits: string, z: nat, s: string)
    requires s == digits + Zeros(z) && s != ""
    ensures s[|s| - 1] != '0' ==> z == 0 && s == digits
  {
    assert z > 0 ==> s[|s| - 1] == Zeros(z)[z - 1] == '0';
  }

  // With one, the digits end the fraction.
  lemma FractionEnds(raw: RawNumber, n: Decimal)
    requires n.Dec? && Spells(raw, n) && raw.whole[0] == '0'
    ensures n.exp < 0 && raw.exp == 0 && raw.whole == "0" && raw.frac == Zeros(-1 - n.exp) + n.digits
    ensures n.negative == raw.negative && n.digits != ""
  {
    var z, t := PiecesOf(raw, n);
    var all, lead := raw.whole + raw.frac, n.digits + Zeros(t);
    hide Normalize, Zeros;
    assert raw.whole == "0" && all[0] == '0' && lead[0] == n.digits[0];
    assert z == 0 ==> all == lead;
    assert |all| == z + |lead| && raw.frac != "";
    assert all[|all| - 1] == raw.frac[|raw.frac| - 1] == lead[|lead| - 1];
    LastIsNoZero(n.digits, t, lead);
    FractionOf(raw.frac, z, lead);
  }

  lemma FractionOf(frac: string, z: nat, lead: string)
    requires z > 0 && "0" + frac == Zeros(z) + lead
    ensures frac == Zeros(z - 1) + lead
  {
    assert frac == ("0" + frac)[1..];
    assert (Zeros(z) + lead)[1..] == Zeros(z - 1) + lead;
  }

  lemma SpellsUnique(raw: RawNumber, raw': RawNumber, n: Decimal)
    requires n.Dec? && Spells(raw, n) && Spells(raw', n)
    ensures raw == raw'
  {
    SpellingIs(raw, n);
    SpellingIs(raw', n);
  }

  // The spelling, computed from the value.
  function Spelling(n: Decimal): RawNumber
    requires n.Dec? && n.digits != ""
  {
    var k := |n.digits|;
    if !PlainRange(n.exp) then RawNumber(n.negative, n.digits[..1], n.digits[1..], n.exp)
    else if n.exp < 0 then RawNumber(n.negative, "0", Zeros(-1 - n.exp) + n.digits, 0)
    else if k <= n.exp + 1 then RawNumber(n.negative, n.digits + Zeros(n.exp + 1 - k), "", 0)
    else RawNumber(n.negative, n.digits[..n.exp + 1], n.digits[n.exp + 1..], 0)
  }

  lemma SpellingIs(raw: RawNumber, n: Decimal)
    requires n.Dec? && Spells(raw, n)
    ensures n.digits != "" && raw == Spelling(n)
  {
    if raw.whole[0] == '0' {
      FractionEnds(raw, n);
    } else {
      WholeStarts(raw, n);
      hide Normalize;
      WholeCut(raw, n);
    }
  }

  lemma WholeCut(raw: RawNumber, n: Decimal)
    requires n.Dec? && n.digits != "" && n.exp == |raw.whole| - 1 + raw.exp && n.negative == raw.negative && raw.whole != ""
    requires if PlainRange(n.exp) then raw.exp == 0 else |raw.whole| == 1
    requires raw.frac != "" ==> raw.whole + raw.frac == n.digits
    requires raw.frac == "" ==> |n.digits| <= |raw.whole| && raw.whole == n.digits + Zeros(|raw.whole| - |n.digits|)
    ensures raw == Spelling(n)
  {
    var w := |raw.whole|;
    if raw.frac != "" {
      assert n.digits[..w] == raw.whole && n.digits[w..] == raw.frac;
    } else if !PlainRange(n.exp) {
      assert Zeros(w - |n.digits|) == "";
      assert n.digits[..1] == raw.whole && n.digits[1..] == raw.frac;
    }
  }

  // ----- esNumber writes it, and nothing else is

  lemma LayoutSpells(negative: bool, mantissa: string, exp: int)
    requires Scientific(mantissa)
    ensures Spells(Layout(negative, mantissa, exp), DecimalOfFloat(negative, mantissa, exp))
  {
    TrimScientific(mantissa);
    LayoutNormalizes(negative, mantissa, exp);
    hide Normalize, TrimZeros, Zeros, Scientific;
    LayoutTidy(negative, mantissa, exp);
    hide Layout;
  }

  lemma LayoutTidy(negative: bool, mantissa: string, exp: int)
    requires Scientific(mantissa)
    ensures var raw := Layout(negative, mantissa, exp);
      && (raw.whole[0] == '0' ==> |raw.whole| == 1)
      && (raw.frac != "" ==> raw.frac[|raw.frac| - 1] != '0')
      && (if PlainRange(exp) then raw.exp == 0 else |raw.whole| == 1 && raw.whole[0] != '0')
  {
    TrimScientific(mantissa);
    hide TrimZeros, Scientific;
    var digits, n := TrimZeros(mantissa), exp + 1;
    assert n > 0 ==> (digits + Zeros(if n > |digits| then n - |digits| else 0))[0] == digits[0];
    assert 0 < n < |digits| ==> digits[..n][0] == digits[0];
  }

  lemma EsNumberExactly(negative: bool, mantissa: string, exp: int, t: string)
    requires Scientific(mantissa)
    ensures t == EsNumber(negative, mantissa, exp) <==> EsText(t, DecimalOfFloat(negative, mantissa, exp))
  {
    var n := DecimalOfFloat(negative, mantissa, exp);
    EsNumberIsLayout(negative, mantissa, exp);
    LayoutSpells(negative, mantissa, exp);
    hide Layout, Print, Spells;
    if EsText(t, n) {
      var raw :| Spells(raw, n) && t == Print(raw, !PlainRange(n.exp));
      SpellsUnique(raw, Layout(negative, mantissa, exp), n);
    }
  }

  lemma FormatIntExactly(i: int, t: string)
    requires |Itoa(Abs(i))| <= 21
    ensures t == FormatInt(i) <==> EsText(t, DecimalOfInt(i))
  {
    if i != 0 {
      IntegerBranchesAgree(i);
      EsNumberExactly(i < 0, Itoa(Abs(i)), |Itoa(Abs(i))| - 1, t);
    }
  }
}

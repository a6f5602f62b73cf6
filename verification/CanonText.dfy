// Canonical text passes the guards of CanonicalizeJSON: it is valid UTF-8, and
// the surrogate scanner leaves it as it entered it.
module CanonText {
  import opened Prelude
  import opened Utf8
  import opened Decimals
  import opened Jcs
  import opened JsonReader
  import opened JcsRoundTrip
  import opened SurrogateScan

  // Valid, and passed by the scanner with any text behind it.
  ghost predicate Clear(s: string, inStr: bool) {
    Valid(s) && forall tail :: Scan(s + tail, inStr) == Scan(tail, inStr)
  }

  lemma {:induction false} ValidAppend(a: string, b: string)
    requires Valid(a)
    ensures Valid(a + b) <==> Valid(b)
    decreases |a|
  {
    if a == "" {
      assert a + b == b;
    } else {
      var n := SequenceLength(a);
      assert (a + b)[n..] == a[n..] + b;
      ValidAppend(a[n..], b);
    }
  }

  lemma ClearAppend(a: string, b: string, inStr: bool)
    requires Clear(a, inStr) && Clear(b, inStr)
    ensures Clear(a + b, inStr)
  {
    hide Valid, Scan;
    ValidAppend(a, b);
    forall tail ensures Scan(a + b + tail, inStr) == Scan(tail, inStr) {
      AppendThrough(a, b, tail);
    }
  }

  predicate Plain(s: string) {
    forall i :: 0 <= i < |s| ==> s[i] as int < 0x80 && s[i] != '"'
  }

  lemma PlainClear(s: string)
    requires Plain(s)
    ensures Clear(s, false)
  {
    AsciiValid(s);
    forall tail ensures Scan(s + tail, false) == Scan(tail, false) {
      ScanOutside(s, tail);
    }
  }

  // ----- strings

  lemma RuneValid(r: int)
    requires Scalar(r)
    ensures Valid(EncodeRune(r))
  {
    RunesOfEncode([r]);
    assert Encode([r]) == EncodeRune(r) + Encode([r][1..]);
    assert EncodeRune(r) + "" == EncodeRune(r);
  }

  lemma RawRuneClear(r: int)
    requires Raw(r).WellFormed()
    ensures Clear(EncodeRune(r), true)
  {
    RuneValid(r);
    RawIsPlain(r);
    hide EncodeRune, Scan;
    forall tail ensures Scan(EncodeRune(r) + tail, true) == Scan(tail, true) {
      ScanRaw(EncodeRune(r), tail);
    }
  }

  lemma SimpleClear(c: char)
    requires c as int < 0x80 && c != 'u'
    ensures Clear(['\\', c], true)
  {
    AsciiValid(['\\', c]);
    hide Scan;
    forall tail ensures Scan(['\\', c] + tail, true) == Scan(tail, true) {
      ScanSimple(c, tail);
    }
  }

  lemma ControlClear(r: int)
    requires 0 <= r < 0x20
    ensures Clear("\\u00" + [HexDigit(r / 16), HexDigit(r % 16)], true)
  {
    var hex := ['0', '0', HexDigit(r / 16), HexDigit(r % 16)];
    HexDigitRead(r / 16);
    HexDigitRead(r % 16);
    assert Hex4(hex) == Some(r);
    var s := "\\u00" + [HexDigit(r / 16), HexDigit(r % 16)];
    assert s == "\\u" + hex;
    AsciiValid(s);
    hide Scan;
    forall tail ensures Scan(s + tail, true) == Scan(tail, true) {
      ScanUnicode(hex, tail);
    }
  }

  lemma EscapedRuneClear(r: int)
    requires Scalar(r)
    ensures Clear(EscapeRune(r), true)
  {
    if r >= 0x20 && r != 0x22 && r != 0x5C {
      RawRuneClear(r);
    } else if |EscapeRune(r)| == 6 {
      ControlClear(r);
    } else {
      SimpleClear(EscapeRune(r)[1]);
    }
  }

  lemma {:induction false} EscapedClear(rs: seq<int>)
    requires AllScalar(rs)
    ensures Clear(EscapeRunes(rs), true)
  {
    if rs == [] {
      forall tail ensures Scan("" + tail, true) == Scan(tail, true) {
        assert "" + tail == tail;
      }
    } else {
      EscapedRuneClear(rs[0]);
      EscapedClear(rs[1..]);
      hide Clear, EscapeRune;
      ClearAppend(EscapeRune(rs[0]), EscapeRunes(rs[1..]), true);
    }
  }

  lemma QuotedScan(body: string, tail: string)
    requires Clear(body, true)
    ensures Scan("\"" + body + "\"" + tail, false) == Scan(tail, false)
  {
    hide Valid;
    var close := "\"" + tail;
    assert "\"" + body + "\"" + tail == ['"'] + (body + close);
    assert (['"'] + (body + close))[1..] == body + close && close[1..] == tail;
    assert Scan(body + close, true) == Scan(close, true);
  }

  lemma QuoteClear(s: string)
    ensures Clear(Quote(s), false)
  {
    RunesAlwaysScalar(s);
    var body := EscapeRunes(Runes(s));
    EscapedClear(Runes(s));
    AsciiValid("\"");
    ValidAppend("\"", body);
    ValidAppend("\"" + body, "\"");
    hide EscapeRunes, Runes, Valid, Scan;
    forall tail ensures Scan(Quote(s) + tail, false) == Scan(tail, false) {
      QuotedScan(body, tail);
    }
  }

  // ----- numbers

  lemma DigitsPlain(s: string)
    requires AllDigits(s)
    ensures Plain(s)
  {
  }

  lemma PlainAppend(a: string, b: string)
    requires Plain(a) && Plain(b)
    ensures Plain(a + b)
  {
  }

  lemma ExponentPlain(e: int)
    ensures Plain(if e < 0 then "-" + Itoa(-e) else "+" + Itoa(e))
  {
    DigitsPlain(Itoa(Abs(e)));
    hide Itoa;
  }

  lemma CutPlain(s: string, i: nat)
    requires Plain(s) && i <= |s|
    ensures Plain(s[..i]) && Plain(s[i..])
  {
  }

  lemma SignPlain(negative: bool)
    ensures Plain(if negative then "-" else "") && Plain(".") && Plain("e")
  {
  }

  lemma IntegerPlain(neg: string, digits: string, zeros: nat)
    requires Plain(neg) && Plain(digits)
    ensures Plain(neg + digits + Zeros(zeros)) && Plain(neg + "0." + Zeros(zeros) + digits)
  {
    DigitsPlain(Zeros(zeros));
    assert Plain("0.");
    hide Plain;
    PlainAppend(neg, digits);
    PlainAppend(neg + digits, Zeros(zeros));
    PlainThree(neg, "0.", Zeros(zeros), digits);
  }

  lemma PointPlain(neg: string, digits: string, n: nat)
    requires Plain(neg) && Plain(digits) && Plain(".") && n <= |digits|
    ensures Plain(neg + digits[..n] + "." + digits[n..])
  {
    hide Plain;
    CutPlain(digits, n);
    PlainThree(neg, digits[..n], ".", digits[n..]);
  }

  lemma EsNumberPlain(negative: bool, mantissa: string, exp: int)
    requires Scientific(mantissa)
    ensures Plain(EsNumber(negative, mantissa, exp))
  {
    hide Plain, Itoa;
    var neg, digits := if negative then "-" else "", TrimZeros(mantissa);
    var k, n := |digits|, exp + 1;
    SignPlain(negative);
    DigitsPlain(digits);
    hide TrimZeros, Scientific;
    if k <= n <= 21 {
      IntegerPlain(neg, digits, n - k);
    } else if 0 < n <= 21 {
      PointPlain(neg, digits, n);
    } else if -6 < n <= 0 {
      IntegerPlain(neg, digits, -n);
    } else {
      ExponentPlain(n - 1);
      ScientificPlain(neg, digits, if n - 1 < 0 then "-" + Itoa(1 - n) else "+" + Itoa(n - 1));
    }
  }

  lemma ScientificPlain(neg: string, digits: string, eout: string)
    requires digits != "" && Plain(neg) && Plain(digits) && Plain(eout) && Plain(".") && Plain("e")
    ensures Plain(neg + digits + "e" + eout) && Plain(neg + digits[..1] + "." + digits[1..] + "e" + eout)
  {
    CutPlain(digits, 1);
    hide Plain;
    PlainThree(neg, digits, "e", eout);
    PlainThree(neg, digits[..1], ".", digits[1..]);
    PlainAppend(neg + digits[..1] + "." + digits[1..], "e");
    PlainAppend(neg + digits[..1] + "." + digits[1..] + "e", eout);
  }

  lemma PlainThree(a: string, b: string, c: string, d: string)
    requires Plain(a) && Plain(b) && Plain(c) && Plain(d)
    ensures Plain(a + b + c + d)
  {
    PlainAppend(a, b);
    PlainAppend(a + b, c);
    PlainAppend(a + b + c, d);
  }

  lemma NumberPlain(v: GoValue)
    requires Writable(v) && (v.Number? || v.Float64? || v.Integer?)
    ensures Plain(Canon(v))
  {
    match v
    case Number(parsed, _) => if parsed.value.Finite? { EsNumberPlain(parsed.value.negative, parsed.value.mantissa, parsed.value.exp); }
    case Float64(f) => if f.Finite? { EsNumberPlain(f.negative, f.mantissa, f.exp); }
    case Integer(i) => DigitsPlain(Itoa(Abs(i)));
  }

  // ----- values

  lemma {:induction false} CanonClear(v: GoValue)
    requires Writable(v)
    ensures Clear(Canon(v), false)
    decreases v, 1, 0
  {
    hide Clear, Quote;
    match v
    case Text(s) => QuoteClear(s);
    case Slice(items) =>
      ItemsClear(v, 0);
      PlainClear("[");
      PlainClear("]");
      ClearAppend("[", CanonItems(v, 0), false);
      ClearAppend("[" + CanonItems(v, 0), "]", false);
    case Map(members) =>
      var keys := SortedKeys(members.Keys);
      MembersClear(v, keys, 0);
      PlainClear("{");
      PlainClear("}");
      ClearAppend("{", CanonMembers(v, keys, 0), false);
      ClearAppend("{" + CanonMembers(v, keys, 0), "}", false);
    case Number(_, _) => NumberClear(v);
    case Float64(_) => NumberClear(v);
    case Integer(_) => NumberClear(v);
    case Nil => PlainClear("null");
    case Boolean(b) => PlainClear(if b then "true" else "false");
  }

  lemma NumberClear(v: GoValue)
    requires Writable(v) && (v.Number? || v.Float64? || v.Integer?)
    ensures Clear(Canon(v), false)
  {
    hide Plain, Canon, Clear;
    NumberPlain(v);
    PlainClear(Canon(v));
  }

  lemma {:induction false} ItemsClear(v: GoValue, i: nat)
    requires v.Slice? && Writable(v) && i <= |v.items|
    ensures Clear(CanonItems(v, i), false)
    decreases v, 0, |v.items| - i
  {
    hide Clear, Canon;
    if i == |v.items| {
      PlainClear("");
    } else {
      PlainClear(Comma(i));
      CanonClear(v.items[i]);
      ItemsClear(v, i + 1);
      ClearAppend(Comma(i), Canon(v.items[i]), false);
      ClearAppend(Comma(i) + Canon(v.items[i]), CanonItems(v, i + 1), false);
    }
  }

  lemma {:induction false} MembersClear(v: GoValue, keys: seq<string>, i: nat)
    requires v.Map? && Writable(v) && (forall k <- keys :: k in v.members) && i <= |keys|
    ensures Clear(CanonMembers(v, keys, i), false)
    decreases v, 0, |keys| - i
  {
    hide Clear, Canon, Quote;
    if i == |keys| {
      PlainClear("");
    } else {
      PlainClear(Comma(i));
      PlainClear(":");
      QuoteClear(keys[i]);
      CanonClear(v.members[keys[i]]);
      MembersClear(v, keys, i + 1);
      ClearAppend(Comma(i), Quote(keys[i]), false);
      ClearAppend(Comma(i) + Quote(keys[i]), ":", false);
      ClearAppend(Comma(i) + Quote(keys[i]) + ":", Canon(v.members[keys[i]]), false);
      ClearAppend(Comma(i) + Quote(keys[i]) + ":" + Canon(v.members[keys[i]]), CanonMembers(v, keys, i + 1), false);
    }
  }

  // Canonical text is text: valid UTF-8 with no unpaired surrogate escape.
  lemma CanonIsText(v: GoValue)
    requires Writable(v)
    ensures Valid(Canon(v)) && !Scan(Canon(v), false)
  {
    hide Canon, Valid;
    CanonClear(v);
    assert Scan(Canon(v) + "", false) == Scan("", false);
    assert Canon(v) + "" == Canon(v);
  }
}

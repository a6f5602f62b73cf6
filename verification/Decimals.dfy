// Numbers after strconv: a sign, a digit string and the decimal exponent of its
// leading digit; the ECMAScript layout of esNumber in jcs/jcs.go; and a reader
// of JSON numbers (section 6 of RFC 8259) to hold it against.
module Decimals {
  import opened Prelude

  predicate IsDigit(c: char) {
    '0' <= c <= '9'
  }

  predicate AllDigits(s: string) {
    forall i :: 0 <= i < |s| ==> IsDigit(s[i])
  }

  function DigitOf(c: char): (d: nat)
    requires IsDigit(c)
    ensures d < 10
  {
    c as int - '0' as int
  }

  function DigitChar(d: nat): (c: char)
    requires d < 10
    ensures IsDigit(c) && DigitOf(c) == d
  {
    (d + '0' as int) as char
  }

  function DigitsValue(s: string): nat
    requires AllDigits(s)
  {
    if s == "" then 0 else 10 * DigitsValue(s[..|s| - 1]) + DigitOf(s[|s| - 1])
  }

  // strconv.Itoa on a non-negative number.
  function Itoa(n: nat): (s: string)
    ensures s != "" && AllDigits(s) && DigitsValue(s) == n
    ensures n > 0 ==> s[0] != '0'
  {
    if n < 10 then [DigitChar(n)] else
    var s := Itoa(n / 10) + [DigitChar(n % 10)];
    assert s[..|s| - 1] == Itoa(n / 10);
    s
  }

  function Zeros(n: nat): (s: string)
    ensures |s| == n && AllDigits(s)
    ensures forall i :: 0 <= i < n ==> s[i] == '0'
  {
    seq(n, _ => '0')
  }

  // strings.TrimRight(s, "0").
  function TrimZeros(s: string): (r: string)
    ensures r <= s
    ensures r == "" || r[|r| - 1] != '0'
    ensures s == r + Zeros(|s| - |r|)
    ensures s != "" && s[0] != '0' ==> r != "" && r[0] == s[0]
  {
    if s == "" || s[|s| - 1] != '0' then
      assert s == s + Zeros(0);
      s
    else
      var r := TrimZeros(s[..|s| - 1]);
      assert s[..|s| - 1] == r + Zeros(|s| - 1 - |r|);
      assert Zeros(|s| - |r|) == Zeros(|s| - 1 - |r|) + ['0'];
      assert s == s[..|s| - 1] + ['0'];
      r
  }

  function DropZeros(s: string): (r: string)
    ensures |r| <= |s| && s == Zeros(|s| - |r|) + r
    ensures r == "" || r[0] != '0'
  {
    if s == "" || s[0] != '0' then
      assert s == Zeros(0) + s;
      s
    else
      var r := DropZeros(s[1..]);
      assert s[1..] == Zeros(|s| - 1 - |r|) + r;
      assert Zeros(|s| - |r|) == ['0'] + Zeros(|s| - 1 - |r|);
      assert s == ['0'] + s[1..];
      r
  }

  // ----- esNumber

  // FormatFloat(f, 'e', -1, 64) of a finite non-zero float: the digits of the
  // mantissa with its point taken out, and the exponent.
  predicate Scientific(digits: string) {
    digits != "" && AllDigits(digits) && digits[0] != '0'
  }

  function EsNumber(negative: bool, mantissa: string, exp: int): string
    requires Scientific(mantissa)
  {
    var neg := if negative then "-" else "";
    var digits := TrimZeros(mantissa);
    var k, n := |digits|, exp + 1;
    if k <= n <= 21 then neg + digits + Zeros(n - k)
    else if 0 < n <= 21 then neg + digits[..n] + "." + digits[n..]
    else if -6 < n <= 0 then neg + "0." + Zeros(-n) + digits
    else
      var eout := if n - 1 < 0 then "-" + Itoa(1 - n) else "+" + Itoa(n - 1);
      if k == 1 then neg + digits + "e" + eout
      else neg + digits[..1] + "." + digits[1..] + "e" + eout
  }

  // strconv.FormatInt(i, 10).
  function FormatInt(i: int): string {
    if i < 0 then "-" + Itoa(-i) else Itoa(i)
  }

  // ----- what a decimal is worth

  // A trimmed digit string, and the exponent of its leading digit.
  datatype Decimal = Zero | Dec(negative: bool, digits: string, exp: int) {
    predicate WellFormed() {
      Dec? ==> Scientific(digits) && digits[|digits| - 1] != '0'
    }
  }

  function Abs(i: int): nat {
    if i < 0 then -i else i
  }

  function DecimalOfFloat(negative: bool, mantissa: string, exp: int): Decimal
    requires Scientific(mantissa)
  {
    Dec(negative, TrimZeros(mantissa), exp)
  }

  function DecimalOfInt(i: int): Decimal {
    if i == 0 then Zero else Dec(i < 0, TrimZeros(Itoa(Abs(i))), |Itoa(Abs(i))| - 1)
  }

  function Pow10(e: int): (p: real)
    ensures p > 0.0
    decreases Abs(e)
  {
    if e == 0 then 1.0 else if e > 0 then 10.0 * Pow10(e - 1) else Pow10(e + 1) / 10.0
  }

  // m * 10^e
  function Scaled(m: nat, e: int): real {
    m as real * Pow10(e)
  }

  function Signed(negative: bool, r: real): real {
    if negative then -r else r
  }

  function DecimalValue(d: Decimal): real
    requires d.WellFormed()
  {
    match d
    case Zero => 0.0
    case Dec(negative, digits, exp) => Signed(negative, Scaled(DigitsValue(digits), exp + 1 - |digits|))
  }

  // ----- reading JSON numbers

  datatype RawNumber = RawNumber(negative: bool, whole: string, frac: string, exp: int) {
    predicate WellFormed() {
      whole != "" && AllDigits(whole) && AllDigits(frac)
    }
  }

  function ReadDigits(s: string): (r: (string, string))
    ensures AllDigits(r.0) && r.0 + r.1 == s
    ensures r.1 != "" ==> !IsDigit(r.1[0])
  {
    if s == "" || !IsDigit(s[0]) then ("", s) else
    var (d, rest) := ReadDigits(s[1..]);
    ([s[0]] + d, rest)
  }

  function ReadExponent(negative: bool, whole: string, frac: string, s: string): Option<(RawNumber, string)> {
    if s == "" || (s[0] != 'e' && s[0] != 'E') then Some((RawNumber(negative, whole, frac, 0), s)) else
    var signed := |s| > 1 && (s[1] == '+' || s[1] == '-');
    var (digits, rest) := ReadDigits(if signed then s[2..] else s[1..]);
    if digits == "" then None else
    var e: int := DigitsValue(digits);
    Some((RawNumber(negative, whole, frac, if signed && s[1] == '-' then -e else e), rest))
  }

  function ReadFraction(negative: bool, whole: string, s: string): Option<(RawNumber, string)> {
    if s == "" || s[0] != '.' then ReadExponent(negative, whole, "", s) else
    var (frac, rest) := ReadDigits(s[1..]);
    if frac == "" then None else ReadExponent(negative, whole, frac, rest)
  }

  function ReadUnsigned(negative: bool, s: string): Option<(RawNumber, string)> {
    var (whole, rest) := ReadDigits(s);
    if whole == "" || (whole[0] == '0' && |whole| > 1) then None else ReadFraction(negative, whole, rest)
  }

  function ReadNumber(s: string): (r: Option<(RawNumber, string)>)
    ensures r.Some? ==> r.value.0.WellFormed() && |r.value.1| < |s|
  {
    if s != "" && s[0] == '-' then ReadUnsigned(true, s[1..]) else ReadUnsigned(false, s)
  }

  // The number a JSON text denotes, by the grammar alone.
  function RawValue(n: RawNumber): real
    requires n.WellFormed()
  {
    Signed(n.negative, Scaled(DigitsValue(n.whole + n.frac), n.exp - |n.frac|))
  }

  function Normalize(n: RawNumber): Decimal {
    var all := n.whole + n.frac;
    var lead := DropZeros(all);
    if lead == "" then Zero
    else Dec(n.negative, TrimZeros(lead), |n.whole| - 1 - (|all| - |lead|) + n.exp)
  }

  lemma Pow10Zero()
    ensures Pow10(0) == 1.0
  {
  }

  lemma TenTimes(x: real, y: real)
    ensures (10.0 * x) * y == 10.0 * (x * y)
  {
  }

  lemma {:induction false} Pow10Add(a: int, b: int)
    ensures Pow10(a + b) == Pow10(a) * Pow10(b)
    decreases Abs(a)
  {
    hide Pow10;
    Pow10Zero();
    if a > 0 {
      Pow10Add(a - 1, b);
      Pow10Next(a - 1);
      Pow10Next(a + b - 1);
      TenTimes(Pow10(a - 1), Pow10(b));
    } else if a < 0 {
      Pow10Add(a + 1, b);
      Pow10Next(a);
      Pow10Next(a + b);
      TenTimes(Pow10(a), Pow10(b));
    }
  }

  lemma Pow10Next(e: int)
    ensures Pow10(e + 1) == 10.0 * Pow10(e)
  {
  }

  lemma {:induction false} ValueOfLeadingZeros(z: nat, s: string)
    requires AllDigits(s)
    ensures DigitsValue(Zeros(z) + s) == DigitsValue(s)
  {
    var t := Zeros(z) + s;
    if s != "" {
      assert t[..|t| - 1] == Zeros(z) + s[..|s| - 1];
      ValueOfLeadingZeros(z, s[..|s| - 1]);
    } else if z > 0 {
      assert t[..|t| - 1] == Zeros(z - 1) + s;
      ValueOfLeadingZeros(z - 1, s);
    } else {
      assert t == s;
    }
  }

  lemma ScaledNext(m: nat, z: nat)
    ensures Scaled(m, z + 1) == 10.0 * Scaled(m, z)
  {
    Pow10Next(z);
    TenTimes(Pow10(z), m as real);
  }

  lemma {:induction false} TrailingZerosScale(s: string, z: nat)
    requires AllDigits(s)
    ensures DigitsValue(s + Zeros(z)) as real == Scaled(DigitsValue(s), z)
  {
    var t := s + Zeros(z);
    if z > 0 {
      assert t[..|t| - 1] == s + Zeros(z - 1);
      assert DigitsValue(t) == 10 * DigitsValue(s + Zeros(z - 1));
      TrailingZerosScale(s, z - 1);
      hide Scaled;
      ScaledNext(DigitsValue(s), z - 1);
    } else {
      assert t == s;
    }
  }

  lemma Reassociate(x: real, y: real, z: real)
    ensures (x * y) * z == x * (y * z)
  {
  }

  lemma ScaledShift(v: nat, m: nat, t: nat, e: int)
    requires v as real == Scaled(m, t)
    ensures Scaled(v, e) == Scaled(m, e + t)
  {
    hide Pow10;
    Pow10Add(t, e);
    Reassociate(m as real, Pow10(t), Pow10(e));
  }

  // Trailing zeros trade for the exponent.
  lemma ShiftedValue(digits: string, t: nat, e: int)
    requires AllDigits(digits)
    ensures Scaled(DigitsValue(digits + Zeros(t)), e) == Scaled(DigitsValue(digits), e + t)
  {
    hide Scaled, DigitsValue;
    TrailingZerosScale(digits, t);
    ScaledShift(DigitsValue(digits + Zeros(t)), DigitsValue(digits), t, e);
  }

  lemma DropZerosKeepsDigits(s: string)
    requires AllDigits(s)
    ensures AllDigits(DropZeros(s)) && AllDigits(TrimZeros(DropZeros(s)))
    ensures DigitsValue(s) == DigitsValue(DropZeros(s))
    ensures DropZeros(s) != "" ==> TrimZeros(DropZeros(s)) != "" && TrimZeros(DropZeros(s))[0] != '0'
  {
    hide DropZeros, TrimZeros, DigitsValue;
    var lead := DropZeros(s);
    forall i | 0 <= i < |lead| ensures IsDigit(lead[i]) {
      assert lead[i] == s[i + |s| - |lead|];
    }
    ValueOfLeadingZeros(|s| - |lead|, lead);
  }

  // Normalising loses nothing: the decimal is worth what the text denotes.
  lemma NormalizeExact(n: RawNumber)
    requires n.WellFormed()
    ensures Normalize(n).WellFormed() && DecimalValue(Normalize(n)) == RawValue(n)
  {
    hide Pow10, DigitsValue, Scaled, DropZeros, TrimZeros, Zeros;
    var all := n.whole + n.frac;
    DropZerosKeepsDigits(all);
    var lead, e := DropZeros(all), n.exp - |n.frac|;
    if lead != "" {
      var digits := TrimZeros(lead);
      var t := |lead| - |digits|;
      ShiftedValue(digits, t, e);
      assert lead == digits + Zeros(t);
      assert Normalize(n).exp + 1 - |digits| == e + t;
    } else {
      NothingIsZero(e);
    }
  }

  lemma NothingIsZero(e: int)
    ensures Scaled(DigitsValue(""), e) == 0.0
  {
  }

  // ----- the layout is undone by the reader

  // What may follow a number in JSON text without running into it.
  predicate Delimited(rest: string) {
    rest != "" ==> !IsDigit(rest[0]) && rest[0] != '.' && rest[0] != 'e' && rest[0] != 'E'
  }

  lemma {:induction false} ReadDigitsExact(d: string, rest: string)
    requires AllDigits(d) && (rest != "" ==> !IsDigit(rest[0]))
    ensures ReadDigits(d + rest) == (d, rest)
  {
    if d != "" {
      assert (d + rest)[1..] == d[1..] + rest;
      ReadDigitsExact(d[1..], rest);
      assert d == [d[0]] + d[1..];
    } else {
      assert d + rest == rest;
    }
  }

  // Each of the four layouts as the pieces of a JSON number.
  function Layout(negative: bool, mantissa: string, exp: int): (n: RawNumber)
    requires Scientific(mantissa)
    ensures n.WellFormed()
  {
    var digits := TrimZeros(mantissa);
    var k, n := |digits|, exp + 1;
    if k <= n <= 21 then RawNumber(negative, digits + Zeros(n - k), "", 0)
    else if 0 < n <= 21 then RawNumber(negative, digits[..n], digits[n..], 0)
    else if -6 < n <= 0 then RawNumber(negative, "0", Zeros(-n) + digits, 0)
    else RawNumber(negative, digits[..1], digits[1..], n - 1)
  }

  function PrintExponent(n: RawNumber, exponent: bool): string {
    if !exponent then "" else if n.exp < 0 then "e-" + Itoa(-n.exp) else "e+" + Itoa(n.exp)
  }

  function PrintFraction(n: RawNumber): string {
    if n.frac == "" then "" else "." + n.frac
  }

  // A JSON number with nothing left out but an absent fraction or exponent.
  function Print(n: RawNumber, exponent: bool): string {
    (if n.negative then "-" else "") + (n.whole + (PrintFraction(n) + PrintExponent(n, exponent)))
  }

  lemma TrimScientific(m: string)
    requires Scientific(m)
    ensures Scientific(TrimZeros(m)) && TrimZeros(m)[|TrimZeros(m)| - 1] != '0'
  {
    hide TrimZeros;
    var r := TrimZeros(m);
    forall i | 0 <= i < |r| ensures IsDigit(r[i]) {
      assert r[i] == m[i];
    }
  }

  lemma PrintPadded(negative: bool, digits: string, zeros: string)
    ensures Print(RawNumber(negative, digits + zeros, "", 0), false) == (if negative then "-" else "") + digits + zeros
  {
    var neg := if negative then "-" else "";
    assert neg + digits + zeros == neg + ((digits + zeros) + ("" + ""));
  }

  lemma PrintPoint(negative: bool, whole: string, frac: string)
    requires frac != ""
    ensures Print(RawNumber(negative, whole, frac, 0), false) == (if negative then "-" else "") + whole + "." + frac
  {
    Regroup(if negative then "-" else "", whole, "", ".", frac);
  }

  lemma PrintSmall(negative: bool, zeros: string, digits: string)
    requires digits != ""
    ensures Print(RawNumber(negative, "0", zeros + digits, 0), false) == (if negative then "-" else "") + "0." + zeros + digits
  {
    var neg := if negative then "-" else "";
    PrintPoint(negative, "0", zeros + digits);
    JoinThree(neg, "0", ".", zeros + digits);
    JoinThree(neg, "0.", zeros, digits);
    assert "0" + ("." + (zeros + digits)) == "0." + (zeros + digits);
  }

  lemma PrintLarge(negative: bool, digits: string, e: int)
    requires digits != ""
    ensures var neg, eout := if negative then "-" else "", if e < 0 then "-" + Itoa(-e) else "+" + Itoa(e);
      Print(RawNumber(negative, digits[..1], digits[1..], e), true) ==
        if |digits| == 1 then neg + digits + "e" + eout else neg + digits[..1] + "." + digits[1..] + "e" + eout
  {
    ExponentLayout(if negative then "-" else "", digits, e);
  }

  lemma EsNumberPlain(negative: bool, mantissa: string, exp: int)
    requires Scientific(mantissa) && 0 < exp + 1 <= 21
    ensures EsNumber(negative, mantissa, exp) == Print(Layout(negative, mantissa, exp), false)
  {
    hide TrimZeros, Zeros, Print;
    TrimScientific(mantissa);
    var digits, n := TrimZeros(mantissa), exp + 1;
    if |digits| <= n {
      PrintPadded(negative, digits, Zeros(n - |digits|));
    } else {
      PrintPoint(negative, digits[..n], digits[n..]);
    }
  }

  lemma EsNumberSmall(negative: bool, mantissa: string, exp: int)
    requires Scientific(mantissa) && -6 < exp + 1 <= 0
    ensures EsNumber(negative, mantissa, exp) == Print(Layout(negative, mantissa, exp), false)
  {
    hide TrimZeros, Zeros, Print;
    TrimScientific(mantissa);
    PrintSmall(negative, Zeros(-(exp + 1)), TrimZeros(mantissa));
  }

  lemma EsNumberLarge(negative: bool, mantissa: string, exp: int)
    requires Scientific(mantissa) && !(-6 < exp + 1 <= 21)
    ensures EsNumber(negative, mantissa, exp) == Print(Layout(negative, mantissa, exp), true)
  {
    hide TrimZeros, Itoa, Print;
    TrimScientific(mantissa);
    PrintLarge(negative, TrimZeros(mantissa), exp);
  }

  lemma EsNumberIsLayout(negative: bool, mantissa: string, exp: int)
    requires Scientific(mantissa)
    ensures EsNumber(negative, mantissa, exp) == Print(Layout(negative, mantissa, exp), !(-6 < exp + 1 <= 21))
  {
    hide EsNumber, Print, Layout;
    if 0 < exp + 1 <= 21 {
      EsNumberPlain(negative, mantissa, exp);
    } else if -6 < exp + 1 <= 0 {
      EsNumberSmall(negative, mantissa, exp);
    } else {
      EsNumberLarge(negative, mantissa, exp);
    }
  }

  lemma Regroup(a: string, b: string, c: string, d: string, e: string)
    ensures a + b + c + d + e == a + (b + c + (d + e))
    ensures a + b + c == a + ((b + c) + ("" + ""))
    ensures a + b + d + e == a + (b + (d + e + ""))
  {
    assert d + e + "" == d + e;
  }

  lemma JoinThree(a: string, b: string, c: string, d: string)
    ensures a + b + c + d == a + (b + (c + d))
  {
    assert (a + b) + c + d == (a + b) + (c + d);
  }

  lemma JoinFive(a: string, b: string, c: string, d: string, e: string, f: string)
    ensures a + b + c + d + e + f == a + (b + (c + d + (e + f)))
  {
    JoinThree(a + b + c, d, e, f);
    JoinThree(a, b, c, d + (e + f));
    assert c + (d + (e + f)) == c + d + (e + f);
  }

  lemma ExponentLayout(neg: string, digits: string, e: int)
    requires digits != ""
    ensures var eout := if e < 0 then "-" + Itoa(-e) else "+" + Itoa(e);
      var exponent := if e < 0 then "e-" + Itoa(-e) else "e+" + Itoa(e);
      && (|digits| == 1 ==> neg + digits + "e" + eout == neg + (digits[..1] + ("" + exponent)))
      && (|digits| > 1 ==> neg + digits[..1] + "." + digits[1..] + "e" + eout == neg + (digits[..1] + ("." + digits[1..] + exponent)))
  {
    hide Itoa;
    var eout := if e < 0 then "-" + Itoa(-e) else "+" + Itoa(e);
    var exponent := if e < 0 then "e-" + Itoa(-e) else "e+" + Itoa(e);
    assert "e" + eout == exponent;
    assert |digits| == 1 ==> digits[..1] == digits;
    assert "" + exponent == exponent;
    JoinThree(neg, digits, "e", eout);
    JoinFive(neg, digits[..1], ".", digits[1..], "e", eout);
  }

  lemma ReadPrintedExponent(n: RawNumber, exponent: bool, rest: string)
    requires (!exponent ==> n.exp == 0) && Delimited(rest)
    ensures ReadExponent(n.negative, n.whole, n.frac, PrintExponent(n, exponent) + rest) == Some((n, rest))
  {
    hide Itoa, ReadDigits, DigitsValue;
    if exponent {
      var digits := Itoa(Abs(n.exp));
      var s := PrintExponent(n, exponent) + rest;
      assert s[0] == 'e' && s[1] == if n.exp < 0 then '-' else '+';
      assert s[2..] == digits + rest;
      ReadDigitsExact(digits, rest);
    } else {
      assert "" + rest == rest;
    }
  }

  lemma ReadPrintedFraction(n: RawNumber, exponent: bool, rest: string)
    requires n.WellFormed() && (!exponent ==> n.exp == 0) && Delimited(rest)
    ensures ReadFraction(n.negative, n.whole, PrintFraction(n) + (PrintExponent(n, exponent) + rest)) == Some((n, rest))
  {
    hide ReadExponent;
    var tail := PrintExponent(n, exponent) + rest;
    assert tail != "" ==> tail[0] == if exponent then 'e' else rest[0];
    ReadPrintedExponent(n, exponent, rest);
    if n.frac == "" {
      assert PrintFraction(n) + tail == tail;
    } else {
      assert (PrintFraction(n) + tail)[1..] == n.frac + tail;
      ReadDigitsExact(n.frac, tail);
    }
  }

  lemma ReadPrinted(n: RawNumber, exponent: bool, rest: string)
    requires n.WellFormed() && (n.whole[0] == '0' ==> |n.whole| == 1)
    requires !exponent ==> n.exp == 0
    requires Delimited(rest)
    ensures ReadNumber(Print(n, exponent) + rest) == Some((n, rest))
  {
    hide ReadFraction, ReadDigits, Itoa, Print, PrintFraction, PrintExponent;
    var tail := PrintFraction(n) + (PrintExponent(n, exponent) + rest);
    var s := n.whole + tail;
    ReadPrintedFraction(n, exponent, rest);
    TailIsNoDigit(n, exponent, rest);
    ReadDigitsExact(n.whole, tail);
    assert ReadUnsigned(n.negative, s) == Some((n, rest));
    PrintThenRest(n, exponent, rest);
    assert s[0] == n.whole[0];
    assert ("-" + s)[1..] == s && "" + s == s;
  }

  lemma TailIsNoDigit(n: RawNumber, exponent: bool, rest: string)
    requires Delimited(rest)
    ensures var tail := PrintFraction(n) + (PrintExponent(n, exponent) + rest);
      tail != "" ==> !IsDigit(tail[0])
  {
  }

  lemma PrintThenRest(n: RawNumber, exponent: bool, rest: string)
    ensures Print(n, exponent) + rest ==
      (if n.negative then "-" else "") + (n.whole + (PrintFraction(n) + (PrintExponent(n, exponent) + rest)))
  {
    hide PrintFraction, PrintExponent;
  }

  lemma NormalizeOf(n: RawNumber, z: nat, digits: string, t: nat)
    requires digits != "" && digits[0] != '0' && digits[|digits| - 1] != '0'
    requires n.whole + n.frac == Zeros(z) + digits + Zeros(t)
    ensures Normalize(n) == Dec(n.negative, digits, |n.whole| - 1 - z + n.exp)
  {
    hide TrimZeros, DropZeros;
    LeadThenTrim(z, digits, t);
    assert |n.whole + n.frac| == z + |digits| + t;
  }

  lemma LeadingZero(digits: string, z: nat)
    ensures "0" + (Zeros(z) + digits) == Zeros(1 + z) + digits + Zeros(0)
  {
  }

  lemma PaddedNormalizes(negative: bool, digits: string, z: nat)
    requires digits != "" && digits[0] != '0' && digits[|digits| - 1] != '0'
    requires RawNumber(negative, digits + Zeros(z), "", 0).WellFormed()
    ensures Normalize(RawNumber(negative, digits + Zeros(z), "", 0)) == Dec(negative, digits, |digits| + z - 1)
  {
    var l := RawNumber(negative, digits + Zeros(z), "", 0);
    assert l.whole + l.frac == Zeros(0) + digits + Zeros(z);
    hide Zeros, Normalize;
    NormalizeOf(l, 0, digits, z);
  }

  lemma SmallNormalizes(negative: bool, digits: string, z: nat)
    requires digits != "" && digits[0] != '0' && digits[|digits| - 1] != '0'
    requires RawNumber(negative, "0", Zeros(z) + digits, 0).WellFormed()
    ensures Normalize(RawNumber(negative, "0", Zeros(z) + digits, 0)) == Dec(negative, digits, -1 - z)
  {
    LeadingZero(digits, z);
    hide Zeros, Normalize;
    NormalizeOf(RawNumber(negative, "0", Zeros(z) + digits, 0), 1 + z, digits, 0);
  }

  lemma CutNormalizes(negative: bool, digits: string, cut: nat, e: int)
    requires digits != "" && digits[0] != '0' && digits[|digits| - 1] != '0' && cut <= |digits|
    requires RawNumber(negative, digits[..cut], digits[cut..], e).WellFormed()
    ensures Normalize(RawNumber(negative, digits[..cut], digits[cut..], e)) == Dec(negative, digits, cut - 1 + e)
  {
    CutAndJoin(digits, cut);
    hide Zeros, Normalize;
    NormalizeOf(RawNumber(negative, digits[..cut], digits[cut..], e), 0, digits, 0);
  }

  lemma LayoutNormalizes(negative: bool, mantissa: string, exp: int)
    requires Scientific(mantissa)
    ensures Normalize(Layout(negative, mantissa, exp)) == DecimalOfFloat(negative, mantissa, exp)
  {
    hide TrimZeros, Normalize;
    TrimScientific(mantissa);
    var digits, n := TrimZeros(mantissa), exp + 1;
    if |digits| <= n <= 21 {
      PaddedNormalizes(negative, digits, n - |digits|);
    } else if 0 < n <= 21 {
      CutNormalizes(negative, digits, n, 0);
    } else if -6 < n <= 0 {
      SmallNormalizes(negative, digits, -n);
    } else {
      CutNormalizes(negative, digits, 1, n - 1);
    }
  }

  lemma CutAndJoin(s: string, cut: nat)
    requires cut <= |s|
    ensures s[..cut] + s[cut..] == Zeros(0) + s + Zeros(0)
  {
  }

  lemma LeadThenTrim(z: nat, digits: string, t: nat)
    requires digits != "" && digits[0] != '0' && digits[|digits| - 1] != '0'
    ensures DropZeros(Zeros(z) + digits + Zeros(t)) == digits + Zeros(t)
    ensures TrimZeros(digits + Zeros(t)) == digits
  {
    hide DropZeros, TrimZeros;
    var s := digits + Zeros(t);
    assert s[0] == digits[0];
    DropZerosUnique(z, s);
    assert Zeros(z) + digits + Zeros(t) == Zeros(z) + s;
    TrimZerosUnique(digits, t);
  }

  lemma {:induction false} DropZerosUnique(z: nat, s: string)
    requires s != "" && s[0] != '0'
    ensures DropZeros(Zeros(z) + s) == s
  {
    if z > 0 {
      assert (Zeros(z) + s)[1..] == Zeros(z - 1) + s;
      DropZerosUnique(z - 1, s);
    } else {
      assert Zeros(0) + s == s;
    }
  }

  lemma {:induction false} TrimZerosUnique(s: string, t: nat)
    requires s != "" && s[|s| - 1] != '0'
    ensures TrimZeros(s + Zeros(t)) == s
  {
    var u := s + Zeros(t);
    if t > 0 {
      assert u[..|u| - 1] == s + Zeros(t - 1);
      TrimZerosUnique(s, t - 1);
    } else {
      assert u == s;
    }
  }

  // Reading the printed number back gives exactly the decimal printed.
  lemma EsNumberRoundTrip(negative: bool, mantissa: string, exp: int, rest: string)
    requires Scientific(mantissa) && Delimited(rest)
    ensures var r := ReadNumber(EsNumber(negative, mantissa, exp) + rest);
      && r.Some? && r.value.1 == rest
      && Normalize(r.value.0) == DecimalOfFloat(negative, mantissa, exp)
  {
    EsNumberIsLayout(negative, mantissa, exp);
    LayoutNormalizes(negative, mantissa, exp);
    ReadPrinted(Layout(negative, mantissa, exp), !(-6 < exp + 1 <= 21), rest);
  }

  // The text denotes digits * 10^(n - k), by the grammar alone.
  lemma EsNumberDenotes(negative: bool, mantissa: string, exp: int)
    requires Scientific(mantissa)
    ensures var r := ReadNumber(EsNumber(negative, mantissa, exp));
      && r.Some? && r.value.1 == ""
      && DecimalOfFloat(negative, mantissa, exp).WellFormed()
      && RawValue(r.value.0) == DecimalValue(DecimalOfFloat(negative, mantissa, exp))
  {
    assert EsNumber(negative, mantissa, exp) + "" == EsNumber(negative, mantissa, exp);
    EsNumberRoundTrip(negative, mantissa, exp, "");
    TrimScientific(mantissa);
    NormalizeExact(ReadNumber(EsNumber(negative, mantissa, exp)).value.0);
  }

  lemma EsNumberInjective(n1: bool, m1: string, e1: int, n2: bool, m2: string, e2: int)
    requires Scientific(m1) && Scientific(m2)
    requires EsNumber(n1, m1, e1) == EsNumber(n2, m2, e2)
    ensures DecimalOfFloat(n1, m1, e1) == DecimalOfFloat(n2, m2, e2)
  {
    EsNumberRoundTrip(n1, m1, e1, "");
    EsNumberRoundTrip(n2, m2, e2, "");
  }

  // An integer prints the same through the integer branch and, as a float,
  // through esNumber.
  lemma IntegerBranchesAgree(i: int)
    requires i != 0 && |Itoa(Abs(i))| <= 21
    ensures FormatInt(i) == EsNumber(i < 0, Itoa(Abs(i)), |Itoa(Abs(i))| - 1)
    ensures DecimalOfInt(i) == DecimalOfFloat(i < 0, Itoa(Abs(i)), |Itoa(Abs(i))| - 1)
  {
    hide Itoa, Zeros;
    var m := Itoa(Abs(i));
    assert m == TrimZeros(m) + Zeros(|m| - |TrimZeros(m)|);
    if i < 0 {
      assert "-" + m == "-" + TrimZeros(m) + Zeros(|m| - |TrimZeros(m)|);
    } else {
      assert m == "" + TrimZeros(m) + Zeros(|m| - |TrimZeros(m)|);
    }
  }

  // No double prints longer than 25 characters.
  lemma EsNumberLength(negative: bool, mantissa: string, exp: int)
    requires Scientific(mantissa) && |mantissa| <= 17 && -324 <= exp <= 308
    ensures |EsNumber(negative, mantissa, exp)| <= 25
  {
    ItoaLength(Abs(exp));
  }

  lemma ItoaLength(n: nat)
    requires n < 1000
    ensures |Itoa(n)| <= 3
  {
    if n >= 10 {
      assert n / 10 < 100;
      if n / 10 >= 10 {
        assert n / 10 / 10 < 10;
        assert |Itoa(n / 10 / 10)| == 1;
      }
      assert |Itoa(n / 10)| <= 2;
    }
  }
}

// The one text RFC 8785 gives a string (section 3.2.2.2): of all literals that
// stand for it the shortest, with lower-case hex digits.
module LiteralForm {
  import opened Prelude
  import opened Utf8
  import opened Jcs
  import opened JsonReader
  import opened JcsRoundTrip

  predicate LiteralFor(t: string, s: string) {
    t != "" && t[0] == '"' && ReadChars(t[1..]) == Some((s, ""))
  }

  // No \uXXXX escape has an upper-case digit.
  predicate LowerHex(u: string)
    decreases |u|
  {
    if u == "" then true
    else if u[0] == '\\' && |u| >= 6 && u[1] == 'u' then (forall i :: 2 <= i < 6 ==> !('A' <= u[i] <= 'F')) && LowerHex(u[6..])
    else if u[0] == '\\' && |u| >= 2 then LowerHex(u[2..])
    else LowerHex(u[1..])
  }

  ghost predicate ShortestLiteral(t: string, s: string) {
    && LiteralFor(t, s)
    && LowerHex(t[1..])
    && forall u :: LiteralFor(u, s) ==> |t| <= |u|
  }

  // ----- byte by byte

  // The shortest spelling of one byte.
  function ByteText(c: char): string {
    if c == '"' then "\\\"" else if c == '\\' then "\\\\"
    else if c as int == 0x08 then "\\b" else if c as int == 0x0C then "\\f" else if c as int == 0x0A then "\\n"
    else if c as int == 0x0D then "\\r" else if c as int == 0x09 then "\\t"
    else if c as int < 0x20 then "\\u00" + [HexDigit(c as int / 16), HexDigit(c as int % 16)]
    else [c]
  }

  function Bytewise(s: string): string {
    if s == "" then "" else ByteText(s[0]) + Bytewise(s[1..])
  }

  lemma {:induction false} BytewiseAppend(a: string, b: string)
    ensures Bytewise(a + b) == Bytewise(a) + Bytewise(b)
  {
    hide ByteText;
    if a == "" {
      assert a + b == b;
    } else {
      assert (a + b)[1..] == a[1..] + b;
      BytewiseAppend(a[1..], b);
    }
  }

  lemma {:induction false} RawBytewise(s: string)
    requires forall i :: 0 <= i < |s| ==> RawByte(s[i])
    ensures Bytewise(s) == s
  {
    if s != "" {
      RawBytewise(s[1..]);
    }
  }

  lemma OneByte(c: char)
    ensures Bytewise([c]) == ByteText(c)
  {
    hide ByteText;
    assert [c][1..] == "" && ByteText(c) + "" == ByteText(c);
  }

  lemma RuneBytewise(r: int)
    requires Scalar(r)
    ensures Bytewise(EncodeRune(r)) == EscapeRune(r)
  {
    if r < 0x80 {
      OneByte(r as char);
    } else {
      RawBytewise(EncodeRune(r));
    }
  }

  lemma {:induction false} EscapedBytewise(rs: seq<int>)
    requires AllScalar(rs)
    ensures EscapeRunes(rs) == Bytewise(Encode(rs))
  {
    if rs != [] {
      RuneBytewise(rs[0]);
      EscapedBytewise(rs[1..]);
      BytewiseAppend(EncodeRune(rs[0]), Encode(rs[1..]));
      hide Bytewise, EscapeRune, EncodeRune;
    }
  }

  lemma QuoteBytewise(s: string)
    requires Valid(s)
    ensures Quote(s) == "\"" + (Bytewise(s) + "\"")
  {
    EncodeOfRunes(s);
    EscapedBytewise(Runes(s));
    hide EscapeRunes, Runes, Bytewise;
  }

  // ----- no literal is shorter

  // The escape `u` starts with is no shorter than the bytes it stands for need,
  // and as short only if it is their spelling.
  lemma EscapeCosts(u: string)
    requires ReadEscape(u).Some?
    ensures var (cp, size) := ReadEscape(u).value;
      && |EscapeRune(cp)| <= size
      && (|EscapeRune(cp)| == size && LowerHex(u) ==> u[..size] == EscapeRune(cp) && LowerHex(u[size..]))
  {
    var (cp, size) := ReadEscape(u).value;
    if size == 2 {
      ShortEscapeCosts(u);
    } else {
      LongEscapeCosts(u);
    }
  }

  lemma ShortEscapeCosts(u: string)
    requires ReadEscape(u).Some? && ReadEscape(u).value.1 == 2
    ensures var cp := ReadEscape(u).value.0;
      && |EscapeRune(cp)| <= 2
      && (|EscapeRune(cp)| == 2 && LowerHex(u) ==> u[..2] == EscapeRune(cp) && LowerHex(u[2..]))
  {
    assert u[1] != 'u';
  }

  lemma HexLower(c: char)
    requires HexValue(c).Some? && !('A' <= c <= 'F')
    ensures c == HexDigit(HexValue(c).value)
  {
  }

  lemma LongEscapeCosts(u: string)
    requires ReadEscape(u).Some? && ReadEscape(u).value.1 != 2
    ensures var (cp, size) := ReadEscape(u).value;
      && |EscapeRune(cp)| <= size
      && (|EscapeRune(cp)| == size && LowerHex(u) ==> u[..size] == EscapeRune(cp) && LowerHex(u[size..]))
  {
    var (cp, size) := ReadEscape(u).value;
    assert u[1] == 'u' && (size == 6 || size == 12);
    if |EscapeRune(cp)| == size && LowerHex(u) {
      ControlDigits(u, cp);
    }
  }

  lemma ControlDigits(u: string, cp: int)
    requires UnicodeEscape(u) == Some(cp) && 0 <= cp < 0x20 && LowerHex(u)
    ensures u[..6] == "\\u00" + [HexDigit(cp / 16), HexDigit(cp % 16)] && LowerHex(u[6..])
  {
    var h := u[2..6];
    assert u[2] == h[0] && u[3] == h[1] && u[4] == h[2] && u[5] == h[3];
    HexLower(u[2]);
    HexLower(u[3]);
    HexLower(u[4]);
    HexLower(u[5]);
    var a, b, c, d := HexValue(u[2]).value, HexValue(u[3]).value, HexValue(u[4]).value, HexValue(u[5]).value;
    assert ((a * 16 + b) * 16 + c) * 16 + d == cp;
    assert a == 0 && b == 0 && c == cp / 16 && d == cp % 16;
  }

  lemma {:induction false} CharsCost(u: string, s: string)
    requires ReadChars(u) == Some((s, ""))
    ensures |Bytewise(s)| + 1 <= |u|
    ensures |u| == |Bytewise(s)| + 1 && LowerHex(u) ==> u == Bytewise(s) + "\""
    decreases |u|
  {
    hide ReadEscape, EscapeRune, EncodeRune, ByteText;
    if u[0] == '"' {
      assert u == "\"" + u[1..];
    } else if u[0] == '\\' {
      var (cp, size) := ReadEscape(u).value;
      var rest := ReadChars(u[size..]).value.0;
      EscapeCosts(u);
      CharsCost(u[size..], rest);
      RuneBytewise(cp);
      BytewiseAppend(EncodeRune(cp), rest);
      Regrouped(u, size, EscapeRune(cp), Bytewise(rest));
    } else {
      var rest := ReadChars(u[1..]).value.0;
      CharsCost(u[1..], rest);
      OneByte(u[0]);
      PlainByte(u[0]);
      BytewiseAppend([u[0]], rest);
      Regrouped(u, 1, [u[0]], Bytewise(rest));
    }
  }

  lemma PlainByte(c: char)
    requires c != '"' && c != '\\' && c as int >= 0x20
    ensures ByteText(c) == [c]
  {
  }

  lemma Regrouped(u: string, n: nat, a: string, b: string)
    requires n <= |u|
    ensures u[..n] == a && u[n..] == b + "\"" ==> u == (a + b) + "\""
  {
    assert u == u[..n] + u[n..];
  }

  lemma LowerThrough(c: char, t: string)
    ensures LowerHex(ByteText(c) + t) == LowerHex(t)
  {
    var s := ByteText(c) + t;
    assert s[|ByteText(c)|..] == t;
    if |ByteText(c)| == 6 {
      DigitsLower(c as int);
      assert s[4] == ByteText(c)[4] && s[5] == ByteText(c)[5];
    }
  }

  lemma DigitsLower(b: nat)
    requires b < 0x20
    ensures !('A' <= HexDigit(b / 16) <= 'F') && !('A' <= HexDigit(b % 16) <= 'F')
  {
  }

  lemma {:induction false} LowerBytewise(s: string)
    ensures LowerHex(Bytewise(s) + "\"")
  {
    if s != "" {
      LowerBytewise(s[1..]);
      LowerThrough(s[0], Bytewise(s[1..]) + "\"");
      hide ByteText, LowerHex;
      AppendThrough(ByteText(s[0]), Bytewise(s[1..]), "\"");
    } else {
      assert "" + "\"" == "\"";
    }
  }

  // A string is written as its shortest literal in lower case, and no other
  // text is that.
  lemma QuoteExactly(s: string, t: string)
    requires Valid(s)
    ensures t == Quote(s) <==> ShortestLiteral(t, s)
  {
    hide Quote, ReadChars, LowerHex, Bytewise, Valid;
    QuoteBytewise(s);
    LowerBytewise(s);
    ReadQuoted(s, "");
    var q := Quote(s);
    assert q + "" == q && q[1..] == Bytewise(s) + "\"";
    forall u | LiteralFor(u, s) ensures |q| <= |u| {
      CharsCost(u[1..], s);
    }
    if ShortestLiteral(t, s) {
      assert |t| <= |q|;
      CharsCost(t[1..], s);
      assert t == "\"" + t[1..];
    }
  }
}

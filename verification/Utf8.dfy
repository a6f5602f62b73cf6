// UTF-8 as Go decodes it, and the scalar-string guards of jcs/jcs.go.
module Utf8 {

  // A Unicode scalar value: a code point that is not a surrogate.
  predicate Scalar(cp: int) {
    0 <= cp < 0xD800 || 0xE000 <= cp <= 0x10FFFF
  }

  predicate AllScalar(cps: seq<int>) {
    forall i :: 0 <= i < |cps| ==> Scalar(cps[i])
  }

  function EncodeRune(cp: int): (r: string)
    requires Scalar(cp)
    ensures 1 <= |r| <= 4
  {
    if cp < 0x80 then [cp as char]
    else if cp < 0x800 then [(0xC0 + cp / 64) as char, (0x80 + cp % 64) as char]
    else if cp < 0x10000 then
      [(0xE0 + cp / 4096) as char, (0x80 + cp / 64 % 64) as char, (0x80 + cp % 64) as char]
    else
      [(0xF0 + cp / 262144) as char, (0x80 + cp / 4096 % 64) as char, (0x80 + cp / 64 % 64) as char, (0x80 + cp % 64) as char]
  }

  function Encode(cps: seq<int>): string
    requires AllScalar(cps)
  {
    if cps == [] then "" else EncodeRune(cps[0]) + Encode(cps[1..])
  }

  predicate Continuation(c: char) {
    0x80 <= c as int <= 0xBF
  }

  // The second byte after a given lead byte: overlong forms, surrogates and
  // values above U+10FFFF are excluded here.
  predicate AcceptsSecond(lead: int, c: char) {
    && Continuation(c)
    && (lead == 0xE0 ==> 0xA0 <= c as int)
    && (lead == 0xED ==> c as int <= 0x9F)
    && (lead == 0xF0 ==> 0x90 <= c as int)
    && (lead == 0xF4 ==> c as int <= 0x8F)
  }

  // The length of the well-formed sequence at the front of `s`, or 0.
  function SequenceLength(s: string): (n: nat)
    requires s != ""
    ensures n <= |s|
  {
    var lead := s[0] as int;
    if lead < 0x80 then 1
    else if 0xC2 <= lead <= 0xDF && |s| >= 2 && Continuation(s[1]) then 2
    else if 0xE0 <= lead <= 0xEF && |s| >= 3 && AcceptsSecond(lead, s[1]) && Continuation(s[2]) then 3
    else if 0xF0 <= lead <= 0xF4 && |s| >= 4 && AcceptsSecond(lead, s[1]) && Continuation(s[2]) && Continuation(s[3]) then 4
    else 0
  }

  const REPLACEMENT := 0xFFFD

  // utf8.DecodeRuneInString: an ill-formed byte reads as U+FFFD of width one.
  function DecodeRune(s: string): (r: (int, nat))
    requires s != ""
    ensures 1 <= r.1 <= |s|
  {
    match SequenceLength(s)
    case 0 => (REPLACEMENT, 1)
    case 1 => (s[0] as int, 1)
    case 2 => ((s[0] as int - 0xC0) * 64 + (s[1] as int - 0x80), 2)
    case 3 => ((s[0] as int - 0xE0) * 4096 + (s[1] as int - 0x80) * 64 + (s[2] as int - 0x80), 3)
    case _ => ((s[0] as int - 0xF0) * 262144 + (s[1] as int - 0x80) * 4096 + (s[2] as int - 0x80) * 64 + (s[3] as int - 0x80), 4)
  }

  // What a range loop over the string yields.
  function Runes(s: string): seq<int>
    decreases |s|
  {
    if s == "" then [] else
    var (cp, size) := DecodeRune(s);
    [cp] + Runes(s[size..])
  }

  // utf8.ValidString.
  predicate Valid(s: string)
    decreases |s|
  {
    s == "" || (SequenceLength(s) > 0 && Valid(s[SequenceLength(s)..]))
  }

  lemma DecodeOfShort(cp: int, rest: string)
    requires Scalar(cp) && cp < 0x800
    ensures SequenceLength(EncodeRune(cp) + rest) == |EncodeRune(cp)|
    ensures DecodeRune(EncodeRune(cp) + rest) == (cp, |EncodeRune(cp)|)
  {
    var r, s := EncodeRune(cp), EncodeRune(cp) + rest;
    assert s[0] == r[0] && (|r| == 2 ==> s[1] == r[1]);
  }

  lemma DecodeOfThree(cp: int, rest: string)
    requires Scalar(cp) && 0x800 <= cp < 0x10000
    ensures SequenceLength(EncodeRune(cp) + rest) == |EncodeRune(cp)|
    ensures DecodeRune(EncodeRune(cp) + rest) == (cp, |EncodeRune(cp)|)
  {
    var r, s := EncodeRune(cp), EncodeRune(cp) + rest;
    assert s[0] == r[0] && s[1] == r[1] && s[2] == r[2];
    assert cp / 4096 * 64 + cp / 64 % 64 == cp / 64;
  }

  lemma DecodeOfFour(cp: int, rest: string)
    requires Scalar(cp) && 0x10000 <= cp
    ensures SequenceLength(EncodeRune(cp) + rest) == |EncodeRune(cp)|
    ensures DecodeRune(EncodeRune(cp) + rest) == (cp, |EncodeRune(cp)|)
  {
    var r, s := EncodeRune(cp), EncodeRune(cp) + rest;
    assert s[0] == r[0] && s[1] == r[1] && s[2] == r[2] && s[3] == r[3];
    assert cp / 262144 * 64 + cp / 4096 % 64 == cp / 4096;
    assert cp / 4096 * 64 + cp / 64 % 64 == cp / 64;
  }

  lemma DecodeOfEncode(cp: int, rest: string)
    requires Scalar(cp)
    ensures SequenceLength(EncodeRune(cp) + rest) == |EncodeRune(cp)|
    ensures DecodeRune(EncodeRune(cp) + rest) == (cp, |EncodeRune(cp)|)
  {
    if cp < 0x800 {
      DecodeOfShort(cp, rest);
    } else if cp < 0x10000 {
      DecodeOfThree(cp, rest);
    } else {
      DecodeOfFour(cp, rest);
    }
  }

  lemma OneDigit(q: nat, r: nat)
    requires r < 64
    ensures (64 * q + r) / 64 == q && (64 * q + r) % 64 == r
  {
  }

  lemma DivideTwice(n: nat)
    ensures n / 4096 == n / 64 / 64 && n / 262144 == n / 64 / 64 / 64
  {
  }

  lemma SixBitDigits(a: nat, b: nat, c: nat, d: nat)
    requires b < 64 && c < 64 && d < 64
    ensures var n := a * 262144 + b * 4096 + c * 64 + d;
      n / 262144 == a && n / 4096 == a * 64 + b && n / 4096 % 64 == b && n / 64 % 64 == c && n % 64 == d
  {
    var n := a * 262144 + b * 4096 + c * 64 + d;
    assert n == 64 * (64 * (64 * a + b) + c) + d;
    OneDigit(64 * (64 * a + b) + c, d);
    OneDigit(64 * a + b, c);
    OneDigit(a, b);
    DivideTwice(n);
  }

  lemma EncodeOfDecode1(s: string)
    requires s != "" && SequenceLength(s) == 1
    ensures Scalar(DecodeRune(s).0) && EncodeRune(DecodeRune(s).0) == s[..1]
  {
  }

  lemma EncodeOfDecode2(s: string)
    requires s != "" && SequenceLength(s) == 2
    ensures Scalar(DecodeRune(s).0) && EncodeRune(DecodeRune(s).0) == s[..2]
  {
    SixBitDigits(0, 0, s[0] as int - 0xC0, s[1] as int - 0x80);
    var cp := DecodeRune(s).0;
    assert 0x80 <= cp < 0x800;
    assert EncodeRune(cp) == [s[0], s[1]];
  }

  lemma EncodeOfDecode3(s: string)
    requires s != "" && SequenceLength(s) == 3
    ensures Scalar(DecodeRune(s).0) && EncodeRune(DecodeRune(s).0) == s[..3]
  {
    SixBitDigits(0, s[0] as int - 0xE0, s[1] as int - 0x80, s[2] as int - 0x80);
    var cp := DecodeRune(s).0;
    assert 0x800 <= cp < 0x10000 && Scalar(cp);
    assert EncodeRune(cp) == [s[0], s[1], s[2]];
  }

  lemma EncodeOfDecode4(s: string)
    requires s != "" && SequenceLength(s) == 4
    ensures Scalar(DecodeRune(s).0) && EncodeRune(DecodeRune(s).0) == s[..4]
  {
    SixBitDigits(s[0] as int - 0xF0, s[1] as int - 0x80, s[2] as int - 0x80, s[3] as int - 0x80);
    var cp := DecodeRune(s).0;
    assert 0x10000 <= cp <= 0x10FFFF;
    assert EncodeRune(cp) == [s[0], s[1], s[2], s[3]];
  }

  lemma EncodeOfDecode(s: string)
    requires s != "" && SequenceLength(s) > 0
    ensures Scalar(DecodeRune(s).0) && EncodeRune(DecodeRune(s).0) == s[..SequenceLength(s)]
  {
    hide DecodeRune, EncodeRune;
    match SequenceLength(s)
    case 1 => EncodeOfDecode1(s);
    case 2 => EncodeOfDecode2(s);
    case 3 => EncodeOfDecode3(s);
    case 4 => EncodeOfDecode4(s);
  }

  lemma {:induction false} EncodeOfRunes(s: string)
    requires Valid(s)
    ensures AllScalar(Runes(s)) && Encode(Runes(s)) == s
    decreases |s|
  {
    if s != "" {
      EncodeOfDecode(s);
      EncodeOfRunes(s[SequenceLength(s)..]);
      assert Runes(s)[1..] == Runes(s[SequenceLength(s)..]);
    }
  }

  lemma {:induction false} RunesOfEncode(cps: seq<int>)
    requires AllScalar(cps)
    ensures Valid(Encode(cps)) && Runes(Encode(cps)) == cps
  {
    if cps != [] {
      var rest := Encode(cps[1..]);
      DecodeOfEncode(cps[0], rest);
      assert (EncodeRune(cps[0]) + rest)[|EncodeRune(cps[0])|..] == rest;
      RunesOfEncode(cps[1..]);
    }
  }

  // The valid strings are exactly the encodings of scalar sequences.
  lemma ValidExactly(s: string)
    ensures Valid(s) <==> exists cps :: AllScalar(cps) && Encode(cps) == s
  {
    if Valid(s) {
      EncodeOfRunes(s);
    }
    forall cps | AllScalar(cps) && Encode(cps) == s ensures Valid(s) {
      RunesOfEncode(cps);
    }
  }

  lemma {:induction false} RunesAlwaysScalar(s: string)
    ensures AllScalar(Runes(s))
    decreases |s|
  {
    if s != "" {
      if SequenceLength(s) > 0 {
        EncodeOfDecode(s);
      }
      RunesAlwaysScalar(s[DecodeRune(s).1..]);
    }
  }

  lemma {:induction false} AsciiValid(s: string)
    requires forall i :: 0 <= i < |s| ==> s[i] as int < 0x80
    ensures Valid(s)
  {
    if s != "" {
      AsciiValid(s[1..]);
    }
  }
}

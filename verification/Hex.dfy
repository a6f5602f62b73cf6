// encoding/hex on lower-case text.
module Hex {

  predicate IsBytes(s: string) {
    forall i :: 0 <= i < |s| ==> s[i] as int < 256
  }

  predicate IsHexChar(c: char) {
    '0' <= c <= '9' || 'a' <= c <= 'f'
  }

  predicate IsHex(s: string) {
    forall i :: 0 <= i < |s| ==> IsHexChar(s[i])
  }

  // The regular expression ^[0-9a-f]{64}$.
  predicate Hex64(s: string) {
    |s| == 64 && IsHex(s)
  }

  predicate Hex128(s: string) {
    |s| == 128 && IsHex(s)
  }

  function Nibble(d: nat): (c: char)
    requires d < 16
    ensures IsHexChar(c) && NibbleValue(c) == d
  {
    if d < 10 then ('0' as int + d) as char else ('a' as int + d - 10) as char
  }

  function NibbleValue(c: char): (d: nat)
    requires IsHexChar(c)
    ensures d < 16
  {
    if c <= '9' then c as int - '0' as int else c as int - 'a' as int + 10
  }

  function Encode(s: string): (r: string)
    requires IsBytes(s)
    ensures |r| == 2 * |s| && IsHex(r)
  {
    if s == "" then ""
    else [Nibble(s[0] as int / 16), Nibble(s[0] as int % 16)] + Encode(s[1..])
  }

  function Decode(s: string): (r: string)
    requires IsHex(s) && |s| % 2 == 0
    ensures 2 * |r| == |s| && IsBytes(r)
  {
    if s == "" then ""
    else [(NibbleValue(s[0]) * 16 + NibbleValue(s[1])) as char] + Decode(s[2..])
  }

  lemma ByteOfPair(b: nat)
    requires b < 256
    ensures NibbleValue(Nibble(b / 16)) * 16 + NibbleValue(Nibble(b % 16)) == b
  {
  }

  lemma {:induction false} DecodePair(x: char, y: char, rest: string)
    requires IsHexChar(x) && IsHexChar(y) && IsHex(rest) && |rest| % 2 == 0
    ensures NibbleValue(x) * 16 + NibbleValue(y) < 256
    ensures Decode([x, y] + rest) == [(NibbleValue(x) * 16 + NibbleValue(y)) as char] + Decode(rest)
  {
    hide NibbleValue;
    assert ([x, y] + rest)[2..] == rest;
  }

  lemma {:induction false} DecodeEncode(s: string)
    requires IsBytes(s)
    ensures Decode(Encode(s)) == s
  {
    if s != "" {
      DecodeEncode(s[1..]);
      hide Nibble, NibbleValue, Decode;
      ByteOfPair(s[0] as int);
      DecodePair(Nibble(s[0] as int / 16), Nibble(s[0] as int % 16), Encode(s[1..]));
      assert s == [s[0]] + s[1..];
    }
  }

  lemma EncodeInjective(a: string, b: string)
    requires IsBytes(a) && IsBytes(b) && Encode(a) == Encode(b)
    ensures a == b
  {
    DecodeEncode(a);
    DecodeEncode(b);
  }
}

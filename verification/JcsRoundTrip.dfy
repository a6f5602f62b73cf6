// Reading a canonical text gives back exactly the value it was written from.
module JcsRoundTrip {
  import opened Prelude
  import opened Utf8
  import opened Decimals
  import opened Jcs
  import opened JsonReader

  // ----- strings

  predicate RawByte(c: char) {
    c != '"' && c != '\\' && c as int >= 0x20
  }

  lemma PrependTwice(a: string, b: string, r: Option<(string, string)>)
    ensures Prepend(a + b, r) == Prepend(a, Prepend(b, r))
  {
    if r.Some? {
      assert a + b + r.value.0 == a + (b + r.value.0);
    }
  }

  lemma {:induction false} ReadRawBytes(b: string, tail: string)
    requires forall i :: 0 <= i < |b| ==> RawByte(b[i])
    ensures ReadChars(b + tail) == Prepend(b, ReadChars(tail))
  {
    if b == "" {
      assert b + tail == tail;
      if ReadChars(tail).Some? {
        assert "" + ReadChars(tail).value.0 == ReadChars(tail).value.0;
      }
    } else {
      assert (b + tail)[1..] == b[1..] + tail;
      ReadRawBytes(b[1..], tail);
      assert b == [b[0]] + b[1..];
      PrependTwice([b[0]], b[1..], ReadChars(tail));
    }
  }

  lemma HexDigitRead(d: nat)
    requires d < 16
    ensures HexValue(HexDigit(d)) == Some(d)
  {
  }

  lemma ReadControlEscape(r: int, tail: string)
    requires 0 <= r < 0x20
    ensures ReadEscape("\\u00" + [HexDigit(r / 16), HexDigit(r % 16)] + tail) == Some((r, 6))
  {
    var s := "\\u00" + [HexDigit(r / 16), HexDigit(r % 16)] + tail;
    HexDigitRead(r / 16);
    HexDigitRead(r % 16);
    assert s[2..6] == ['0', '0', HexDigit(r / 16), HexDigit(r % 16)];
  }

  lemma ReadEscapedRune(r: int, tail: string)
    requires Scalar(r)
    ensures ReadChars(EscapeRune(r) + tail) == Prepend(EncodeRune(r), ReadChars(tail))
  {
    var s := EscapeRune(r) + tail;
    if r >= 0x20 && r != 0x22 && r != 0x5C {
      ReadRawBytes(EncodeRune(r), tail);
    } else {
      if |EscapeRune(r)| == 6 {
        ReadControlEscape(r, tail);
      }
      assert ReadEscape(s) == Some((r, |EscapeRune(r)|));
      assert s[|EscapeRune(r)|..] == tail;
    }
  }

  lemma {:induction false} ReadEscapedRunes(rs: seq<int>, rest: string)
    requires AllScalar(rs)
    ensures ReadChars(EscapeRunes(rs) + ("\"" + rest)) == Some((Encode(rs), rest))
  {
    if rs == [] {
      assert "" + ("\"" + rest) == "\"" + rest;
      assert ("\"" + rest)[1..] == rest;
    } else {
      var more := EscapeRunes(rs[1..]) + ("\"" + rest);
      AppendThrough(EscapeRune(rs[0]), EscapeRunes(rs[1..]), "\"" + rest);
      ReadEscapedRune(rs[0], more);
      ReadEscapedRunes(rs[1..], rest);
    }
  }

  lemma ReadQuoted(s: string, rest: string)
    requires Valid(s)
    ensures (Quote(s) + rest)[0] == '"'
    ensures ReadChars((Quote(s) + rest)[1..]) == Some((s, rest))
  {
    hide Runes, EscapeRunes, ReadChars, Valid;
    EncodeOfRunes(s);
    ReadEscapedRunes(Runes(s), rest);
    assert (Quote(s) + rest)[1..] == EscapeRunes(Runes(s)) + ("\"" + rest);
  }

  // ----- the reader, branch by branch

  lemma ValueIsString(s: string, chars: string, rest: string)
    requires s != "" && s[0] == '"' && ReadChars(s[1..]) == Some((chars, rest))
    ensures ReadValue(s) == Some((JString(chars), rest))
  {
  }

  lemma ValueIsNumber(s: string, n: RawNumber, rest: string)
    requires s != "" && (s[0] == '-' || IsDigit(s[0])) && ReadNumber(s) == Some((n, rest))
    ensures ReadValue(s) == Some((JNumber(Normalize(n)), rest))
  {
    hide ReadNumber, ReadChars, ReadItems, ReadMembers, Literal, Normalize;
  }

  predicate StartsSolid(s: string) {
    s != "" && s[0] !in " \t\n\r]},:"
  }

  lemma ValueIsArray(body: string, items: seq<Json>, rest: string)
    requires StartsSolid(body) && ReadItems(body) == Some((items, rest))
    ensures ReadValue("[" + body) == Some((JArray(items), rest))
  {
    assert ("[" + body)[1..] == body;
  }

  lemma ValueIsObject(body: string, members: map<string, Json>, rest: string)
    requires StartsSolid(body) && ReadMembers(body) == Some((members, rest))
    ensures ReadValue("{" + body) == Some((JObject(members), rest))
  {
    assert ("{" + body)[1..] == body;
  }

  lemma ItemsLast(text: string, v: Json, rest: string)
    requires ReadValue(text) == Some((v, "]" + rest))
    ensures ReadItems(text) == Some(([v], rest))
  {
    assert ("]" + rest)[1..] == rest;
  }

  lemma ItemsMore(text: string, v: Json, next: string, items: seq<Json>, rest: string)
    requires ReadValue(text) == Some((v, "," + next)) && ReadItems(next) == Some((items, rest))
    ensures ReadItems(text) == Some(([v] + items, rest))
  {
    assert ("," + next)[1..] == next;
  }

  lemma MembersLast(text: string, k: string, v: Json, rest: string)
    requires ReadMember(text) == Some((k, v, "}" + rest))
    ensures ReadMembers(text) == Some((map[k := v], rest))
  {
    assert ("}" + rest)[1..] == rest;
  }

  lemma MembersMore(text: string, k: string, v: Json, next: string, members: map<string, Json>, rest: string)
    requires ReadMember(text) == Some((k, v, "," + next)) && ReadMembers(next) == Some((members, rest))
    ensures ReadMembers(text) == Some((map[k := v] + members, rest))
  {
    assert ("," + next)[1..] == next;
  }

  // ----- values

  function DenoteFloat(f: GoFloat): Decimal
    requires FiniteFloat(f)
  {
    match f
    case ZeroFloat(_) => Zero
    case Finite(negative, mantissa, exp) => DecimalOfFloat(negative, mantissa, exp)
  }

  // The JSON value a Go value stands for.
  function Denote(v: GoValue): Json
    requires Writable(v)
  {
    match v
    case Nil => JNull
    case Boolean(b) => JBool(b)
    case Text(s) => JString(s)
    case Number(parsed, _) => JNumber(DenoteFloat(parsed.value))
    case Float64(f) => JNumber(DenoteFloat(f))
    case Integer(i) => JNumber(DecimalOfInt(i))
    case Slice(items) => JArray(seq(|items|, i requires 0 <= i < |items| => Denote(items[i])))
    case Map(members) => JObject(map k | k in members :: Denote(members[k]))
  }

  // What may stand behind a value in JSON text.
  predicate Terminated(rest: string) {
    rest == "" || rest[0] == ',' || rest[0] == ']' || rest[0] == '}'
  }

  lemma ReadFloat(f: GoFloat, rest: string)
    requires FiniteFloat(f) && Terminated(rest)
    ensures ReadValue(NumberText(f) + rest) == Some((JNumber(DenoteFloat(f)), rest))
  {
    if f.ZeroFloat? {
      ReadZero(rest);
    } else {
      hide EsNumber, ReadNumber, ReadValue, Normalize;
      var s := NumberText(f) + rest;
      EsNumberRoundTrip(f.negative, f.mantissa, f.exp, rest);
      EsNumberStart(f.negative, f.mantissa, f.exp);
      assert s[0] == EsNumber(f.negative, f.mantissa, f.exp)[0];
      ValueIsNumber(s, ReadNumber(s).value.0, rest);
    }
  }

  lemma EsNumberStart(negative: bool, mantissa: string, exp: int)
    requires Scientific(mantissa)
    ensures var s := EsNumber(negative, mantissa, exp); s != "" && (s[0] == '-' || IsDigit(s[0]))
  {
    TrimScientific(mantissa);
  }

  lemma ReadZero(rest: string)
    requires Terminated(rest)
    ensures ReadValue("0" + rest) == Some((JNumber(Zero), rest))
  {
    ReadDigitsExact("0", rest);
    assert DropZeros("0" + "") == "" by {
      assert ("0" + "")[1..] == "";
    }
  }

  lemma {:induction false} ItoaBounded(n: nat, k: nat)
    requires k > 0 && n < IntPow10(k)
    ensures |Itoa(n)| <= k
  {
    if n >= 10 {
      ItoaBounded(n / 10, k - 1);
    }
  }

  function IntPow10(k: nat): nat {
    if k == 0 then 1 else 10 * IntPow10(k - 1)
  }

  lemma Int64Digits(i: Int64)
    ensures |Itoa(Abs(i))| <= 21
  {
    assert IntPow10(10) == 10_000_000_000;
    assert IntPow10(19) == 10_000_000_000_000_000_000;
    ItoaBounded(Abs(i), 19);
  }

  lemma ZeroPrints()
    ensures FormatInt(0) == "0"
  {
  }

  lemma ReadInt(i: Int64, rest: string)
    requires Terminated(rest)
    ensures ReadValue(FormatInt(i) + rest) == Some((JNumber(DecimalOfInt(i)), rest))
  {
    hide ReadValue, EsNumber, Itoa, TrimZeros;
    if i == 0 {
      ReadZero(rest);
      assert FormatInt(0) == "0" by {
        ZeroPrints();
      }
    } else {
      Int64Digits(i);
      IntegerBranchesAgree(i);
      ReadFloat(Finite(i < 0, Itoa(Abs(i)), |Itoa(Abs(i))| - 1), rest);
    }
  }

  lemma ReadWord(word: string, rest: string)
    ensures word <= word + rest && (word + rest)[|word|..] == rest
  {
  }

  // The reader stops exactly at the end of the canonical text, on exactly the
  // value it was written from.
  lemma {:induction false} ReadCanon(v: GoValue, rest: string)
    requires Writable(v) && Terminated(rest)
    ensures ReadValue(Canon(v) + rest) == Some((Denote(v), rest))
    decreases v, 1, 0
  {
    match v
    case Nil => ReadWord("null", rest);
    case Boolean(b) => ReadWord(if b then "true" else "false", rest);
    case Text(s) =>
      ReadQuoted(s, rest);
      ValueIsString(Quote(s) + rest, s, rest);
    case Number(parsed, _) => ReadFloat(parsed.value, rest);
    case Float64(f) => ReadFloat(f, rest);
    case Integer(i) => ReadInt(i, rest);
    case Slice(items) => ReadCanonSlice(v, rest);
    case Map(members) => ReadCanonMap(v, rest);
  }

  // A canonical text starts with no space and no closing bracket.
  lemma CanonStart(v: GoValue)
    requires Writable(v)
    ensures StartsSolid(Canon(v))
  {
    if v.Number? && v.parsed.value.Finite? {
      EsNumberStart(v.parsed.value.negative, v.parsed.value.mantissa, v.parsed.value.exp);
    } else if v.Float64? && v.f.Finite? {
      EsNumberStart(v.f.negative, v.f.mantissa, v.f.exp);
    } else if v.Integer? {
      assert IsDigit(Itoa(Abs(v.i))[0]);
    }
  }

  lemma ReadCanonSlice(v: GoValue, rest: string)
    requires v.Slice? && Writable(v)
    ensures ReadValue(Canon(v) + rest) == Some((Denote(v), rest))
    decreases v, 0, |v.items| + 1
  {
    if v.items == [] {
      assert Canon(v) + rest == "[" + ("]" + rest);
      assert ("[" + ("]" + rest))[1..] == "]" + rest && ("]" + rest)[1..] == rest;
      assert Denote(v) == JArray([]);
    } else {
      hide ReadValue, ReadItems, Canon, Denote;
      var body := ItemsFrom(v, 0) + ("]" + rest);
      CanonStart(v.items[0]);
      assert body[0] == Canon(v.items[0])[0];
      ReadCanonItems(v, 0, rest);
      ValueIsArray(body, DenoteItems(v, 0), rest);
      SliceText(v, rest);
      DenoteSlice(v);
    }
  }

  function DenoteItems(v: GoValue, i: nat): seq<Json>
    requires v.Slice? && Writable(v) && i <= |v.items|
    decreases |v.items| - i
  {
    if i == |v.items| then [] else [Denote(v.items[i])] + DenoteItems(v, i + 1)
  }

  lemma DenoteSlice(v: GoValue)
    requires v.Slice? && Writable(v)
    ensures Denote(v) == JArray(DenoteItems(v, 0))
  {
    DenoteItemsAt(v, 0);
    assert Denote(v).items[0..] == Denote(v).items;
  }

  lemma {:induction false} DenoteItemsAt(v: GoValue, i: nat)
    requires v.Slice? && Writable(v) && i <= |v.items|
    ensures DenoteItems(v, i) == Denote(v).items[i..]
    decreases |v.items| - i
  {
    if i < |v.items| {
      DenoteItemsAt(v, i + 1);
      var all := Denote(v).items;
      assert all[i..] == [all[i]] + all[i + 1..];
    }
  }

  lemma SliceText(v: GoValue, rest: string)
    requires v.Slice? && Writable(v) && v.items != []
    ensures Canon(v) + rest == "[" + (ItemsFrom(v, 0) + ("]" + rest))
  {
    assert CanonItems(v, 0) == "" + Canon(v.items[0]) + CanonItems(v, 1);
    assert "" + Canon(v.items[0]) == Canon(v.items[0]);
    Bracketed("[", ItemsFrom(v, 0), "]", rest);
  }

  lemma Bracketed(open: string, body: string, close: string, rest: string)
    ensures (open + body + close) + rest == open + (body + (close + rest))
  {
  }

  // Item `i` and later, without the comma before.
  function ItemsFrom(v: GoValue, i: nat): string
    requires v.Slice? && Writable(v) && i < |v.items|
  {
    Canon(v.items[i]) + CanonItems(v, i + 1)
  }

  lemma {:induction false} ReadCanonItems(v: GoValue, i: nat, rest: string)
    requires v.Slice? && Writable(v) && i < |v.items|
    ensures ReadItems(ItemsFrom(v, i) + ("]" + rest)) == Some((DenoteItems(v, i), rest))
    decreases v, 0, |v.items| - i
  {
    hide ReadValue, ReadItems, Canon, Denote;
    var tail := CanonItems(v, i + 1) + ("]" + rest);
    AppendThrough(Canon(v.items[i]), CanonItems(v, i + 1), "]" + rest);
    assert Terminated(tail);
    ReadCanon(v.items[i], tail);
    var text, d := ItemsFrom(v, i) + ("]" + rest), Denote(v.items[i]);
    if i + 1 == |v.items| {
      assert tail == "]" + rest;
      ItemsLast(text, d, rest);
      assert DenoteItems(v, i) == [d];
    } else {
      CommaThen(Canon(v.items[i + 1]), CanonItems(v, i + 2), "]" + rest);
      ReadCanonItems(v, i + 1, rest);
      ItemsMore(text, d, ItemsFrom(v, i + 1) + ("]" + rest), DenoteItems(v, i + 1), rest);
    }
  }

  lemma CommaThen(a: string, b: string, rest: string)
    ensures ("," + a + b) + rest == "," + ((a + b) + rest)
  {
  }

  lemma ReadCanonMap(v: GoValue, rest: string)
    requires v.Map? && Writable(v)
    ensures ReadValue(Canon(v) + rest) == Some((Denote(v), rest))
    decreases v, 0, |SortedKeys(v.members.Keys)| + 1
  {
    var keys := SortedKeys(v.members.Keys);
    if keys == [] {
      ReadEmptyMap(v, rest);
    } else {
      hide ReadValue, ReadMembers, Canon, Denote, Quote, SortedKeys, Writable, MembersFrom;
      var body := MembersFrom(v, keys, 0) + ("}" + rest);
      MembersStart(v, keys, "}" + rest);
      ReadCanonMembers(v, keys, 0, rest);
      ValueIsObject(body, MembersMap(v, keys, 0), rest);
      MapText(v, rest);
      DenoteMap(v);
    }
  }

  lemma ReadEmptyMap(v: GoValue, rest: string)
    requires v.Map? && Writable(v) && SortedKeys(v.members.Keys) == []
    ensures ReadValue(Canon(v) + rest) == Some((Denote(v), rest))
  {
    assert Canon(v) + rest == "{" + ("}" + rest);
    assert ("{" + ("}" + rest))[1..] == "}" + rest && ("}" + rest)[1..] == rest;
    assert Denote(v).members == map[];
  }

  lemma MembersStart(v: GoValue, keys: seq<string>, rest: string)
    requires v.Map? && Writable(v) && (forall k <- keys :: k in v.members) && keys != []
    ensures StartsSolid(MembersFrom(v, keys, 0) + rest)
  {
    hide Runes, EscapeRunes, Canon;
    assert (MembersFrom(v, keys, 0) + rest)[0] == Quote(keys[0])[0] == '"';
  }

  lemma DenoteMap(v: GoValue)
    requires v.Map? && Writable(v)
    ensures Denote(v) == JObject(MembersMap(v, SortedKeys(v.members.Keys), 0))
  {
    var keys := SortedKeys(v.members.Keys);
    assert keys[0..] == keys;
    assert Denote(v).members == MembersMap(v, keys, 0);
  }

  lemma MapText(v: GoValue, rest: string)
    requires v.Map? && Writable(v) && SortedKeys(v.members.Keys) != []
    ensures Canon(v) + rest == "{" + (MembersFrom(v, SortedKeys(v.members.Keys), 0) + ("}" + rest))
  {
    hide Quote;
    var keys := SortedKeys(v.members.Keys);
    assert "" + Quote(keys[0]) == Quote(keys[0]);
    assert CanonMembers(v, keys, 0) == MembersFrom(v, keys, 0);
    Bracketed("{", MembersFrom(v, keys, 0), "}", rest);
  }

  function MembersFrom(v: GoValue, keys: seq<string>, i: nat): string
    requires v.Map? && Writable(v) && (forall k <- keys :: k in v.members) && i < |keys|
  {
    Quote(keys[i]) + ":" + Canon(v.members[keys[i]]) + CanonMembers(v, keys, i + 1)
  }

  function MembersMap(v: GoValue, keys: seq<string>, i: nat): map<string, Json>
    requires v.Map? && Writable(v) && (forall k <- keys :: k in v.members) && i <= |keys|
  {
    map k | k in keys[i..] :: Denote(v.members[k])
  }

  lemma MembersMapCons(v: GoValue, keys: seq<string>, i: nat)
    requires v.Map? && Writable(v) && (forall k <- keys :: k in v.members) && i < |keys|
    ensures MembersMap(v, keys, i) == map[keys[i] := Denote(v.members[keys[i]])] + MembersMap(v, keys, i + 1)
    ensures MembersMap(v, keys, |keys|) == map[]
  {
    hide Denote;
    assert keys[i..] == [keys[i]] + keys[i + 1..];
  }

  lemma {:induction false} ReadCanonMembers(v: GoValue, keys: seq<string>, i: nat, rest: string)
    requires v.Map? && Writable(v) && (forall k <- keys :: k in v.members) && i < |keys|
    ensures ReadMembers(MembersFrom(v, keys, i) + ("}" + rest)) == Some((MembersMap(v, keys, i), rest))
    decreases v, 0, |keys| - i
  {
    hide ReadValue, ReadMembers, ReadMember, Canon, Denote, Quote, MembersMap;
    var k := keys[i];
    var tail := CanonMembers(v, keys, i + 1) + ("}" + rest);
    assert Terminated(tail);
    ReadCanon(v.members[k], tail);
    ReadCanonMember(k, Canon(v.members[k]), Denote(v.members[k]), tail);
    var text, d := MembersFrom(v, keys, i) + ("}" + rest), Denote(v.members[k]);
    MemberThen(Quote(k), Canon(v.members[k]), CanonMembers(v, keys, i + 1), "}" + rest);
    MembersMapCons(v, keys, i);
    if i + 1 == |keys| {
      assert tail == "}" + rest;
      MembersLast(text, k, d, rest);
      assert map[k := d] + map[] == map[k := d];
    } else {
      var next := MembersFrom(v, keys, i + 1) + ("}" + rest);
      CommaThenMember(Quote(keys[i + 1]), Canon(v.members[keys[i + 1]]), CanonMembers(v, keys, i + 2), "}" + rest);
      ReadCanonMembers(v, keys, i + 1, rest);
      MembersMore(text, k, d, next, MembersMap(v, keys, i + 1), rest);
    }
  }

  lemma CommaThenMember(k: string, v: string, more: string, rest: string)
    ensures ("," + k + ":" + v + more) + rest == "," + ((k + ":" + v + more) + rest)
  {
  }

  lemma MemberThen(k: string, v: string, more: string, rest: string)
    ensures (k + ":" + v + more) + rest == k + (":" + (v + (more + rest)))
  {
  }

  lemma ReadCanonMember(k: string, text: string, v: Json, tail: string)
    requires Valid(k) && ReadValue(text + tail) == Some((v, tail))
    ensures ReadMember(Quote(k) + (":" + (text + tail))) == Some((k, v, tail))
  {
    hide ReadValue, Quote, ReadChars;
    var rest := ":" + (text + tail);
    ReadQuoted(k, rest);
    assert rest[1..] == text + tail;
  }
}

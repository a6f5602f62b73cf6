// The RFC 8785 canonicalizer of jcs/jcs.go.
module Jcs {
  import opened Prelude
  import opened Lexicographic
  import opened Sorting
  import opened Utf8
  import opened ScalarStrings
  import opened Decimals

  // The shortest mantissa strconv gives for a finite non-zero float.
  type Mantissa = s: string | Scientific(s) witness "1"

  type Int64 = i: int | -0x8000_0000_0000_0000 <= i < 0x8000_0000_0000_0000

  datatype GoFloat = NaN | Infinity(negative: bool) | ZeroFloat(negative: bool) | Finite(negative: bool, mantissa: Mantissa, exp: int)

  // The dynamic types write switches over. A json.Number carries what its
  // Float64 method answers and whether its literal is free of '.', 'e' and 'E';
  // `Other` is any type the switch does not know.
  datatype GoValue =
    | Nil
    | Boolean(b: bool)
    | Text(s: string)
    | Number(parsed: Option<GoFloat>, plain: bool)
    | Float64(f: GoFloat)
    | Integer(i: Int64)
    | Slice(items: seq<GoValue>)
    | Map(members: map<string, GoValue>)
    | Other

  predicate FiniteFloat(f: GoFloat) {
    f.ZeroFloat? || f.Finite?
  }

  // What write accepts.
  predicate Writable(v: GoValue) {
    match v
    case Nil => true
    case Boolean(_) => true
    case Text(s) => Valid(s)
    case Number(parsed, _) => parsed.Some? && FiniteFloat(parsed.value)
    case Float64(f) => FiniteFloat(f)
    case Integer(_) => true
    case Slice(items) => forall i | 0 <= i < |items| :: Writable(items[i])
    case Map(members) => forall k | k in members :: Valid(k) && Writable(members[k])
    case Other => false
  }

  // ----- the canonical text

  function HexDigit(d: nat): char
    requires d < 16
  {
    "0123456789abcdef"[d]
  }

  function EscapeRune(r: int): string
    requires Scalar(r)
  {
    if r == 0x22 then "\\\""
    else if r == 0x5C then "\\\\"
    else if r == 0x08 then "\\b"
    else if r == 0x0C then "\\f"
    else if r == 0x0A then "\\n"
    else if r == 0x0D then "\\r"
    else if r == 0x09 then "\\t"
    else if r < 0x20 then "\\u00" + [HexDigit(r / 16), HexDigit(r % 16)]
    else EncodeRune(r)
  }

  function EscapeRunes(rs: seq<int>): string
    requires AllScalar(rs)
  {
    if rs == [] then "" else EscapeRune(rs[0]) + EscapeRunes(rs[1..])
  }

  function Quote(s: string): string {
    RunesAlwaysScalar(s);
    "\"" + EscapeRunes(Runes(s)) + "\""
  }

  function NumberText(f: GoFloat): string
    requires FiniteFloat(f)
  {
    match f
    case ZeroFloat(_) => "0"
    case Finite(negative, mantissa, exp) => EsNumber(negative, mantissa, exp)
  }

  predicate SmallestKey(keys: set<string>, k: string) {
    k in keys && forall y :: y in keys && y != k ==> LessUtf16(k, y)
  }

  lemma {:induction false} SmallestKeyExists(keys: set<string>)
    requires keys != {} && forall k :: k in keys ==> Valid(k)
    ensures exists k :: SmallestKey(keys, k)
  {
    var k :| k in keys;
    if keys == {k} {
      assert SmallestKey(keys, k);
    } else {
      var rest := keys - {k};
      SmallestKeyExists(rest);
      var m :| SmallestKey(rest, m);
      LessUtf16Total(k, m);
      if LessUtf16(k, m) {
        forall y | y in keys && y != k ensures LessUtf16(k, y) {
          if y != m {
            LessUtf16Transitive(k, m, y);
          }
        }
        assert SmallestKey(keys, k);
      } else {
        assert SmallestKey(keys, m);
      }
    }
  }

  lemma SmallestKeyUnique(keys: set<string>, k: string, m: string)
    requires SmallestKey(keys, k) && SmallestKey(keys, m)
    ensures k == m
  {
    if k != m {
      LessUtf16Transitive(k, m, k);
      LessUtf16Irreflexive(k);
    }
  }

  function FirstKey(keys: set<string>): (k: string)
    requires keys != {} && forall k :: k in keys ==> Valid(k)
    ensures SmallestKey(keys, k)
  {
    SmallestKeyExists(keys);
    assert forall k, m :: SmallestKey(keys, k) && SmallestKey(keys, m) ==> k == m by {
      forall k, m | SmallestKey(keys, k) && SmallestKey(keys, m) ensures k == m {
        SmallestKeyUnique(keys, k, m);
      }
    }
    var k :| k in keys && SmallestKey(keys, k);
    k
  }

  // The keys in ascending order of their UTF-16 units.
  function SortedKeys(keys: set<string>): (r: seq<string>)
    requires forall k :: k in keys ==> Valid(k)
    ensures forall k :: k in r <==> k in keys
    ensures forall i, j :: 0 <= i < j < |r| ==> LessUtf16(r[i], r[j])
  {
    if keys == {} then [] else
    var k := FirstKey(keys);
    [k] + SortedKeys(keys - {k})
  }

  function Canon(v: GoValue): string
    requires Writable(v)
    decreases v, 1, 0
  {
    match v
    case Nil => "null"
    case Boolean(b) => if b then "true" else "false"
    case Text(s) => Quote(s)
    case Number(parsed, _) => NumberText(parsed.value)
    case Float64(f) => NumberText(f)
    case Integer(i) => FormatInt(i)
    case Slice(items) => "[" + CanonItems(v, 0) + "]"
    case Map(members) => "{" + CanonMembers(v, SortedKeys(members.Keys), 0) + "}"
  }

  function Comma(i: nat): string {
    if i > 0 then "," else ""
  }

  // Items `i` and later, each after the first behind a comma.
  function CanonItems(v: GoValue, i: nat): string
    requires v.Slice? && Writable(v) && i <= |v.items|
    decreases v, 0, |v.items| - i
  {
    if i == |v.items| then "" else Comma(i) + Canon(v.items[i]) + CanonItems(v, i + 1)
  }

  function CanonMembers(v: GoValue, keys: seq<string>, i: nat): string
    requires v.Map? && Writable(v) && (forall k <- keys :: k in v.members) && i <= |keys|
    decreases v, 0, |keys| - i
  {
    if i == |keys| then ""
    else Comma(i) + Quote(keys[i]) + ":" + Canon(v.members[keys[i]]) + CanonMembers(v, keys, i + 1)
  }

  // ----- the writer

  class Builder {
    var text: string

    constructor ()
      ensures text == ""
    {
      text := "";
    }

    // WriteString, WriteByte and WriteRune.
    method Append(s: string)
      modifies this
      ensures text == old(text) + s
    {
      text := text + s;
    }
  }

  method WriteString(sb: Builder, s: string)
    modifies sb
    ensures sb.text == old(sb.text) + Quote(s)
  {
    RunesAlwaysScalar(s);
    sb.Append("\"");
    ghost var start := sb.text;
    var rest := s;
    while rest != ""
      invariant AllScalar(Runes(rest))
      invariant sb.text + EscapeRunes(Runes(rest)) == start + EscapeRunes(Runes(s))
      decreases |rest|
    {
      var (r, size) := DecodeRune(rest);
      RunesAlwaysScalar(rest);
      assert Runes(rest) == [r] + Runes(rest[size..]);
      assert Runes(rest)[0] == r && Runes(rest)[1..] == Runes(rest[size..]);
      assert sb.text + (EscapeRune(r) + EscapeRunes(Runes(rest[size..]))) == sb.text + EscapeRune(r) + EscapeRunes(Runes(rest[size..]));
      sb.Append(EscapeRune(r));
      rest := rest[size..];
    }
    assert sb.text + "" == sb.text;
    sb.Append("\"");
  }

  datatype WriteError = Unicode(cause: UnicodeError) | ParseFailed | NotFinite | Unsupported

  method WriteNumber(sb: Builder, f: GoFloat) returns (err: Option<WriteError>)
    modifies sb
    ensures err.None? <==> FiniteFloat(f)
    ensures err.None? ==> sb.text == old(sb.text) + NumberText(f)
  {
    if f.Infinity? || f.NaN? {
      return Some(NotFinite);
    }
    if f.ZeroFloat? {
      sb.Append("0");
      return None;
    }
    sb.Append(EsNumber(f.negative, f.mantissa, f.exp));
    return None;
  }

  // A refused value leaves text behind in a builder no caller reads.
  method Write(sb: Builder, v: GoValue) returns (err: Option<WriteError>)
    modifies sb
    ensures err.None? <==> Writable(v)
    ensures err.None? ==> sb.text == old(sb.text) + Canon(v)
    decreases v, 1, 0
  {
    err := None;
    match v
    case Nil => sb.Append("null");
    case Boolean(b) => sb.Append(if b then "true" else "false");
    case Text(s) =>
      var invalid := ValidateScalarString(s);
      if invalid.Some? {
        return Some(Unicode(invalid.value));
      }
      WriteString(sb, s);
    case Number(parsed, _) =>
      if parsed.None? {
        return Some(ParseFailed);
      }
      err := WriteNumber(sb, parsed.value);
    case Float64(f) => err := WriteNumber(sb, f);
    case Integer(i) => sb.Append(FormatInt(i));
    case Slice(items) => err := WriteItems(sb, v);
    case Map(members) => err := WriteMembers(sb, v);
    case Other => err := Some(Unsupported);
  }

  lemma AppendThrough(a: string, b: string, c: string)
    ensures a + (b + c) == (a + b) + c
  {
  }

  method WriteItems(sb: Builder, v: GoValue) returns (err: Option<WriteError>)
    requires v.Slice?
    modifies sb
    ensures err.None? <==> Writable(v)
    ensures err.None? ==> sb.text == old(sb.text) + Canon(v)
    decreases v, 0, 1
  {
    hide Canon, Comma;
    sb.Append("[");
    ghost var start := sb.text;
    for i := 0 to |v.items|
      invariant forall k :: 0 <= k < i ==> Writable(v.items[k])
      invariant Writable(v) ==> sb.text + CanonItems(v, i) == start + CanonItems(v, 0)
    {
      ghost var before := sb.text;
      err := WriteItem(sb, v, i);
      if err.Some? {
        return;
      }
      if Writable(v) {
        AppendThrough(before, Comma(i) + Canon(v.items[i]), CanonItems(v, i + 1));
      }
    }
    sb.Append("]");
    err := None;
    CanonSlice(v, old(sb.text));
  }

  lemma CanonSlice(v: GoValue, before: string)
    requires v.Slice? && Writable(v)
    ensures before + "[" + CanonItems(v, 0) + "]" == before + Canon(v)
  {
    hide CanonItems;
    assert Canon(v) == "[" + CanonItems(v, 0) + "]";
    AppendThrough(before, "[", CanonItems(v, 0));
    AppendThrough(before, "[" + CanonItems(v, 0), "]");
  }

  method WriteItem(sb: Builder, v: GoValue, i: nat) returns (err: Option<WriteError>)
    requires v.Slice? && i < |v.items|
    modifies sb
    ensures err.None? <==> Writable(v.items[i])
    ensures err.None? ==> sb.text == old(sb.text) + (Comma(i) + Canon(v.items[i]))
    decreases v, 0, 0
  {
    if i > 0 {
      sb.Append(",");
    }
    err := Write(sb, v.items[i]);
    if err.None? {
      AppendThrough(old(sb.text), Comma(i), Canon(v.items[i]));
    }
  }

  lemma Utf16WeakOrder(keys: seq<string>)
    ensures WeakOrder(LessUtf16, keys)
    ensures (forall k <- keys :: Valid(k)) ==> TotalOrder(LessUtf16, keys)
  {
    forall x, y | LessUtf16(x, y) ensures !LessUtf16(y, x) {
      if LessUtf16(y, x) {
        LessUtf16Transitive(x, y, x);
        LessUtf16Irreflexive(x);
      }
    }
    forall x, y, z | !LessUtf16(x, y) && !LessUtf16(y, z) ensures !LessUtf16(x, z) {
      var a, b, c := Encode16(Runes(x)), Encode16(Runes(y)), Encode16(Runes(z));
      if LexLess(a, c) && a != b && b != c {
        LexTotal(a, b);
        LexTotal(b, c);
        LexTransitive(c, b, a);
        LexTransitive(a, c, a);
        LexIrreflexive(a);
      }
    }
    forall x, y | Valid(x) && Valid(y) && x != y ensures LessUtf16(x, y) || LessUtf16(y, x) {
      LessUtf16Total(x, y);
    }
  }

  // Whatever order the keys were enumerated in, sorting them gives SortedKeys.
  lemma SortedKeysUnique(keys: set<string>, sorted: seq<string>)
    requires forall k :: k in keys ==> Valid(k)
    requires multiset(sorted) == multiset(keys) && Ordered(LessUtf16, sorted)
    ensures sorted == SortedKeys(keys)
  {
    var r := SortedKeys(keys);
    DistinctAsMultiset(keys);
    forall k ensures k in sorted <==> k in keys {
      assert k in sorted <==> k in multiset(sorted);
      assert k in multiset(keys) <==> k in keys;
    }
    Utf16WeakOrder(sorted);
    Utf16WeakOrder(r);
    OrderedUnique(LessUtf16, sorted, r);
  }

  lemma {:induction false} DistinctAsMultiset(keys: set<string>)
    requires forall k :: k in keys ==> Valid(k)
    ensures multiset(SortedKeys(keys)) == multiset(keys)
  {
    if keys != {} {
      var k := FirstKey(keys);
      DistinctAsMultiset(keys - {k});
      assert multiset(keys) == multiset(keys - {k}) + multiset{k};
    }
  }

  // Go enumerates a map in no particular order.
  method EnumerateKeys(keys: set<string>) returns (r: seq<string>)
    ensures multiset(r) == multiset(keys)
  {
    r := [];
    var rest := keys;
    while rest != {}
      invariant multiset(r) + multiset(rest) == multiset(keys)
    {
      var k :| k in rest;
      assert multiset(rest) == multiset(rest - {k}) + multiset{k};
      r := r + [k];
      rest := rest - {k};
    }
  }

  method OrderedKeys(members: map<string, GoValue>) returns (keys: seq<string>)
    ensures forall k :: k in keys <==> k in members
    ensures (forall k :: k in members ==> Valid(k)) ==> keys == SortedKeys(members.Keys)
  {
    var enumerated := EnumerateKeys(members.Keys);
    Utf16WeakOrder(enumerated);
    keys := LibrarySort(LessUtf16, enumerated);
    forall k ensures k in keys <==> k in members {
      assert k in keys <==> k in multiset(keys);
      assert k in multiset(members.Keys) <==> k in members.Keys;
    }
    if forall k :: k in members.Keys ==> Valid(k) {
      SortedKeysUnique(members.Keys, keys);
    }
  }

  method WriteMembers(sb: Builder, v: GoValue) returns (err: Option<WriteError>)
    requires v.Map?
    modifies sb
    ensures err.None? <==> Writable(v)
    ensures err.None? ==> sb.text == old(sb.text) + Canon(v)
    decreases v, 0, 2
  {
    hide Canon, CanonMembers, Writable, Valid, SortedKeys, LessUtf16;
    var keys := OrderedKeys(v.members);
    sb.Append("{");
    err := WriteInOrder(sb, v, keys);
    if err.None? {
      sb.Append("}");
      CanonMap(v, keys, old(sb.text));
    }
  }

  lemma CanonMap(v: GoValue, keys: seq<string>, before: string)
    requires v.Map? && Writable(v) && forall k :: k in keys <==> k in v.members
    requires (forall k :: k in v.members ==> Valid(k)) ==> keys == SortedKeys(v.members.Keys)
    ensures before + "{" + CanonMembers(v, keys, 0) + "}" == before + Canon(v)
  {
    hide CanonMembers, Valid, SortedKeys;
    assert Canon(v) == "{" + CanonMembers(v, keys, 0) + "}";
    AppendThrough(before, "{", CanonMembers(v, keys, 0));
    AppendThrough(before, "{" + CanonMembers(v, keys, 0), "}");
  }

  method WriteInOrder(sb: Builder, v: GoValue, keys: seq<string>) returns (err: Option<WriteError>)
    requires v.Map? && forall k :: k in keys <==> k in v.members
    modifies sb
    ensures err.None? <==> Writable(v)
    ensures err.None? ==> sb.text == old(sb.text) + CanonMembers(v, keys, 0)
    decreases v, 0, 1
  {
    hide Quote, Canon, Valid, Comma;
    ghost var start := sb.text;
    for i := 0 to |keys|
      invariant forall j :: 0 <= j < i ==> Valid(keys[j]) && Writable(v.members[keys[j]])
      invariant Writable(v) ==> sb.text + CanonMembers(v, keys, i) == start + CanonMembers(v, keys, 0)
    {
      ghost var before := sb.text;
      err := WriteMember(sb, v, keys[i], i);
      if err.Some? {
        return;
      }
      if Writable(v) {
        AppendThrough(before, Comma(i) + Quote(keys[i]) + ":" + Canon(v.members[keys[i]]), CanonMembers(v, keys, i + 1));
      }
    }
    return None;
  }

  method WriteMember(sb: Builder, v: GoValue, k: string, i: nat) returns (err: Option<WriteError>)
    requires v.Map? && k in v.members
    modifies sb
    ensures err.None? <==> Valid(k) && Writable(v.members[k])
    ensures err.None? ==> sb.text == old(sb.text) + (Comma(i) + Quote(k) + ":" + Canon(v.members[k]))
    decreases v, 0, 0
  {
    hide Quote, Canon, Valid, Writable;
    if i > 0 {
      sb.Append(",");
    }
    assert sb.text == old(sb.text) + Comma(i);
    var invalid := ValidateScalarString(k);
    if invalid.Some? {
      return Some(Unicode(invalid.value));
    }
    WriteString(sb, k);
    sb.Append(":");
    err := Write(sb, v.members[k]);
    if err.None? {
      AppendThrough(old(sb.text), Comma(i), Quote(k));
      AppendThrough(old(sb.text), Comma(i) + Quote(k), ":");
      AppendThrough(old(sb.text), Comma(i) + Quote(k) + ":", Canon(v.members[k]));
    }
  }

  method Canonicalize(v: GoValue) returns (r: Result<string, WriteError>)
    ensures r.Ok? <==> Writable(v)
    ensures r.Ok? ==> r.value == Canon(v)
  {
    var sb := new Builder();
    var err := Write(sb, v);
    if err.Some? {
      return Err(err.value);
    }
    assert "" + Canon(v) == Canon(v);
    return Ok(sb.text);
  }
}

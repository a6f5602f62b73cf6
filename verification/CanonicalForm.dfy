// The canonical text of RFC 8785 (section 3.2) as a relation between texts and
// JSON values, and the canonicalizer's output as the one text it allows.
module CanonicalForm {
  import opened ScalarStrings
  import opened Decimals
  import opened Jcs
  import opened JsonReader
  import opened JcsRoundTrip
  import opened LiteralForm
  import opened NumberForm

  function Joined(parts: seq<string>): string {
    if parts == [] then "" else if |parts| == 1 then parts[0] else parts[0] + "," + Joined(parts[1..])
  }

  function Pairs(names: seq<string>, values: seq<string>): (r: seq<string>)
    requires |names| == |values|
    ensures |r| == |names| && forall i :: 0 <= i < |r| ==> r[i] == names[i] + ":" + values[i]
  {
    seq(|names|, i requires 0 <= i < |names| => names[i] + ":" + values[i])
  }

  // The names in ascending order of their UTF-16 units.
  ghost predicate AscendingKeys(keys: seq<string>, members: map<string, Json>) {
    && (forall k :: k in keys <==> k in members)
    && forall i, j :: 0 <= i < j < |keys| ==> LessUtf16(keys[i], keys[j])
  }

  // No white space, members in order, strings and numbers in their one form.
  ghost predicate Canonical(t: string, j: Json)
    decreases j, 1
  {
    match j
    case JNull => t == "null"
    case JBool(b) => t == if b then "true" else "false"
    case JString(s) => ShortestLiteral(t, s)
    case JNumber(n) => EsText(t, n)
    case JArray(_) => exists parts :: ArrayText(t, j, parts)
    case JObject(_) => exists keys, names, values :: ObjectText(t, j, keys, names, values)
  }

  ghost predicate ArrayText(t: string, j: Json, parts: seq<string>)
    requires j.JArray?
    decreases j, 0
  {
    && |parts| == |j.items|
    && (forall i :: 0 <= i < |j.items| ==> Canonical(parts[i], j.items[i]))
    && t == "[" + Joined(parts) + "]"
  }

  ghost predicate ObjectText(t: string, j: Json, keys: seq<string>, names: seq<string>, values: seq<string>)
    requires j.JObject?
    decreases j, 0
  {
    && AscendingKeys(keys, j.members)
    && |names| == |keys| && |values| == |keys|
    && (forall i :: 0 <= i < |keys| ==> ShortestLiteral(names[i], keys[i]) && Canonical(values[i], j.members[keys[i]]))
    && t == "{" + Joined(Pairs(names, values)) + "}"
  }

  // ----- the writer's lists

  function ItemTexts(v: GoValue): (r: seq<string>)
    requires v.Slice? && Writable(v)
    ensures |r| == |v.items| && forall i :: 0 <= i < |r| ==> r[i] == Canon(v.items[i])
  {
    seq(|v.items|, i requires 0 <= i < |v.items| => Canon(v.items[i]))
  }

  lemma {:induction false} ItemsJoined(v: GoValue, i: nat)
    requires v.Slice? && Writable(v) && i < |v.items|
    ensures CanonItems(v, i) == Comma(i) + Joined(ItemTexts(v)[i..])
    decreases |v.items| - i
  {
    hide Canon;
    var rest := ItemTexts(v)[i..];
    if i + 1 == |v.items| {
      assert CanonItems(v, i + 1) == "";
      assert Comma(i) + Canon(v.items[i]) + "" == Comma(i) + Canon(v.items[i]);
    } else {
      ItemsJoined(v, i + 1);
      assert rest[1..] == ItemTexts(v)[i + 1..];
      assert Comma(i) + rest[0] + ("," + Joined(rest[1..])) == Comma(i) + (rest[0] + "," + Joined(rest[1..]));
    }
  }

  lemma SliceJoined(v: GoValue)
    requires v.Slice? && Writable(v)
    ensures Canon(v) == "[" + Joined(ItemTexts(v)) + "]"
  {
    if v.items != [] {
      ItemsJoined(v, 0);
      assert ItemTexts(v)[0..] == ItemTexts(v);
      assert "" + Joined(ItemTexts(v)) == Joined(ItemTexts(v));
    }
  }

  function NameTexts(keys: seq<string>): (r: seq<string>)
    ensures |r| == |keys| && forall i :: 0 <= i < |r| ==> r[i] == Quote(keys[i])
  {
    seq(|keys|, i requires 0 <= i < |keys| => Quote(keys[i]))
  }

  function ValueTexts(v: GoValue, keys: seq<string>): (r: seq<string>)
    requires v.Map? && Writable(v) && forall k <- keys :: k in v.members
    ensures |r| == |keys| && forall i :: 0 <= i < |r| ==> r[i] == Canon(v.members[keys[i]])
  {
    seq(|keys|, i requires 0 <= i < |keys| => Canon(v.members[keys[i]]))
  }

  lemma {:induction false} MembersJoined(v: GoValue, keys: seq<string>, i: nat)
    requires v.Map? && Writable(v) && (forall k <- keys :: k in v.members) && i < |keys|
    ensures CanonMembers(v, keys, i) == Comma(i) + Joined(Pairs(NameTexts(keys), ValueTexts(v, keys))[i..])
    decreases |keys| - i
  {
    hide Canon, Quote;
    var rest := Pairs(NameTexts(keys), ValueTexts(v, keys))[i..];
    var more := CanonMembers(v, keys, i + 1);
    MemberGroups(Comma(i), Quote(keys[i]), Canon(v.members[keys[i]]), more);
    if i + 1 < |keys| {
      MembersJoined(v, keys, i + 1);
      assert rest[1..] == Pairs(NameTexts(keys), ValueTexts(v, keys))[i + 1..];
      AppendThrough(rest[0], ",", Joined(rest[1..]));
    } else {
      assert rest[0] + "" == rest[0];
    }
  }

  lemma MemberGroups(comma: string, name: string, value: string, more: string)
    ensures comma + name + ":" + value + more == comma + ((name + ":" + value) + more)
  {
    AppendThrough(comma, name, ":");
    AppendThrough(comma, name + ":", value);
    AppendThrough(comma, name + ":" + value, more);
  }

  lemma MapJoined(v: GoValue)
    requires v.Map? && Writable(v)
    ensures var keys := SortedKeys(v.members.Keys);
      Canon(v) == "{" + Joined(Pairs(NameTexts(keys), ValueTexts(v, keys))) + "}"
  {
    var keys := SortedKeys(v.members.Keys);
    var pairs := Pairs(NameTexts(keys), ValueTexts(v, keys));
    assert Canon(v) == "{" + CanonMembers(v, keys, 0) + "}";
    hide Canon, Quote;
    if keys != [] {
      MembersJoined(v, keys, 0);
      assert pairs[0..] == pairs;
      assert "" + Joined(pairs) == Joined(pairs);
    }
  }

  // Two ascending arrangements of one set of keys are the same.
  lemma KeysUnique(v: GoValue, keys: seq<string>, members: map<string, Json>)
    requires v.Map? && Writable(v) && members.Keys == v.members.Keys
    ensures AscendingKeys(keys, members) <==> keys == SortedKeys(v.members.Keys)
  {
    if AscendingKeys(keys, members) {
      AscendingUnique(keys, SortedKeys(v.members.Keys));
    }
  }

  lemma {:induction false} AscendingUnique(a: seq<string>, b: seq<string>)
    requires forall k :: k in a <==> k in b
    requires forall i, j :: 0 <= i < j < |a| ==> LessUtf16(a[i], a[j])
    requires forall i, j :: 0 <= i < j < |b| ==> LessUtf16(b[i], b[j])
    ensures a == b
  {
    hide LessUtf16;
    BothEmpty(a, b);
    if a != [] {
      assert a[0] in b && b[0] in a;
      AscendingHead(a, b);
      forall k ensures k in a[1..] <==> k in b[1..] {
        AscendingTail(a, k);
        AscendingTail(b, k);
      }
      AscendingUnique(a[1..], b[1..]);
      assert a == [a[0]] + a[1..] && b == [b[0]] + b[1..];
    }
  }

  lemma BothEmpty(a: seq<string>, b: seq<string>)
    requires forall k :: k in a <==> k in b
    ensures a == [] <==> b == []
  {
    if a != [] {
      assert a[0] in b;
    }
    if b != [] {
      assert b[0] in a;
    }
  }

  lemma AscendingHead(a: seq<string>, b: seq<string>)
    requires a != [] && b != [] && b[0] in a && a[0] in b
    requires forall i, j :: 0 <= i < j < |a| ==> LessUtf16(a[i], a[j])
    requires forall i, j :: 0 <= i < j < |b| ==> LessUtf16(b[i], b[j])
    ensures a[0] == b[0]
  {
    hide LessUtf16;
    var i :| 0 <= i < |a| && a[i] == b[0];
    var j :| 0 <= j < |b| && b[j] == a[0];
    if i > 0 && j > 0 {
      LessUtf16Transitive(a[0], b[0], a[0]);
      LessUtf16Irreflexive(a[0]);
    }
  }

  lemma AscendingTail(a: seq<string>, k: string)
    requires a != [] && forall i, j :: 0 <= i < j < |a| ==> LessUtf16(a[i], a[j])
    ensures k in a[1..] <==> k in a && k != a[0]
  {
    hide LessUtf16;
    LessUtf16Irreflexive(a[0]);
  }

  // ----- the one text

  lemma NumberExactly(v: GoValue, t: string)
    requires Writable(v) && (v.Number? || v.Float64? || v.Integer?)
    ensures t == Canon(v) <==> Canonical(t, Denote(v))
  {
    hide EsText, FormatInt, NumberText, DecimalOfInt, DenoteFloat;
    match v
    case Integer(i) => IntegerExactly(i, t);
    case Number(parsed, _) => FloatExactly(parsed.value, t);
    case Float64(f) => FloatExactly(f, t);
  }

  lemma IntegerExactly(i: Int64, t: string)
    ensures t == FormatInt(i) <==> EsText(t, DecimalOfInt(i))
  {
    hide Itoa, DecimalOfInt, FormatInt, EsText;
    Int64Digits(i);
    FormatIntExactly(i, t);
  }

  lemma FloatExactly(f: GoFloat, t: string)
    requires FiniteFloat(f)
    ensures t == NumberText(f) <==> EsText(t, DenoteFloat(f))
  {
    if f.Finite? {
      EsNumberExactly(f.negative, f.mantissa, f.exp, t);
    }
  }

  // The canonicalizer's text of a value is the canonical text of what the value
  // stands for, and the only one.
  lemma {:induction false} CanonExactly(v: GoValue, t: string)
    requires Writable(v)
    ensures t == Canon(v) <==> Canonical(t, Denote(v))
    decreases v, 1
  {
    match v
    case Nil =>
    case Boolean(_) =>
    case Text(s) => QuoteExactly(s, t);
    case Slice(_) => SliceExactly(v, t);
    case Map(_) => MapExactly(v, t);
    case _ => NumberExactly(v, t);
  }

  lemma ArrayTextIs(v: GoValue, t: string, parts: seq<string>)
    requires v.Slice? && Writable(v)
    requires forall i, part :: 0 <= i < |v.items| ==> (part == Canon(v.items[i]) <==> Canonical(part, Denote(v).items[i]))
    ensures ArrayText(t, Denote(v), parts) <==> parts == ItemTexts(v) && t == Canon(v)
  {
    SliceJoined(v);
    assert |Denote(v).items| == |v.items|;
    hide Canon, Joined, Canonical, Denote;
    var items := Denote(v).items;
    if ArrayText(t, Denote(v), parts) {
      forall i | 0 <= i < |parts| ensures parts[i] == ItemTexts(v)[i] {
        assert Canonical(parts[i], items[i]);
      }
      assert parts == ItemTexts(v);
    }
  }

  lemma {:induction false} SliceExactly(v: GoValue, t: string)
    requires v.Slice? && Writable(v)
    ensures t == Canon(v) <==> Canonical(t, Denote(v))
    decreases v, 0
  {
    forall i, part | 0 <= i < |v.items| ensures part == Canon(v.items[i]) <==> Canonical(part, Denote(v).items[i]) {
      CanonExactly(v.items[i], part);
    }
    forall parts ensures ArrayText(t, Denote(v), parts) <==> parts == ItemTexts(v) && t == Canon(v) {
      ArrayTextIs(v, t, parts);
    }
    hide Canon, ArrayText;
    assert ArrayText(t, Denote(v), ItemTexts(v)) <==> t == Canon(v);
  }

  lemma PartsOfObject(t: string, j: Json) returns (keys: seq<string>, names: seq<string>, values: seq<string>)
    requires j.JObject? && Canonical(t, j)
    ensures ObjectText(t, j, keys, names, values)
  {
    hide ObjectText;
    keys, names, values :| ObjectText(t, j, keys, names, values);
  }

  // The members of `v` have the texts the writer gives them.
  ghost predicate MembersExact(v: GoValue)
    requires v.Map? && Writable(v)
  {
    && (forall k, part :: k in v.members ==> (part == Canon(v.members[k]) <==> Canonical(part, Denote(v).members[k])))
    && (forall k, part :: k in v.members ==> (part == Quote(k) <==> ShortestLiteral(part, k)))
  }

  lemma ObjectTextIs(v: GoValue, t: string, keys: seq<string>, names: seq<string>, values: seq<string>)
    requires v.Map? && Writable(v) && MembersExact(v)
    requires ObjectText(t, Denote(v), keys, names, values)
    ensures t == Canon(v)
  {
    var members := Denote(v).members;
    assert members.Keys == v.members.Keys;
    KeysUnique(v, keys, members);
    MapJoined(v);
    hide Canon, Joined, Quote, ShortestLiteral, AscendingKeys, Canonical, Denote, SortedKeys, LessUtf16, Writable;
    NamesAre(v, keys, names, values);
  }

  lemma NamesAre(v: GoValue, keys: seq<string>, names: seq<string>, values: seq<string>)
    requires v.Map? && Writable(v) && MembersExact(v) && forall k <- keys :: k in v.members
    requires |names| == |keys| && |values| == |keys|
    requires forall i :: 0 <= i < |keys| ==> ShortestLiteral(names[i], keys[i]) && Canonical(values[i], Denote(v).members[keys[i]])
    ensures names == NameTexts(keys) && values == ValueTexts(v, keys)
  {
    hide Canon, Quote, ShortestLiteral, Canonical, Denote, Writable;
  }

  lemma CanonIsObjectText(v: GoValue, keys: seq<string>)
    requires v.Map? && Writable(v) && keys == SortedKeys(v.members.Keys) && (forall k <- keys :: k in v.members)
    requires MembersExact(v)
    ensures Denote(v).JObject? && ObjectText(Canon(v), Denote(v), keys, NameTexts(keys), ValueTexts(v, keys))
  {
    assert Denote(v).members.Keys == v.members.Keys;
    KeysUnique(v, keys, Denote(v).members);
    MapJoined(v);
    hide Canon, Joined, Quote, ShortestLiteral, AscendingKeys, Canonical, Denote, SortedKeys, LessUtf16, Writable;
  }

  lemma MapCanonical(v: GoValue, keys: seq<string>)
    requires v.Map? && Writable(v) && keys == SortedKeys(v.members.Keys) && (forall k <- keys :: k in v.members)
    requires MembersExact(v)
    ensures Denote(v).JObject? && Canonical(Canon(v), Denote(v))
  {
    hide *;
    CanonIsObjectText(v, keys);
    ObjectIsCanonical(Canon(v), Denote(v), keys, NameTexts(keys), ValueTexts(v, keys));
  }

  lemma CanonicalMap(v: GoValue, t: string)
    requires v.Map? && Writable(v) && MembersExact(v) && Denote(v).JObject? && Canonical(t, Denote(v))
    ensures t == Canon(v)
  {
    hide *;
    var keys, names, values := PartsOfObject(t, Denote(v));
    ObjectTextIs(v, t, keys, names, values);
  }

  lemma {:induction false} MapExactly(v: GoValue, t: string)
    requires v.Map? && Writable(v)
    ensures t == Canon(v) <==> Canonical(t, Denote(v))
    decreases v, 0, 1
  {
    var keys := SortedKeys(v.members.Keys);
    hide *;
    MembersAreExact(v);
    MapCanonical(v, keys);
    if Canonical(t, Denote(v)) {
      CanonicalMap(v, t);
    }
  }

  lemma ObjectIsCanonical(t: string, j: Json, keys: seq<string>, names: seq<string>, values: seq<string>)
    requires j.JObject? && ObjectText(t, j, keys, names, values)
    ensures Canonical(t, j)
  {
    hide ObjectText;
  }

  lemma {:induction false} MembersAreExact(v: GoValue)
    requires v.Map? && Writable(v)
    ensures MembersExact(v)
    decreases v, 0, 0
  {
    forall k, part | k in v.members ensures part == Canon(v.members[k]) <==> Canonical(part, Denote(v).members[k]) {
      CanonExactly(v.members[k], part);
    }
    forall k, part | k in v.members ensures part == Quote(k) <==> ShortestLiteral(part, k) {
      QuoteExactly(k, part);
    }
    hide Canon, Quote, ShortestLiteral, Canonical, Denote;
  }
}

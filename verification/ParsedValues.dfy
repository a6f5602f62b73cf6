// What value a token sequence spells, said of the value alone: slices in order,
// maps with each member once and in any order.
module ParsedValues {
  import opened Jcs
  import opened StrictParser

  function Flat(parts: seq<seq<Token>>): seq<Token> {
    if parts == [] then [] else parts[0] + Flat(parts[1..])
  }

  function Named(names: seq<string>, parts: seq<seq<Token>>): (r: seq<seq<Token>>)
    requires |names| == |parts|
    ensures |r| == |names| && forall i :: 0 <= i < |r| ==> r[i] == [Value(Text(names[i]))] + parts[i]
  {
    seq(|names|, i requires 0 <= i < |names| => [Value(Text(names[i]))] + parts[i])
  }

  ghost predicate Spelled(t: seq<Token>, v: GoValue)
    decreases v, 1
  {
    match v
    case Slice(_) => exists parts :: SliceSpelled(t, v, parts)
    case Map(_) => exists names, parts :: MapSpelled(t, v, names, parts)
    case _ => t == [Value(v)]
  }

  ghost predicate SliceSpelled(t: seq<Token>, v: GoValue, parts: seq<seq<Token>>)
    requires v.Slice?
    decreases v, 0
  {
    && |parts| == |v.items|
    && (forall i :: 0 <= i < |parts| ==> Spelled(parts[i], v.items[i]))
    && t == [Delim('[')] + Flat(parts) + [Delim(']')]
  }

  // Each member is spelled once.
  ghost predicate MapSpelled(t: seq<Token>, v: GoValue, names: seq<string>, parts: seq<seq<Token>>)
    requires v.Map?
    decreases v, 0
  {
    && |parts| == |names|
    && (forall k :: k in names <==> k in v.members)
    && (forall i, j :: 0 <= i < j < |names| ==> names[i] != names[j])
    && (forall i :: 0 <= i < |parts| ==> Spelled(parts[i], v.members[names[i]]))
    && t == [Delim('{')] + Flat(Named(names, parts)) + [Delim('}')]
  }

  // At most n levels of nesting, a value that is no container being one.
  predicate Levels(v: GoValue, n: nat)
    decreases v
  {
    n > 0 &&
    match v
    case Slice(items) => forall i | 0 <= i < |items| :: Levels(items[i], n - 1)
    case Map(members) => forall k | k in members :: Levels(members[k], n - 1)
    case _ => true
  }

  // ----- from a document to its value

  function PartsOf(items: seq<Doc>): (r: seq<seq<Token>>)
    ensures |r| == |items| && forall i :: 0 <= i < |r| ==> r[i] == Tokens(items[i])
  {
    seq(|items|, i requires 0 <= i < |items| => Tokens(items[i]))
  }

  lemma {:induction false} ItemTokensFlat(items: seq<Doc>)
    ensures ItemTokens(items) == Flat(PartsOf(items))
  {
    hide Tokens;
    if items != [] {
      ItemTokensFlat(items[1..]);
      assert PartsOf(items)[1..] == PartsOf(items[1..]);
    }
  }

  function MemberDocs(members: seq<Member>): (r: seq<Doc>)
    ensures |r| == |members| && forall i :: 0 <= i < |r| ==> r[i] == members[i].doc
  {
    seq(|members|, i requires 0 <= i < |members| => members[i].doc)
  }

  lemma {:induction false} MemberTokensFlat(members: seq<Member>)
    ensures MemberTokens(members) == Flat(Named(Names(members), PartsOf(MemberDocs(members))))
  {
    hide Tokens;
    if members != [] {
      MemberTokensFlat(members[1..]);
      assert Named(Names(members), PartsOf(MemberDocs(members)))[1..]
          == Named(Names(members[1..]), PartsOf(MemberDocs(members[1..])));
    }
  }

  lemma {:induction false} UnrepeatedExactly(names: seq<string>)
    ensures Unrepeated(names) <==> forall i, j :: 0 <= i < j < |names| ==> names[i] != names[j]
  {
    if names != [] {
      var rest := names[1..];
      UnrepeatedExactly(rest);
      forall i, j | 0 <= i < j < |rest| ensures rest[i] == names[i + 1] && rest[j] == names[j + 1] {}
      if Unrepeated(names) {
        forall i, j | 0 <= i < j < |names| ensures names[i] != names[j] {
          if i > 0 {
            assert rest[i - 1] != rest[j - 1];
          } else {
            assert rest[j - 1] in rest;
          }
        }
      }
      if forall i, j :: 0 <= i < j < |names| ==> names[i] != names[j] {
        forall i, j | 0 <= i < j < |rest| ensures rest[i] != rest[j] {
          assert names[i + 1] != names[j + 1];
        }
        forall j | 0 <= j < |rest| ensures rest[j] != names[0] {
          assert names[0] != names[j + 1];
        }
      }
    }
  }

  // Without repeated names, a map has a member for each.
  lemma {:induction false} MapOfExactly(members: seq<Member>)
    requires forall i, j :: 0 <= i < j < |members| ==> members[i].name != members[j].name
    ensures forall k :: k in MapOf(members) <==> k in Names(members)
    ensures forall i :: 0 <= i < |members| ==> members[i].name in MapOf(members) && MapOf(members)[members[i].name] == ValueOf(members[i].doc)
  {
    hide ValueOf;
    if members != [] {
      var init, last := members[..|members| - 1], members[|members| - 1];
      MapOfExactly(init);
      assert Names(members) == Names(init) + [last.name];
      forall i | 0 <= i < |init| ensures MapOf(members)[members[i].name] == ValueOf(members[i].doc) {
        assert init[i] == members[i] && members[i].name != last.name;
      }
    }
  }

  lemma {:induction false} DocSpelled(d: Doc)
    requires DistinctNames(d)
    ensures Spelled(Tokens(d), ValueOf(d))
    decreases d
  {
    var v := ValueOf(d);
    match d
    case Scalar(_) =>
    case Array(items) =>
      forall i | 0 <= i < |items| ensures Spelled(Tokens(items[i]), v.items[i]) {
        assert items[i] in items;
        DocSpelled(items[i]);
      }
      ItemTokensFlat(items);
      assert SliceSpelled(Tokens(d), v, PartsOf(items));
    case Object(members) =>
      forall i | 0 <= i < |members| ensures Spelled(Tokens(members[i].doc), ValueOf(members[i].doc)) {
        assert members[i] in members;
        DocSpelled(members[i].doc);
      }
      ObjectSpelled(members);
  }

  lemma MapIsSpelled(t: seq<Token>, v: GoValue, names: seq<string>, parts: seq<seq<Token>>)
    requires v.Map? && MapSpelled(t, v, names, parts)
    ensures Spelled(t, v)
  {
    hide MapSpelled;
  }

  ghost predicate MembersSpelled(members: seq<Member>) {
    forall i :: 0 <= i < |members| ==> Spelled(Tokens(members[i].doc), ValueOf(members[i].doc))
  }

  lemma PartsSpelled(members: seq<Member>, i: nat)
    requires i < |members| && MembersSpelled(members)
    requires forall i, j :: 0 <= i < j < |members| ==> members[i].name != members[j].name
    ensures members[i].name in MapOf(members)
    ensures Spelled(PartsOf(MemberDocs(members))[i], MapOf(members)[members[i].name])
  {
    MapOfExactly(members);
    hide MapOf, ValueOf, Spelled, Tokens;
  }

  lemma ObjectSpelled(members: seq<Member>)
    requires Unrepeated(Names(members)) && MembersSpelled(members)
    ensures Spelled(Tokens(Object(members)), Map(MapOf(members)))
  {
    hide MembersSpelled, MapOf, MemberTokens, Spelled, Unrepeated, Flat;
    var t, v, names, parts := Tokens(Object(members)), Map(MapOf(members)), Names(members), PartsOf(MemberDocs(members));
    NamesDiffer(members);
    MapOfExactly(members);
    MemberTokensFlat(members);
    forall i | 0 <= i < |parts| ensures names[i] in v.members && Spelled(parts[i], v.members[names[i]]) {
      PartsSpelled(members, i);
    }
    hide Tokens, ValueOf;
    MapIsSpelled(t, v, names, parts);
  }

  lemma NamesDiffer(members: seq<Member>)
    requires Unrepeated(Names(members))
    ensures forall i, j :: 0 <= i < j < |members| ==> members[i].name != members[j].name
  {
    UnrepeatedExactly(Names(members));
    forall i, j | 0 <= i < j < |members| ensures members[i].name != members[j].name {
      assert Names(members)[i] != Names(members)[j];
    }
  }

  // ----- from a value to a document

  lemma {:induction false} SpelledDoc(t: seq<Token>, v: GoValue) returns (d: Doc)
    requires Spelled(t, v)
    ensures Tokens(d) == t && ValueOf(d) == v && DistinctNames(d)
    decreases v, 2
  {
    match v
    case Slice(_) => d := SpelledArray(t, v);
    case Map(_) => d := SpelledObject(t, v);
    case _ => d := Doc.Scalar(v);
  }

  lemma {:induction false} SpelledArray(t: seq<Token>, v: GoValue) returns (d: Doc)
    requires v.Slice? && Spelled(t, v)
    ensures Tokens(d) == t && ValueOf(d) == v && DistinctNames(d)
    decreases v, 1
  {
    hide Flat;
    var parts :| SliceSpelled(t, v, parts);
    var items := SpelledItems(v, parts, |parts|);
    d := Doc.Array(items);
    ItemTokensFlat(items);
    assert PartsOf(items) == parts;
  }

  lemma {:induction false} SpelledItems(v: GoValue, parts: seq<seq<Token>>, n: nat) returns (items: seq<Doc>)
    requires v.Slice? && n <= |parts| == |v.items|
    requires forall i :: 0 <= i < |parts| ==> Spelled(parts[i], v.items[i])
    ensures |items| == n
    ensures forall i :: 0 <= i < n ==> Tokens(items[i]) == parts[i] && ValueOf(items[i]) == v.items[i] && DistinctNames(items[i])
    decreases v, 0, n
  {
    hide Spelled, Tokens, ValueOf, DistinctNames;
    items := [];
    if n > 0 {
      items := SpelledItems(v, parts, n - 1);
      var last := SpelledDoc(parts[n - 1], v.items[n - 1]);
      items := items + [last];
    }
  }

  lemma {:induction false} SpelledObject(t: seq<Token>, v: GoValue) returns (d: Doc)
    requires v.Map? && Spelled(t, v)
    ensures Tokens(d) == t && ValueOf(d) == v && DistinctNames(d)
    decreases v, 1
  {
    hide Flat, MapOf;
    var names, parts :| MapSpelled(t, v, names, parts);
    var members := SpelledMembers(v, names, parts, |parts|);
    d := Doc.Object(members);
    MemberTokensFlat(members);
    assert Names(members) == names && PartsOf(MemberDocs(members)) == parts;
    UnrepeatedExactly(names);
    NamesDiffer(members);
    MapOfExactly(members);
    MapIs(v, names, members);
  }

  lemma MapIs(v: GoValue, names: seq<string>, members: seq<Member>)
    requires v.Map? && Names(members) == names && (forall k :: k in names <==> k in v.members)
    requires forall k :: k in MapOf(members) <==> k in names
    requires forall i :: 0 <= i < |members| ==>
      && members[i].name in MapOf(members) && MapOf(members)[members[i].name] == ValueOf(members[i].doc)
      && members[i].name in v.members && ValueOf(members[i].doc) == v.members[members[i].name]
    ensures MapOf(members) == v.members
  {
    hide MapOf, ValueOf;
    forall k | k in v.members ensures MapOf(members)[k] == v.members[k] {
      var i :| 0 <= i < |names| && names[i] == k;
      assert members[i].name == k;
    }
  }

  lemma {:induction false} SpelledMembers(v: GoValue, names: seq<string>, parts: seq<seq<Token>>, n: nat) returns (members: seq<Member>)
    requires v.Map? && n <= |parts| == |names| && forall k <- names :: k in v.members
    requires forall i :: 0 <= i < |parts| ==> Spelled(parts[i], v.members[names[i]])
    ensures |members| == n
    ensures forall i :: 0 <= i < n ==>
      && members[i].name == names[i] && Tokens(members[i].doc) == parts[i]
      && ValueOf(members[i].doc) == v.members[names[i]] && DistinctNames(members[i].doc)
    decreases v, 0, n
  {
    hide Spelled, Tokens, ValueOf, DistinctNames;
    members := [];
    if n > 0 {
      members := SpelledMembers(v, names, parts, n - 1);
      var last := SpelledDoc(parts[n - 1], v.members[names[n - 1]]);
      members := members + [Member(names[n - 1], last)];
    }
  }

  // ----- levels

  lemma {:induction false} LevelsOf(d: Doc, n: nat)
    requires DistinctNames(d)
    ensures Within(d, n) <==> Levels(ValueOf(d), n)
    decreases d
  {
    match d
    case Scalar(_) =>
    case Array(items) =>
      if n > 0 {
        forall i | 0 <= i < |items| ensures Within(items[i], n - 1) <==> Levels(ValueOf(items[i]), n - 1) {
          assert items[i] in items;
          LevelsOf(items[i], n - 1);
        }
        ArrayLevels(items, n);
      }
    case Object(members) =>
      if n > 0 {
        forall i | 0 <= i < |members| ensures Within(members[i].doc, n - 1) <==> Levels(ValueOf(members[i].doc), n - 1) {
          assert members[i] in members;
          LevelsOf(members[i].doc, n - 1);
        }
        NamesDiffer(members);
        ObjectLevels(members, n);
      }
  }

  lemma ArrayLevels(items: seq<Doc>, n: nat)
    requires n > 0 && forall i :: 0 <= i < |items| ==> (Within(items[i], n - 1) <==> Levels(ValueOf(items[i]), n - 1))
    ensures Within(Doc.Array(items), n) <==> Levels(ValueOf(Doc.Array(items)), n)
  {
    if Within(Doc.Array(items), n) {
      forall i | 0 <= i < |items| ensures Within(items[i], n - 1) {
        assert items[i] in items;
      }
    }
    if Levels(ValueOf(Doc.Array(items)), n) {
      forall i | 0 <= i < |items| ensures Levels(ValueOf(items[i]), n - 1) {
        assert ValueOf(Doc.Array(items)).items[i] == ValueOf(items[i]);
      }
    }
  }

  lemma ObjectLevels(members: seq<Member>, n: nat)
    requires n > 0 && forall i :: 0 <= i < |members| ==> (Within(members[i].doc, n - 1) <==> Levels(ValueOf(members[i].doc), n - 1))
    requires forall i, j :: 0 <= i < j < |members| ==> members[i].name != members[j].name
    ensures Within(Doc.Object(members), n) <==> Levels(Map(MapOf(members)), n)
  {
    MapOfExactly(members);
    hide MapOf, ValueOf;
    if Within(Doc.Object(members), n) {
      forall k | k in MapOf(members) ensures Levels(MapOf(members)[k], n - 1) {
        var i :| 0 <= i < |Names(members)| && Names(members)[i] == k;
        assert members[i] in members;
      }
    }
    if Levels(Map(MapOf(members)), n) {
      forall i | 0 <= i < |members| ensures Within(members[i].doc, n - 1) {
        assert members[i].name in MapOf(members);
      }
    }
  }
}

// The recursive descent reads exactly the documents within its bounds.
module StrictParserProofs {
  import opened Prelude
  import opened Jcs
  import opened StrictJson
  import opened StrictParser

  // ----- what is read was written there

  lemma Enclosed(t: seq<Token>, i: nat, j: nat)
    requires i + 2 <= j <= |t|
    ensures t[i..j] == [t[i]] + t[i + 1..j - 1] + [t[j - 1]]
  {
  }

  lemma {:induction false} DocRead(s: Stream, i: nat, n: nat)
    requires ParseDoc(s, i, n).Some?
    ensures var (d, j) := ParseDoc(s, i, n).value;
      s.tokens[i..j] == Tokens(d) && Within(d, n) && DistinctNames(d)
    decreases |s.tokens| - i, 2
  {
    var (d, j) := ParseDoc(s, i, n).value;
    match d
    case Scalar(_) =>
    case Object(members) =>
      MembersRead(s, i + 1, n - 1, {});
      hide Unrepeated;
      Enclosed(s.tokens, i, j);
    case Array(items) =>
      ItemsRead(s, i + 1, n - 1);
      Enclosed(s.tokens, i, j);
  }

  lemma {:induction false} ItemsRead(s: Stream, i: nat, n: nat)
    requires i <= |s.tokens| && ParseItems(s, i, n).Some?
    ensures var (items, j) := ParseItems(s, i, n).value;
      && s.tokens[i..j] == ItemTokens(items)
      && (forall e <- items :: Within(e, n) && DistinctNames(e))
    decreases |s.tokens| - i, 3
  {
    hide Within, DistinctNames, Tokens, ParseDoc;
    if s.More(i) {
      DocRead(s, i, n);
      var (d, j) := ParseDoc(s, i, n).value;
      ItemsRead(s, j, n);
      var (rest, k) := ParseItems(s, j, n).value;
      assert s.tokens[i..k] == s.tokens[i..j] + s.tokens[j..k];
      assert ([d] + rest)[1..] == rest;
    }
  }

  lemma {:induction false} MembersRead(s: Stream, i: nat, n: nat, seen: set<string>)
    requires i <= |s.tokens| && ParseMembers(s, i, n, seen).Some?
    ensures var (members, j) := ParseMembers(s, i, n, seen).value;
      && s.tokens[i..j] == MemberTokens(members)
      && (forall m <- members :: Within(m.doc, n) && DistinctNames(m.doc) && m.name !in seen)
      && Unrepeated(Names(members))
    decreases |s.tokens| - i, 3
  {
    hide Within, DistinctNames, Tokens, ParseDoc;
    if s.More(i) {
      hide Unrepeated;
      var name := s.tokens[i].v.s;
      DocRead(s, i + 1, n);
      var (d, j) := ParseDoc(s, i + 1, n).value;
      MembersRead(s, j, n, seen + {name});
      var (rest, k) := ParseMembers(s, j, n, seen + {name}).value;
      assert s.tokens[i..k] == [s.tokens[i]] + s.tokens[i + 1..j] + s.tokens[j..k];
      MemberAdded(name, d, rest);
    }
  }

  lemma MemberAdded(name: string, d: Doc, rest: seq<Member>)
    requires Unrepeated(Names(rest)) && forall m <- rest :: m.name != name
    ensures var members := [Member(name, d)] + rest;
      && MemberTokens(members) == [Value(Text(name))] + Tokens(d) + MemberTokens(rest)
      && Unrepeated(Names(members))
  {
    var members := [Member(name, d)] + rest;
    assert members[1..] == rest && Names(members)[1..] == Names(rest);
    assert name !in Names(rest);
  }

  // ----- what is written there is read

  lemma FirstToken(d: Doc)
    ensures Tokens(d) != [] && Tokens(d)[0] != Delim(']') && Tokens(d)[0] != Delim('}')
  {
  }

  // The tokens of `t` stand in the stream from token i.
  ghost predicate Holds(s: Stream, i: nat, t: seq<Token>)
    decreases |t|
  {
    i + |t| <= |s.tokens| &&
    (t == [] || (s.tokens[i] == t[0] && Holds(s, i + 1, t[1..])))
  }

  lemma HoldsInside(s: Stream, i: nat, t: seq<Token>)
    requires Holds(s, i, t)
    ensures i + |t| <= |s.tokens|
  {
  }

  lemma {:induction false} HoldsAppend(s: Stream, i: nat, a: seq<Token>, b: seq<Token>)
    requires Holds(s, i, a + b)
    ensures Holds(s, i, a) && Holds(s, i + |a|, b)
    decreases |a|
  {
    if a == [] {
      assert a + b == b;
    } else {
      assert (a + b)[1..] == a[1..] + b;
      HoldsAppend(s, i + 1, a[1..], b);
    }
  }

  lemma {:induction false} HoldsRest(s: Stream, i: nat)
    requires i <= |s.tokens|
    ensures Holds(s, i, s.tokens[i..])
    decreases |s.tokens| - i
  {
    if i < |s.tokens| {
      assert s.tokens[i..][1..] == s.tokens[i + 1..];
      HoldsRest(s, i + 1);
    }
  }

  lemma {:induction false} HoldsDoc(s: Stream, i: nat, open: Token, inner: seq<Token>, close: Token)
    requires Holds(s, i, [open] + inner + [close])
    ensures i + |inner| + 1 < |s.tokens| && s.tokens[i] == open && s.tokens[i + 1 + |inner|] == close
    ensures Holds(s, i + 1, inner)
  {
    HoldsAppend(s, i, [open] + inner, [close]);
    HoldsAppend(s, i, [open], inner);
  }

  lemma {:induction false} HoldsItem(s: Stream, i: nat, items: seq<Doc>)
    requires items != [] && Holds(s, i, ItemTokens(items))
    ensures var t, r := Tokens(items[0]), ItemTokens(items[1..]);
      && |ItemTokens(items)| == |t| + |r|
      && Holds(s, i, t) && Holds(s, i + |t|, r) && s.More(i)
  {
    FirstToken(items[0]);
    hide Tokens;
    HoldsAppend(s, i, Tokens(items[0]), ItemTokens(items[1..]));
  }

  lemma {:induction false} HoldsMember(s: Stream, i: nat, members: seq<Member>)
    requires members != [] && Holds(s, i, MemberTokens(members))
    ensures var t, r := Tokens(members[0].doc), MemberTokens(members[1..]);
      && |MemberTokens(members)| == 1 + |t| + |r|
      && i < |s.tokens| && s.tokens[i] == Value(Text(members[0].name))
      && Holds(s, i + 1, t) && Holds(s, i + 1 + |t|, r)
  {
    hide Tokens;
    var n, t, r := [Value(Text(members[0].name))], Tokens(members[0].doc), MemberTokens(members[1..]);
    HoldsAppend(s, i, n + t, r);
    HoldsAppend(s, i, n, t);
  }

  ghost predicate FitItems(items: seq<Doc>, n: nat) {
    items == [] || (Within(items[0], n) && DistinctNames(items[0]) && FitItems(items[1..], n))
  }

  ghost predicate FitMembers(members: seq<Member>, n: nat, seen: set<string>) {
    members == [] ||
    (Within(members[0].doc, n) && DistinctNames(members[0].doc) && members[0].name !in seen
     && FitMembers(members[1..], n, seen + {members[0].name}))
  }

  lemma {:induction false} ItemsFit(items: seq<Doc>, n: nat)
    requires forall e <- items :: Within(e, n) && DistinctNames(e)
    ensures FitItems(items, n)
  {
    hide Within, DistinctNames;
    if items != [] {
      assert items[0] in items;
      ItemsFit(items[1..], n);
    }
  }

  lemma {:induction false} MembersFit(members: seq<Member>, n: nat, seen: set<string>)
    requires forall m <- members :: Within(m.doc, n) && DistinctNames(m.doc) && m.name !in seen
    requires Unrepeated(Names(members))
    ensures FitMembers(members, n, seen)
  {
    hide Within, DistinctNames;
    if members != [] {
      var rest := members[1..];
      assert members[0] in members && Names(members)[1..] == Names(rest);
      forall m | m in rest ensures m in members && m.name != members[0].name {
        var k :| 0 <= k < |rest| && rest[k] == m;
        assert Names(rest)[k] == m.name;
      }
      MembersFit(rest, n, seen + {members[0].name});
    }
  }

  lemma {:induction false} ObjectRead(s: Stream, i: nat, n: nat, members: seq<Member>, j: nat)
    requires n > 0 && i < j < |s.tokens| && s.tokens[i] == Delim('{') && s.tokens[j] == Delim('}')
    requires ParseMembers(s, i + 1, n - 1, {}) == Some((members, j))
    ensures ParseDoc(s, i, n) == Some((Object(members), j + 1))
  {
    hide ParseMembers, ParseItems;
  }

  lemma {:induction false} ArrayRead(s: Stream, i: nat, n: nat, items: seq<Doc>, j: nat)
    requires n > 0 && i < j < |s.tokens| && s.tokens[i] == Delim('[') && s.tokens[j] == Delim(']')
    requires ParseItems(s, i + 1, n - 1) == Some((items, j))
    ensures ParseDoc(s, i, n) == Some((Array(items), j + 1))
  {
    hide ParseMembers, ParseItems;
  }

  lemma {:induction false} ScalarRead(s: Stream, i: nat, n: nat, v: ScalarValue)
    requires n > 0 && Holds(s, i, Tokens(Scalar(v)))
    ensures ParseDoc(s, i, n) == Some((Scalar(v), i + |Tokens(Scalar(v))|))
  {
    hide ParseMembers, ParseItems;
  }

  lemma {:induction false} ItemRead(s: Stream, i: nat, n: nat, head: Doc, j: nat, rest: seq<Doc>, k: nat)
    requires i < |s.tokens| && s.More(i) && ParseDoc(s, i, n) == Some((head, j))
    requires j <= |s.tokens| && ParseItems(s, j, n) == Some((rest, k))
    ensures ParseItems(s, i, n) == Some(([head] + rest, k))
  {
    hide ParseDoc;
  }

  lemma {:induction false} MemberRead(s: Stream, i: nat, n: nat, seen: set<string>, head: Member, j: nat, rest: seq<Member>, k: nat)
    requires i < |s.tokens| && s.tokens[i] == Value(Text(head.name)) && head.name !in seen
    requires ParseDoc(s, i + 1, n) == Some((head.doc, j))
    requires j <= |s.tokens| && ParseMembers(s, j, n, seen + {head.name}) == Some((rest, k))
    ensures ParseMembers(s, i, n, seen) == Some(([head] + rest, k))
  {
    hide ParseDoc;
    assert s.More(i);
  }

  lemma {:induction false} ReadsDoc(s: Stream, i: nat, d: Doc, n: nat)
    requires Holds(s, i, Tokens(d)) && Within(d, n) && DistinctNames(d)
    ensures ParseDoc(s, i, n) == Some((d, i + |Tokens(d)|))
    decreases d, 0
  {
    hide Holds, FitMembers, FitItems, ParseDoc, ParseMembers, ParseItems, MemberTokens, ItemTokens;
    match d
    case Scalar(v) =>
      ScalarRead(s, i, n, v);
    case Object(members) =>
      MembersFit(members, n - 1, {});
      HoldsDoc(s, i, Delim('{'), MemberTokens(members), Delim('}'));
      ReadsMembers(s, i + 1, members, n - 1, {});
      ObjectRead(s, i, n, members, i + 1 + |MemberTokens(members)|);
    case Array(items) =>
      ItemsFit(items, n - 1);
      HoldsDoc(s, i, Delim('['), ItemTokens(items), Delim(']'));
      ReadsItems(s, i + 1, items, n - 1);
      ArrayRead(s, i, n, items, i + 1 + |ItemTokens(items)|);
  }

  lemma NoTokens()
    ensures ItemTokens([]) == [] && MemberTokens([]) == []
  {
  }

  lemma {:induction false} NothingRead(s: Stream, i: nat, n: nat, seen: set<string>)
    requires i <= |s.tokens| && !s.More(i)
    ensures ParseItems(s, i, n) == Some(([], i)) && ParseMembers(s, i, n, seen) == Some(([], i))
  {
  }

  lemma FitItem(items: seq<Doc>, n: nat)
    requires items != [] && FitItems(items, n)
    ensures Within(items[0], n) && DistinctNames(items[0]) && FitItems(items[1..], n)
  {
  }

  lemma {:induction false} ReadsItems(s: Stream, i: nat, items: seq<Doc>, n: nat)
    requires Holds(s, i, ItemTokens(items)) && !s.More(i + |ItemTokens(items)|) && FitItems(items, n)
    ensures ParseItems(s, i, n) == Some((items, i + |ItemTokens(items)|))
    decreases items, |items|
  {
    hide Within, DistinctNames, Tokens, ItemTokens, Holds, ParseDoc, ParseItems, FitItems;
    HoldsInside(s, i, ItemTokens(items));
    if items == [] {
      NoTokens();
      NothingRead(s, i, n, {});
    } else {
      var head, rest := items[0], items[1..];
      FitItem(items, n);
      HoldsItem(s, i, items);
      ReadsDoc(s, i, head, n);
      ReadsItems(s, i + |Tokens(head)|, rest, n);
      ItemRead(s, i, n, head, i + |Tokens(head)|, rest, i + |ItemTokens(items)|);
      assert [head] + rest == items;
    }
  }

  lemma FitHead(members: seq<Member>, n: nat, seen: set<string>)
    requires members != [] && FitMembers(members, n, seen)
    ensures Within(members[0].doc, n) && DistinctNames(members[0].doc) && members[0].name !in seen
    ensures FitMembers(members[1..], n, seen + {members[0].name})
  {
  }

  lemma {:induction false} ReadsMembers(s: Stream, i: nat, members: seq<Member>, n: nat, seen: set<string>)
    requires Holds(s, i, MemberTokens(members)) && !s.More(i + |MemberTokens(members)|) && FitMembers(members, n, seen)
    ensures ParseMembers(s, i, n, seen) == Some((members, i + |MemberTokens(members)|))
    decreases members, |members|
  {
    hide Within, DistinctNames, Tokens, MemberTokens, Holds, ParseDoc, ParseMembers, FitMembers;
    HoldsInside(s, i, MemberTokens(members));
    if members == [] {
      NoTokens();
      NothingRead(s, i, n, seen);
    } else {
      var head, rest := members[0], members[1..];
      var j := i + 1 + |Tokens(head.doc)|;
      FitHead(members, n, seen);
      HoldsMember(s, i, members);
      ReadsDoc(s, i + 1, head.doc, n);
      ReadsMembers(s, j, rest, n, seen + {head.name});
      MemberRead(s, i, n, seen, head, j, rest, i + |MemberTokens(members)|);
      assert [head] + rest == members;
    }
  }

  // Documents are read off their tokens in one way.
  lemma TokensInjective(d: Doc, e: Doc, n: nat)
    requires Tokens(d) == Tokens(e) && Within(d, n) && Within(e, n) && DistinctNames(d) && DistinctNames(e)
    ensures d == e
  {
    var s := Stream(Tokens(d), Eof);
    HoldsRest(s, 0);
    assert s.tokens[0..] == s.tokens;
    ReadsDoc(s, 0, d, n);
    ReadsDoc(s, 0, e, n);
  }

  // ----- the entry point

  // The document in the stream, when it is all there is and within bounds.
  function StrictDoc(s: Stream, maxDepth: int): Option<Doc> {
    if maxDepth < 1 then None else
    match ParseDoc(s, 0, maxDepth)
    case None => None
    case Some((d, j)) => if j == |s.tokens| && s.ending == Eof && Strict(ValueOf(d)) then Some(d) else None
  }

  ghost predicate IsStrictDoc(s: Stream, maxDepth: int, d: Doc) {
    && s.tokens == Tokens(d) && s.ending == Eof
    && maxDepth >= 1 && Within(d, maxDepth) && DistinctNames(d) && Strict(ValueOf(d))
  }

  // Success means exactly: one document, nothing behind it, nested no deeper
  // than allowed, no name twice in an object, interoperable values.
  lemma StrictDocExactly(s: Stream, maxDepth: int, d: Doc)
    ensures StrictDoc(s, maxDepth) == Some(d) <==> IsStrictDoc(s, maxDepth, d)
  {
    hide Strict;
    assert s.tokens[0..|s.tokens|] == s.tokens;
    if StrictDoc(s, maxDepth) == Some(d) {
      DocRead(s, 0, maxDepth);
    }
    if IsStrictDoc(s, maxDepth, d) {
      HoldsRest(s, 0);
      assert s.tokens[0..] == s.tokens;
      ReadsDoc(s, 0, d, maxDepth);
    }
  }
}

// ParseStrictIJSON of receiptcore/jcs.go, advancing one decoder.
module ParseIJson {
  import opened Prelude
  import opened Utf8
  import opened Jcs
  import opened StrictJson
  import opened SurrogateScan
  import opened StrictParser
  import opened StrictParserProofs
  import opened ParsedValues

  // json.Decoder with UseNumber, positioned between tokens.
  class Decoder {
    const stream: Stream
    var next: nat

    constructor (s: Stream)
      ensures stream == s && next == 0
    {
      stream, next := s, 0;
    }

    predicate More()
      reads this
    {
      stream.More(next)
    }

    // None is any error; the end of the input is told apart by AtEof.
    method Token() returns (t: Option<StrictParser.Token>)
      modifies this`next
      ensures old(next) < |stream.tokens| ==> t == Some(stream.tokens[old(next)]) && next == old(next) + 1
      ensures old(next) >= |stream.tokens| ==> t == None && next == old(next)
    {
      if next >= |stream.tokens| {
        return None;
      }
      t := Some(stream.tokens[next]);
      next := next + 1;
    }

    predicate AtEof()
      reads this
    {
      next >= |stream.tokens| && stream.ending == Eof
    }
  }

  // What is left of the parse of a sequence once `done` has been read.
  ghost function After<T>(done: seq<T>, rest: Option<(seq<T>, nat)>): Option<(seq<T>, nat)> {
    match rest
    case None => None
    case Some((more, j)) => Some((done + more, j))
  }

  method Parse(d: Decoder, depth: nat, maxDepth: nat) returns (r: Option<Doc>)
    requires d.next <= |d.stream.tokens| && 0 < depth <= maxDepth + 1
    modifies d`next
    ensures var p := ParseDoc(d.stream, old(d.next), maxDepth + 1 - depth);
      r == (match p case None => None case Some((doc, _)) => Some(doc)) && (p.Some? ==> d.next == p.value.1)
    ensures old(d.next) <= d.next <= |d.stream.tokens|
    decreases |d.stream.tokens| - d.next, 1
  {
    hide ParseItems, ParseMembers;
    if depth > maxDepth {
      return None;
    }
    ghost var i := d.next;
    var token := d.Token();
    if token.None? {
      return None;
    }
    match token.value
    case Value(v) =>
      return Some(Scalar(v));
    case Delim(c) =>
      if c == '{' {
        var members := ParseObject(d, depth, maxDepth);
        if members.None? {
          return None;
        }
        ghost var j := d.next;
        var end := d.Token();
        if end != Some(Delim('}')) {
          return None;
        }
        ObjectRead(d.stream, i, maxDepth + 1 - depth, members.value, j);
        return Some(Object(members.value));
      } else if c == '[' {
        var items := ParseArray(d, depth, maxDepth);
        if items.None? {
          return None;
        }
        ghost var j := d.next;
        var end := d.Token();
        if end != Some(Delim(']')) {
          return None;
        }
        ArrayRead(d.stream, i, maxDepth + 1 - depth, items.value, j);
        return Some(Array(items.value));
      } else {
        return None;
      }
  }

  // The loop over the members of an object.
  method ParseObject(d: Decoder, depth: nat, maxDepth: nat) returns (r: Option<seq<Member>>)
    requires d.next <= |d.stream.tokens| && 0 < depth <= maxDepth
    modifies d`next
    ensures var p := ParseMembers(d.stream, old(d.next), maxDepth - depth, {});
      r == (match p case None => None case Some((members, _)) => Some(members)) && (p.Some? ==> d.next == p.value.1)
    ensures old(d.next) <= d.next <= |d.stream.tokens|
    decreases |d.stream.tokens| - d.next, 2
  {
    hide ParseDoc, ParseItems;
    ghost var i, n := d.next, maxDepth - depth;
    var members: seq<Member>, seen: set<string> := [], {};
    NothingBefore(ParseMembers(d.stream, i, n, {}));
    while d.More()
      invariant i <= d.next <= |d.stream.tokens|
      invariant ParseMembers(d.stream, i, n, {}) == After(members, ParseMembers(d.stream, d.next, n, seen))
      decreases |d.stream.tokens| - d.next
    {
      ghost var at := d.next;
      var nameToken := d.Token();
      if nameToken.None? || !nameToken.value.Value? || !nameToken.value.v.Text? {
        return None;
      }
      var name := nameToken.value.v.s;
      if name in seen {
        return None;
      }
      var doc := Parse(d, depth + 1, maxDepth);
      if doc.None? {
        return None;
      }
      Assoc(members, [Member(name, doc.value)], ParseMembers(d.stream, d.next, n, seen + {name}));
      seen := seen + {name};
      members := members + [Member(name, doc.value)];
    }
    assert members + [] == members;
    return Some(members);
  }

  // The loop over the elements of an array.
  method ParseArray(d: Decoder, depth: nat, maxDepth: nat) returns (r: Option<seq<Doc>>)
    requires d.next <= |d.stream.tokens| && 0 < depth <= maxDepth
    modifies d`next
    ensures var p := ParseItems(d.stream, old(d.next), maxDepth - depth);
      r == (match p case None => None case Some((items, _)) => Some(items)) && (p.Some? ==> d.next == p.value.1)
    ensures old(d.next) <= d.next <= |d.stream.tokens|
    decreases |d.stream.tokens| - d.next, 2
  {
    hide ParseDoc, ParseMembers;
    ghost var i, n := d.next, maxDepth - depth;
    var items: seq<Doc> := [];
    NothingBefore(ParseItems(d.stream, i, n));
    while d.More()
      invariant i <= d.next <= |d.stream.tokens|
      invariant ParseItems(d.stream, i, n) == After(items, ParseItems(d.stream, d.next, n))
      decreases |d.stream.tokens| - d.next
    {
      var doc := Parse(d, depth + 1, maxDepth);
      if doc.None? {
        return None;
      }
      Assoc(items, [doc.value], ParseItems(d.stream, d.next, n));
      items := items + [doc.value];
    }
    assert items + [] == items;
    return Some(items);
  }

  lemma NothingBefore<T>(rest: Option<(seq<T>, nat)>)
    ensures After([], rest) == rest
  {
    if rest.Some? {
      assert [] + rest.value.0 == rest.value.0;
    }
  }

  lemma Assoc<T>(a: seq<T>, b: seq<T>, rest: Option<(seq<T>, nat)>)
    ensures After(a, After(b, rest)) == After(a + b, rest)
  {
    if rest.Some? {
      assert a + (b + rest.value.0) == (a + b) + rest.value.0;
    }
  }

  // What the guards before the decoder and the checks behind it let through.
  ghost predicate Readable(tokenize: string -> Stream, raw: string, maxBytes: int, maxDepth: int, doc: Doc) {
    && 1 <= maxBytes && |raw| <= maxBytes
    && Valid(raw) && !Scan(raw, false)
    && IsStrictDoc(tokenize(raw), maxDepth, doc)
  }

  // The text is within the bounds and clean, and its tokens, with nothing behind
  // them, spell `v`.
  ghost predicate ReadsAs(tokenize: string -> Stream, raw: string, maxBytes: int, maxDepth: int, v: GoValue) {
    && 1 <= maxBytes && |raw| <= maxBytes && 1 <= maxDepth
    && Valid(raw) && !Scan(raw, false)
    && Spelled(tokenize(raw).tokens, v) && tokenize(raw).ending == Eof
    && Levels(v, maxDepth) && Strict(v)
  }

  lemma ReadsAsExactly(tokenize: string -> Stream, raw: string, maxBytes: int, maxDepth: int, v: GoValue)
    ensures ReadsAs(tokenize, raw, maxBytes, maxDepth, v) <==>
      exists doc :: Readable(tokenize, raw, maxBytes, maxDepth, doc) && ValueOf(doc) == v
  {
    hide Strict, Scan, Valid, Spelled, Tokens, Within, DistinctNames, ValueOf, Levels;
    if ReadsAs(tokenize, raw, maxBytes, maxDepth, v) {
      var doc := SpelledDoc(tokenize(raw).tokens, v);
      LevelsOf(doc, maxDepth);
      assert Readable(tokenize, raw, maxBytes, maxDepth, doc);
    }
    forall doc | Readable(tokenize, raw, maxBytes, maxDepth, doc) ensures ReadsAs(tokenize, raw, maxBytes, maxDepth, ValueOf(doc)) {
      DocSpelled(doc);
      LevelsOf(doc, maxDepth);
    }
  }

  // Success means exactly: within the size, scalar text without an unpaired
  // escape, one document and nothing behind it, nested no deeper than allowed,
  // no decoded name twice in an object, only interoperable numbers. The value
  // is the one the tokens spell.
  method ParseStrictIJSON(tokenize: string -> Stream, raw: string, maxBytes: int, maxDepth: int)
    returns (r: Option<GoValue>)
    ensures r.Some? <==> exists doc :: Readable(tokenize, raw, maxBytes, maxDepth, doc)
    ensures forall doc :: Readable(tokenize, raw, maxBytes, maxDepth, doc) ==> r == Some(ValueOf(doc))
    ensures forall v :: r == Some(v) <==> ReadsAs(tokenize, raw, maxBytes, maxDepth, v)
  {
    hide ParseDoc, Strict, Scan, Valid, Tokens, Within, DistinctNames, ReadsAs, ValueOf;
    forall v ensures ReadsAs(tokenize, raw, maxBytes, maxDepth, v) <==>
      exists doc :: Readable(tokenize, raw, maxBytes, maxDepth, doc) && ValueOf(doc) == v
    {
      ReadsAsExactly(tokenize, raw, maxBytes, maxDepth, v);
    }
    if maxBytes < 1 || |raw| > maxBytes || maxDepth < 1 || !Valid(raw) {
      return None;
    }
    var lone := HasLoneSurrogateEscape(raw);
    if lone {
      return None;
    }
    ghost var s := tokenize(raw);
    Exactly(s, maxDepth);
    var d := new Decoder(tokenize(raw));
    var doc := Parse(d, 1, maxDepth);
    if doc.None? || !d.AtEof() || !Strict(ValueOf(doc.value)) {
      assert StrictDoc(s, maxDepth) == None;
      return None;
    }
    assert StrictDoc(s, maxDepth) == Some(doc.value);
    assert Readable(tokenize, raw, maxBytes, maxDepth, doc.value);
    return Some(ValueOf(doc.value));
  }

  lemma Exactly(s: Stream, maxDepth: int)
    ensures forall doc :: IsStrictDoc(s, maxDepth, doc) <==> StrictDoc(s, maxDepth) == Some(doc)
  {
    forall doc ensures IsStrictDoc(s, maxDepth, doc) <==> StrictDoc(s, maxDepth) == Some(doc) {
      StrictDocExactly(s, maxDepth, doc);
    }
  }
}

// ParseStrictIJSON of receiptcore/jcs.go over the tokens of encoding/json.
module StrictParser {
  import opened Prelude
  import opened Jcs

  // A token is a delimiter or a value that is no container.
  type ScalarValue = v: GoValue | !v.Slice? && !v.Map? witness Nil

  datatype Token = Delim(c: char) | Value(v: ScalarValue)

  // Behind the last token there is the end of the input, or text the decoder
  // refuses; `more` is what More answers there.
  datatype Ending = Eof | Malformed(more: bool)

  datatype Stream = Stream(tokens: seq<Token>, ending: Ending) {
    // json.Decoder.More with i tokens read.
    predicate More(i: nat) {
      if i < |tokens| then tokens[i] != Delim(']') && tokens[i] != Delim('}')
      else ending.Malformed? && ending.more
    }
  }

  // A JSON text as written: members in order, names possibly repeated.
  datatype Doc = Scalar(v: ScalarValue) | Object(members: seq<Member>) | Array(items: seq<Doc>)
  datatype Member = Member(name: string, doc: Doc)

  function Tokens(d: Doc): seq<Token>
    decreases d, 0
  {
    match d
    case Scalar(v) => [Value(v)]
    case Object(members) => [Delim('{')] + MemberTokens(members) + [Delim('}')]
    case Array(items) => [Delim('[')] + ItemTokens(items) + [Delim(']')]
  }

  function ItemTokens(items: seq<Doc>): seq<Token>
    decreases items, |items|
  {
    if items == [] then [] else Tokens(items[0]) + ItemTokens(items[1..])
  }

  function MemberTokens(members: seq<Member>): seq<Token>
    decreases members, |members|
  {
    if members == [] then [] else
      [Value(Text(members[0].name))] + Tokens(members[0].doc) + MemberTokens(members[1..])
  }

  // At most n levels, a scalar being one.
  predicate Within(d: Doc, n: nat)
    decreases d
  {
    n > 0 &&
    match d
    case Scalar(_) => true
    case Object(members) => forall m <- members :: Within(m.doc, n - 1)
    case Array(items) => forall e <- items :: Within(e, n - 1)
  }

  predicate Unrepeated(names: seq<string>) {
    names == [] || (names[0] !in names[1..] && Unrepeated(names[1..]))
  }

  function Names(members: seq<Member>): (r: seq<string>)
    ensures |r| == |members| && forall i :: 0 <= i < |r| ==> r[i] == members[i].name
  {
    seq(|members|, i requires 0 <= i < |members| => members[i].name)
  }

  predicate DistinctNames(d: Doc)
    decreases d
  {
    match d
    case Scalar(_) => true
    case Object(members) => Unrepeated(Names(members)) && forall m <- members :: DistinctNames(m.doc)
    case Array(items) => forall e <- items :: DistinctNames(e)
  }

  function ValueOf(d: Doc): GoValue
    decreases d, 0
  {
    match d
    case Scalar(v) => v
    case Object(members) => Map(MapOf(members))
    case Array(items) => Slice(seq(|items|, i requires 0 <= i < |items| => ValueOf(items[i])))
  }

  function MapOf(members: seq<Member>): map<string, GoValue>
    decreases members, |members|
  {
    if members == [] then map[] else
      var last := members[|members| - 1];
      MapOf(members[..|members| - 1])[last.name := ValueOf(last.doc)]
  }

  // ----- the recursive descent

  // The document at token i of at most n levels, and the token behind it.
  function ParseDoc(s: Stream, i: nat, n: nat): (r: Option<(Doc, nat)>)
    ensures r.Some? ==> i < r.value.1 <= |s.tokens|
    decreases |s.tokens| - i, 2
  {
    if n == 0 || i >= |s.tokens| then None else
    match s.tokens[i]
    case Value(v) => Some((Scalar(v), i + 1))
    case Delim(c) =>
      if c == '{' then
        match ParseMembers(s, i + 1, n - 1, {})
        case Some((members, j)) => if j < |s.tokens| && s.tokens[j] == Delim('}') then Some((Object(members), j + 1)) else None
        case None => None
      else if c == '[' then
        match ParseItems(s, i + 1, n - 1)
        case Some((items, j)) => if j < |s.tokens| && s.tokens[j] == Delim(']') then Some((Array(items), j + 1)) else None
        case None => None
      else None
  }

  function ParseItems(s: Stream, i: nat, n: nat): (r: Option<(seq<Doc>, nat)>)
    requires i <= |s.tokens|
    ensures r.Some? ==> i <= r.value.1 <= |s.tokens|
    decreases |s.tokens| - i, 3
  {
    if !s.More(i) then Some(([], i)) else
    match ParseDoc(s, i, n)
    case None => None
    case Some((d, j)) =>
      match ParseItems(s, j, n)
      case None => None
      case Some((rest, k)) => Some(([d] + rest, k))
  }

  function ParseMembers(s: Stream, i: nat, n: nat, seen: set<string>): (r: Option<(seq<Member>, nat)>)
    requires i <= |s.tokens|
    ensures r.Some? ==> i <= r.value.1 <= |s.tokens|
    decreases |s.tokens| - i, 3
  {
    if !s.More(i) then Some(([], i))
    else if i == |s.tokens| || !s.tokens[i].Value? || !s.tokens[i].v.Text? || s.tokens[i].v.s in seen then None else
    var name := s.tokens[i].v.s;
    match ParseDoc(s, i + 1, n)
    case None => None
    case Some((d, j)) =>
      match ParseMembers(s, j, n, seen + {name})
      case None => None
      case Some((rest, k)) => Some(([Member(name, d)] + rest, k))
  }
}

// The grammar of sections 2 to 7 of RFC 8259, and hasLoneSurrogateEscape of
// jcs/jcs.go on every text of it. Escapes may stand for lone surrogates.
module JsonGrammar {
  import opened Decimals
  import opened SurrogateScan

  datatype Syntax =
    | Name(text: string)
    | Number(minus: bool, whole: string, fraction: string, mark: string, digits: string)
    | Quoted(elems: seq<Elem>)
    | Array(space: string, items: seq<Padded>)
    | Object(space: string, members: seq<Pair>)

  datatype Padded = Padded(before: string, value: Syntax, after: string)
  datatype Pair = Pair(before: string, name: seq<Elem>, gap: string, value: Padded)

  predicate Space(s: string) {
    forall i :: 0 <= i < |s| ==> s[i] in {' ', '\t', '\n', '\r'}
  }

  // White space inside brackets belongs to the elements when there are any.
  predicate WellFormed(x: Syntax)
    decreases x, 0
  {
    match x
    case Name(text) => text in {"null", "true", "false"}
    case Number(_, whole, fraction, mark, digits) =>
      && whole != "" && AllDigits(whole) && (whole[0] == '0' ==> |whole| == 1)
      && AllDigits(fraction) && AllDigits(digits)
      && mark in {"", "e", "e+", "e-", "E", "E+", "E-"} && (mark == "" <==> digits == "")
    case Quoted(elems) => Literal(elems).WellFormed()
    case Array(space, items) => Space(space) && (items != [] ==> space == "") && ItemsOk(items)
    case Object(space, members) => Space(space) && (members != [] ==> space == "") && MembersOk(members)
  }

  predicate PaddedOk(p: Padded)
    decreases p, 1
  {
    Space(p.before) && WellFormed(p.value) && Space(p.after)
  }

  predicate ItemsOk(items: seq<Padded>)
    decreases items, |items|
  {
    items == [] || (PaddedOk(items[0]) && ItemsOk(items[1..]))
  }

  predicate PairOk(m: Pair)
    decreases m, 2
  {
    Space(m.before) && Literal(m.name).WellFormed() && Space(m.gap) && PaddedOk(m.value)
  }

  predicate MembersOk(members: seq<Pair>)
    decreases members, |members|
  {
    members == [] || (PairOk(members[0]) && MembersOk(members[1..]))
  }

  // ----- the text

  function Quote(elems: seq<Elem>): string
    requires Literal(elems).WellFormed()
  {
    "\"" + SpellElems(elems) + "\""
  }

  function Spell(x: Syntax): string
    requires WellFormed(x)
    decreases x, 0
  {
    match x
    case Name(text) => text
    case Number(minus, whole, fraction, mark, digits) =>
      (if minus then "-" else "") + whole + (if fraction == "" then "" else "." + fraction) + mark + digits
    case Quoted(elems) => Quote(elems)
    case Array(space, items) => "[" + space + SpellItems(items) + "]"
    case Object(space, members) => "{" + space + SpellMembers(members) + "}"
  }

  // A JSON text is a value between white space.
  function SpellPadded(p: Padded): string
    requires PaddedOk(p)
    decreases p, 1
  {
    p.before + Spell(p.value) + p.after
  }

  function Comma(last: bool): string {
    if last then "" else ","
  }

  function SpellItems(items: seq<Padded>): string
    requires ItemsOk(items)
    decreases items, |items|
  {
    if items == [] then "" else SpellPadded(items[0]) + Comma(|items| == 1) + SpellItems(items[1..])
  }

  function SpellPair(m: Pair): string
    requires PairOk(m)
    decreases m, 2
  {
    m.before + Quote(m.name) + (m.gap + ":") + SpellPadded(m.value)
  }

  function SpellMembers(members: seq<Pair>): string
    requires MembersOk(members)
    decreases members, |members|
  {
    if members == [] then "" else SpellPair(members[0]) + Comma(|members| == 1) + SpellMembers(members[1..])
  }

  // ----- some string or name in it has an unpaired surrogate

  ghost predicate Unpaired(x: Syntax)
    requires WellFormed(x)
    decreases x, 0
  {
    match x
    case Quoted(elems) => HasUnpaired(ElemUnits(elems))
    case Array(_, items) => SomeItemUnpaired(items)
    case Object(_, members) => SomePairUnpaired(members)
    case _ => false
  }

  ghost predicate PaddedUnpaired(p: Padded)
    requires PaddedOk(p)
    decreases p, 1
  {
    Unpaired(p.value)
  }

  ghost predicate SomeItemUnpaired(items: seq<Padded>)
    requires ItemsOk(items)
    decreases items, |items|
  {
    items != [] && (PaddedUnpaired(items[0]) || SomeItemUnpaired(items[1..]))
  }

  ghost predicate PairUnpaired(m: Pair)
    requires PairOk(m)
    decreases m, 2
  {
    HasUnpaired(ElemUnits(m.name)) || PaddedUnpaired(m.value)
  }

  ghost predicate SomePairUnpaired(members: seq<Pair>)
    requires MembersOk(members)
    decreases members, |members|
  {
    members != [] && (PairUnpaired(members[0]) || SomePairUnpaired(members[1..]))
  }

  // ----- its pieces

  function Pieces(x: Syntax): seq<Piece>
    requires WellFormed(x)
    decreases x, 0
  {
    match x
    case Quoted(elems) => [Literal(elems)]
    case Array(space, items) => [Outside("[" + space)] + ItemPieces(items) + [Outside("]")]
    case Object(space, members) => [Outside("{" + space)] + MemberPieces(members) + [Outside("}")]
    case _ => [Outside(Spell(x))]
  }

  function PaddedPieces(p: Padded): seq<Piece>
    requires PaddedOk(p)
    decreases p, 1
  {
    [Outside(p.before)] + Pieces(p.value) + [Outside(p.after)]
  }

  function ItemPieces(items: seq<Padded>): seq<Piece>
    requires ItemsOk(items)
    decreases items, |items|
  {
    if items == [] then [] else PaddedPieces(items[0]) + [Outside(Comma(|items| == 1))] + ItemPieces(items[1..])
  }

  function PairPieces(m: Pair): seq<Piece>
    requires PairOk(m)
    decreases m, 2
  {
    [Outside(m.before)] + [Literal(m.name)] + [Outside(m.gap + ":")] + PaddedPieces(m.value)
  }

  function MemberPieces(members: seq<Pair>): seq<Piece>
    requires MembersOk(members)
    decreases members, |members|
  {
    if members == [] then [] else PairPieces(members[0]) + [Outside(Comma(|members| == 1))] + MemberPieces(members[1..])
  }

  // What a list of pieces is read as.
  ghost predicate Reads(pieces: seq<Piece>, text: string, unpaired: bool) {
    && (forall i | 0 <= i < |pieces| :: pieces[i].WellFormed())
    && SpellText(pieces) == text
    && (SpellsUnpaired(pieces) <==> unpaired)
  }

  lemma {:induction false} ReadsAppend(a: seq<Piece>, s: string, u: bool, b: seq<Piece>, t: string, v: bool)
    requires Reads(a, s, u) && Reads(b, t, v)
    ensures Reads(a + b, s + t, u || v)
  {
    SpellAppend(a, b);
    if SpellsUnpaired(a) {
      var i :| 0 <= i < |a| && a[i].Literal? && HasUnpaired(ElemUnits(a[i].elems));
      assert (a + b)[i] == a[i];
    }
    if SpellsUnpaired(b) {
      var i :| 0 <= i < |b| && b[i].Literal? && HasUnpaired(ElemUnits(b[i].elems));
      assert (a + b)[|a| + i] == b[i];
    }
  }

  lemma {:induction false} SpellAppend(a: seq<Piece>, b: seq<Piece>)
    requires forall i | 0 <= i < |a| :: a[i].WellFormed()
    requires forall i | 0 <= i < |b| :: b[i].WellFormed()
    ensures SpellText(a + b) == SpellText(a) + SpellText(b)
  {
    if a == [] {
      assert a + b == b;
    } else {
      assert (a + b)[1..] == a[1..] + b;
      SpellAppend(a[1..], b);
    }
  }

  lemma OutsideReads(text: string)
    requires '"' !in text
    ensures Reads([Outside(text)], text, false)
  {
    assert SpellText([Outside(text)]) == text + SpellText([]);
  }

  lemma LiteralReads(elems: seq<Elem>)
    requires Literal(elems).WellFormed()
    ensures Reads([Literal(elems)], Quote(elems), HasUnpaired(ElemUnits(elems)))
  {
    var pieces := [Literal(elems)];
    assert SpellText(pieces) == Quote(elems) + SpellText([]);
    assert pieces[0].Literal? && pieces[0].elems == elems;
  }

  // ----- every text has the pieces' shape

  lemma {:induction false} SyntaxReads(x: Syntax)
    requires WellFormed(x)
    ensures Reads(Pieces(x), Spell(x), Unpaired(x))
    decreases x, 0
  {
    hide Reads;
    match x
    case Quoted(elems) =>
      LiteralReads(elems);
    case Array(space, items) =>
      ItemsRead(items);
      Bracketed("[" + space, ItemPieces(items), SpellItems(items), Unpaired(x), "]");
    case Object(space, members) =>
      MembersRead(members);
      Bracketed("{" + space, MemberPieces(members), SpellMembers(members), Unpaired(x), "}");
    case _ =>
      NoQuotes(x);
      OutsideReads(Spell(x));
  }

  lemma NoQuotes(x: Syntax)
    requires WellFormed(x) && (x.Name? || x.Number?)
    ensures '"' !in Spell(x)
  {
  }

  lemma Bracketed(open: string, pieces: seq<Piece>, text: string, unpaired: bool, close: string)
    requires '"' !in open && '"' !in close && Reads(pieces, text, unpaired)
    ensures Reads([Outside(open)] + pieces + [Outside(close)], open + text + close, unpaired)
  {
    hide Reads;
    OutsideReads(open);
    OutsideReads(close);
    ReadsAppend([Outside(open)], open, false, pieces, text, unpaired);
    ReadsAppend([Outside(open)] + pieces, open + text, unpaired, [Outside(close)], close, false);
  }

  lemma {:induction false} PaddedReads(p: Padded)
    requires PaddedOk(p)
    ensures Reads(PaddedPieces(p), SpellPadded(p), PaddedUnpaired(p))
    decreases p, 1
  {
    SyntaxReads(p.value);
    Bracketed(p.before, Pieces(p.value), Spell(p.value), Unpaired(p.value), p.after);
  }

  lemma {:induction false} ItemsRead(items: seq<Padded>)
    requires ItemsOk(items)
    ensures Reads(ItemPieces(items), SpellItems(items), SomeItemUnpaired(items))
    decreases items, |items|
  {
    if items != [] {
      var head, rest := items[0], items[1..];
      var last, some := |items| == 1, SomeItemUnpaired(rest);
      PaddedReads(head);
      ItemsRead(rest);
      OutsideReads(Comma(last));
      hide Reads;
      ReadsAppend(PaddedPieces(head), SpellPadded(head), PaddedUnpaired(head), [Outside(Comma(last))], Comma(last), false);
      ReadsAppend(PaddedPieces(head) + [Outside(Comma(last))], SpellPadded(head) + Comma(last), PaddedUnpaired(head),
                  ItemPieces(rest), SpellItems(rest), some);
    }
  }

  lemma {:induction false} PairReads(m: Pair)
    requires PairOk(m)
    ensures Reads(PairPieces(m), SpellPair(m), PairUnpaired(m))
    decreases m, 2
  {
    var bad := HasUnpaired(ElemUnits(m.name));
    LiteralReads(m.name);
    Bracketed(m.before, [Literal(m.name)], Quote(m.name), bad, m.gap + ":");
    PaddedReads(m.value);
    hide Reads;
    ReadsAppend([Outside(m.before)] + [Literal(m.name)] + [Outside(m.gap + ":")], m.before + Quote(m.name) + (m.gap + ":"), bad,
                PaddedPieces(m.value), SpellPadded(m.value), PaddedUnpaired(m.value));
  }

  lemma {:induction false} MembersRead(members: seq<Pair>)
    requires MembersOk(members)
    ensures Reads(MemberPieces(members), SpellMembers(members), SomePairUnpaired(members))
    decreases members, |members|
  {
    if members != [] {
      var head, rest := members[0], members[1..];
      var last, some := |members| == 1, SomePairUnpaired(rest);
      var pieces, text := PairPieces(head), SpellPair(head);
      PairReads(head);
      MembersRead(rest);
      OutsideReads(Comma(last));
      hide Reads;
      ReadsAppend(pieces, text, PairUnpaired(head), [Outside(Comma(last))], Comma(last), false);
      ReadsAppend(pieces + [Outside(Comma(last))], text + Comma(last), PairUnpaired(head), MemberPieces(rest), SpellMembers(rest), some);
    }
  }

  // On every JSON text the scanner fires exactly when some string or name,
  // decoded to UTF-16, has an unpaired surrogate.
  lemma ScanOfText(p: Padded)
    requires PaddedOk(p)
    ensures Scan(SpellPadded(p), false) <==> PaddedUnpaired(p)
  {
    PaddedReads(p);
    ScanExact(PaddedPieces(p));
  }
}

// hasLoneSurrogateEscape of jcs/jcs.go against the strings a JSON text spells.
module SurrogateScan {
  import opened Prelude
  import opened Utf8
  import opened ScalarStrings
  import opened JsonReader

  // ----- the scanner

  method HexCode(b: string) returns (v: int)
    requires |b| == 4
    ensures v == match Hex4(b) case Some(u) => u case None => -1
  {
    v := 0;
    for i := 0 to 4
      invariant i > 0 ==> HexValue(b[0]).Some?
      invariant i > 1 ==> HexValue(b[1]).Some?
      invariant i > 2 ==> HexValue(b[2]).Some?
      invariant i > 3 ==> HexValue(b[3]).Some?
      invariant v == if i == 0 then 0
                     else if i == 1 then HexValue(b[0]).value
                     else if i == 2 then HexValue(b[0]).value * 16 + HexValue(b[1]).value
                     else if i == 3 then (HexValue(b[0]).value * 16 + HexValue(b[1]).value) * 16 + HexValue(b[2]).value
                     else Hex4(b).value
    {
      var c := b[i];
      if '0' <= c <= '9' {
        v := v * 16 + (c as int - '0' as int);
      } else if 'a' <= c <= 'f' {
        v := v * 16 + (c as int - 'a' as int) + 10;
      } else if 'A' <= c <= 'F' {
        v := v * 16 + (c as int - 'A' as int) + 10;
      } else {
        return -1;
      }
    }
  }

  function CodeAt(s: string): int
    requires |s| >= 4
  {
    match Hex4(s[..4]) case Some(u) => u case None => -1
  }

  // What is found in the rest `s` of the text, inside or outside a string.
  predicate Scan(s: string, inStr: bool)
    decreases |s|
  {
    if s == "" then false
    else if !inStr then Scan(s[1..], s[0] == '"')
    else if s[0] != '\\' then Scan(s[1..], s[0] != '"')
    else if |s| == 1 then false
    else if s[1] != 'u' || |s| < 6 then Scan(s[2..], true)
    else
      var code := CodeAt(s[2..]);
      if High(code) then
        if |s| >= 12 && s[6] == '\\' && s[7] == 'u' && Low(CodeAt(s[8..])) then Scan(s[12..], true) else true
      else Low(code) || Scan(s[6..], true)
  }

  method HasLoneSurrogateEscape(b: string) returns (found: bool)
    ensures found == Scan(b, false)
  {
    var n, i, inStr := |b|, 0, false;
    assert b[0..] == b;
    while i < n
      invariant 0 <= i <= n
      invariant Scan(b[i..], inStr) == Scan(b, false)
      decreases n - i
    {
      ghost var s := b[i..];
      var c := b[i];
      if !inStr {
        if c == '"' {
          inStr := true;
        }
        i := i + 1;
        assert b[i..] == s[1..];
        continue;
      }
      if c == '\\' {
        if i + 1 >= n {
          return false;
        }
        assert s[1] == b[i + 1];
        if b[i + 1] == 'u' {
          if i + 6 > n {
            i := i + 2;
            assert b[i..] == s[2..];
            continue;
          }
          assert b[i + 2..i + 6] == s[2..][..4];
          var code := HexCode(b[i + 2..i + 6]);
          if code >= 0xD800 && code <= 0xDBFF {
            if i + 12 <= n && b[i + 6] == '\\' && b[i + 7] == 'u' {
              assert b[i + 8..i + 12] == s[8..][..4];
              var lo := HexCode(b[i + 8..i + 12]);
              if lo >= 0xDC00 && lo <= 0xDFFF {
                i := i + 12;
                assert b[i..] == s[12..];
                continue;
              }
            }
            return true;
          }
          if code >= 0xDC00 && code <= 0xDFFF {
            return true;
          }
          i := i + 6;
          assert b[i..] == s[6..];
          continue;
        }
        i := i + 2;
        assert b[i..] == s[2..];
        continue;
      }
      if c == '"' {
        inStr := false;
      }
      i := i + 1;
      assert b[i..] == s[1..];
    }
    return false;
  }

  // ----- the lexical shape of JSON text
  //
  // String literals between stretches without a quotation mark. JsonGrammar
  // shows that every JSON text has this shape; the converse is not needed.

  datatype Elem = Raw(cp: int) | Simple(c: char) | Unicode(hex: string) {
    predicate WellFormed() {
      match this
      case Raw(cp) => Scalar(cp) && cp >= 0x20 && cp != 0x22 && cp != 0x5C
      case Simple(c) => c in "\"\\/bfnrt"
      case Unicode(hex) => |hex| == 4 && Hex4(hex).Some?
    }

    function Spelled(): string
      requires WellFormed()
    {
      match this
      case Raw(cp) => EncodeRune(cp)
      case Simple(c) => ['\\', c]
      case Unicode(hex) => "\\u" + hex
    }

    // The UTF-16 code units it stands for.
    function CodeUnits(): seq<int>
      requires WellFormed()
    {
      match this
      case Raw(cp) => Units(cp)
      case Simple(c) =>
        [if c == 'b' then 0x08 else if c == 'f' then 0x0C else if c == 'n' then 0x0A
         else if c == 'r' then 0x0D else if c == 't' then 0x09 else c as int]
      case Unicode(hex) => [Hex4(hex).value]
    }
  }

  datatype Piece = Outside(text: string) | Literal(elems: seq<Elem>) {
    predicate WellFormed() {
      match this
      case Outside(text) => '"' !in text
      case Literal(elems) => forall i | 0 <= i < |elems| :: elems[i].WellFormed()
    }
  }

  function SpellElems(elems: seq<Elem>): string
    requires Literal(elems).WellFormed()
  {
    if elems == [] then "" else elems[0].Spelled() + SpellElems(elems[1..])
  }

  function SpellText(pieces: seq<Piece>): string
    requires forall i | 0 <= i < |pieces| :: pieces[i].WellFormed()
  {
    if pieces == [] then ""
    else
      (match pieces[0]
       case Outside(text) => text
       case Literal(elems) => "\"" + SpellElems(elems) + "\"") + SpellText(pieces[1..])
  }

  function ElemUnits(elems: seq<Elem>): seq<int>
    requires Literal(elems).WellFormed()
  {
    if elems == [] then [] else elems[0].CodeUnits() + ElemUnits(elems[1..])
  }

  // A surrogate without its other half.
  predicate UnpairedAt(u: seq<int>, i: int) {
    && 0 <= i < |u|
    && (|| (High(u[i]) && !(i + 1 < |u| && Low(u[i + 1])))
        || (Low(u[i]) && !(i > 0 && High(u[i - 1]))))
  }

  predicate HasUnpaired(u: seq<int>) {
    exists i :: 0 <= i < |u| && UnpairedAt(u, i)
  }

  // ----- pairing, left to right

  predicate ScanUnits(u: seq<int>) {
    if u == [] then false
    else if High(u[0]) then if |u| > 1 && Low(u[1]) then ScanUnits(u[2..]) else true
    else Low(u[0]) || ScanUnits(u[1..])
  }

  lemma {:induction false} ScanUnitsExact(u: seq<int>)
    ensures ScanUnits(u) <==> HasUnpaired(u)
    decreases |u|
  {
    if u != [] {
      var n := if High(u[0]) && |u| > 1 && Low(u[1]) then 2 else 1;
      if n == 1 && (High(u[0]) || Low(u[0])) {
        assert UnpairedAt(u, 0);
      } else {
        ScanUnitsExact(u[n..]);
        forall i | n <= i < |u| ensures UnpairedAt(u, i) == UnpairedAt(u[n..], i - n) {
        }
        if HasUnpaired(u) {
          var i :| 0 <= i < |u| && UnpairedAt(u, i);
          assert UnpairedAt(u[n..], i - n);
        }
        if HasUnpaired(u[n..]) {
          var j :| 0 <= j < |u[n..]| && UnpairedAt(u[n..], j);
          assert UnpairedAt(u, j + n);
        }
      }
    }
  }

  // ----- the scanner inside one literal

  lemma {:induction false} ScanRaw(b: string, tail: string)
    requires forall i :: 0 <= i < |b| ==> b[i] != '"' && b[i] != '\\'
    ensures Scan(b + tail, true) == Scan(tail, true)
  {
    if b == "" {
      assert b + tail == tail;
    } else {
      assert (b + tail)[1..] == b[1..] + tail;
      ScanRaw(b[1..], tail);
    }
  }

  lemma ScanSimple(c: char, tail: string)
    requires c != 'u'
    ensures Scan(['\\', c] + tail, true) == Scan(tail, true)
  {
    assert (['\\', c] + tail)[2..] == tail;
  }

  predicate StartsEscape(s: string) {
    |s| >= 2 && s[0] == '\\' && s[1] == 'u'
  }

  lemma ScanUnicode(hex: string, tail: string)
    requires |hex| == 4 && Hex4(hex).Some?
    ensures var s, u := "\\u" + hex + tail, Hex4(hex).value;
      && (!High(u) ==> Scan(s, true) == (Low(u) || Scan(tail, true)))
      && (High(u) && !StartsEscape(tail) ==> Scan(s, true))
  {
    var s := "\\u" + hex + tail;
    assert s[2..][..4] == hex && s[6..] == tail;
  }

  lemma ScanUnicodePair(hex: string, hex': string, tail: string)
    requires |hex| == 4 && Hex4(hex).Some? && High(Hex4(hex).value)
    requires |hex'| == 4 && Hex4(hex').Some?
    ensures Scan("\\u" + hex + ("\\u" + hex' + tail), true) == (!Low(Hex4(hex').value) || Scan(tail, true))
  {
    var s := "\\u" + hex + ("\\u" + hex' + tail);
    assert s[2..][..4] == hex && s[8..][..4] == hex' && s[12..] == tail;
  }

  // The same three steps on code units.

  lemma UnitsOfRaw(cp: int, more: seq<int>)
    requires Scalar(cp)
    ensures ScanUnits(Units(cp) + more) == ScanUnits(more)
  {
    assert (Units(cp) + more)[|Units(cp)|..] == more;
  }

  lemma UnitsOfOne(u: int, more: seq<int>)
    ensures !High(u) ==> ScanUnits([u] + more) == (Low(u) || ScanUnits(more))
    ensures High(u) && (more == [] || !Low(more[0])) ==> ScanUnits([u] + more)
  {
    assert ([u] + more)[1..] == more;
  }

  lemma UnitsOfPair(u: int, l: int, more: seq<int>)
    requires High(u)
    ensures ScanUnits([u] + ([l] + more)) == (!Low(l) || ScanUnits(more))
  {
    assert ([u] + ([l] + more))[2..] == more;
  }

  ghost predicate LiteralScanned(elems: seq<Elem>, rest: string)
    requires Literal(elems).WellFormed()
  {
    Scan(SpellElems(elems) + ("\"" + rest), true) == (ScanUnits(ElemUnits(elems)) || Scan(rest, false))
  }

  lemma {:induction false} ScanLiteral(elems: seq<Elem>, rest: string)
    requires Literal(elems).WellFormed()
    ensures LiteralScanned(elems, rest)
    decreases |elems|
  {
    var close := "\"" + rest;
    if elems == [] {
      assert "" + close == close && close[1..] == rest;
    } else {
      hide Scan, ScanUnits, Units, Hex4;
      var e, more := elems[0], elems[1..];
      assert Literal(more).WellFormed();
      var tail := SpellElems(more) + close;
      SpellThen(e.Spelled(), SpellElems(more), close);
      match e
      case Raw(cp) =>
        RawIsPlain(cp);
        ScanRaw(EncodeRune(cp), tail);
        ScanLiteral(more, rest);
        UnitsOfRaw(cp, ElemUnits(more));
      case Simple(c) =>
        ScanSimple(c, tail);
        ScanLiteral(more, rest);
        UnitsOfOne(e.CodeUnits()[0], ElemUnits(more));
      case Unicode(hex) =>
        ScanUnicode(hex, tail);
        UnitsOfOne(Hex4(hex).value, ElemUnits(more));
        if !High(Hex4(hex).value) {
          ScanLiteral(more, rest);
        } else if more != [] && more[0].Unicode? {
          var hex', last := more[0].hex, more[1..];
          assert more[0].WellFormed() && Literal(last).WellFormed();
          SpellThen("\\u" + hex', SpellElems(last), close);
          ScanUnicodePair(hex, hex', SpellElems(last) + close);
          UnitsOfPair(Hex4(hex).value, Hex4(hex').value, ElemUnits(last));
          ScanLiteral(last, rest);
        } else {
          NoEscapeNext(more, rest);
        }
    }
  }

  lemma RawIsPlain(cp: int)
    requires Raw(cp).WellFormed()
    ensures forall i :: 0 <= i < |EncodeRune(cp)| ==> EncodeRune(cp)[i] != '"' && EncodeRune(cp)[i] != '\\'
  {
  }

  lemma SpellThen(a: string, b: string, c: string)
    ensures (a + b) + c == a + (b + c)
  {
  }

  lemma NoEscapeNext(elems: seq<Elem>, rest: string)
    requires Literal(elems).WellFormed() && (elems != [] ==> !elems[0].Unicode?)
    ensures var tail := SpellElems(elems) + ("\"" + rest);
      !StartsEscape(tail)
    ensures ElemUnits(elems) != [] ==> !Low(ElemUnits(elems)[0])
  {
  }

  // ----- the whole text

  lemma {:induction false} ScanOutside(text: string, tail: string)
    requires '"' !in text
    ensures Scan(text + tail, false) == Scan(tail, false)
  {
    if text == "" {
      assert text + tail == tail;
    } else {
      assert (text + tail)[1..] == text[1..] + tail;
      assert text[0] in text;
      ScanOutside(text[1..], tail);
    }
  }

  ghost predicate SpellsUnpaired(pieces: seq<Piece>)
    requires forall i | 0 <= i < |pieces| :: pieces[i].WellFormed()
  {
    exists i :: 0 <= i < |pieces| && pieces[i].Literal? && HasUnpaired(ElemUnits(pieces[i].elems))
  }

  // The scanner fires exactly when some string of the text has an unpaired
  // surrogate.
  lemma {:induction false} ScanExact(pieces: seq<Piece>)
    requires forall i | 0 <= i < |pieces| :: pieces[i].WellFormed()
    ensures Scan(SpellText(pieces), false) <==> SpellsUnpaired(pieces)
  {
    hide HasUnpaired, ScanUnits, ElemUnits, SpellElems, SpellsUnpaired;
    if pieces == [] {
      NothingSpelled();
    } else {
      var more := SpellText(pieces[1..]);
      ScanExact(pieces[1..]);
      FirstOrLater(pieces);
      match pieces[0]
      case Outside(text) => ScanOutside(text, more);
      case Literal(elems) =>
        var s := "\"" + SpellElems(elems) + "\"" + more;
        assert s[1..] == SpellElems(elems) + ("\"" + more);
        ScanLiteral(elems, more);
        ScanUnitsExact(ElemUnits(elems));
    }
  }

  lemma NothingSpelled()
    ensures !SpellsUnpaired([])
  {
  }

  lemma FirstOrLater(pieces: seq<Piece>)
    requires pieces != [] && forall i | 0 <= i < |pieces| :: pieces[i].WellFormed()
    ensures SpellsUnpaired(pieces) <==>
      || (pieces[0].Literal? && HasUnpaired(ElemUnits(pieces[0].elems)))
      || SpellsUnpaired(pieces[1..])
  {
    if SpellsUnpaired(pieces[1..]) {
      var i :| 0 <= i < |pieces[1..]| && pieces[1..][i].Literal? && HasUnpaired(ElemUnits(pieces[1..][i].elems));
      assert pieces[i + 1] == pieces[1..][i];
    }
    if SpellsUnpaired(pieces) {
      var i :| 0 <= i < |pieces| && pieces[i].Literal? && HasUnpaired(ElemUnits(pieces[i].elems));
      assert i > 0 ==> pieces[1..][i - 1] == pieces[i];
    }
  }
}

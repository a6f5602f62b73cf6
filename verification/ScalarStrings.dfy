// The in-memory string guard of jcs/jcs.go and the orders on scalar strings.
module ScalarStrings {
  import opened Prelude
  import opened Lexicographic
  import opened Utf8

  // ----- hasLoneSurrogate, validateScalarString

  ghost predicate SurrogateAt(s: string, i: int) {
    0 <= i && i + 1 < |s| && s[i] as int == 0xED && 0xA0 <= s[i + 1] as int <= 0xBF
  }

  method HasLoneSurrogate(s: string) returns (found: bool)
    ensures found <==> exists i :: SurrogateAt(s, i)
  {
    var i := 0;
    while i + 1 < |s|
      invariant 0 <= i
      invariant forall k :: 0 <= k < i ==> !SurrogateAt(s, k)
    {
      if s[i] as int == 0xED && s[i + 1] as int >= 0xA0 && s[i + 1] as int <= 0xBF {
        assert SurrogateAt(s, i);
        return true;
      }
      i := i + 1;
    }
    return false;
  }

  // Inside valid UTF-8 the pattern never occurs, across rune boundaries either.
  lemma {:induction false} ValidHasNoSurrogate(s: string, i: int)
    requires Valid(s)
    ensures !SurrogateAt(s, i)
    decreases |s|
  {
    if s != "" && SurrogateAt(s, i) {
      var n := SequenceLength(s);
      if i >= n {
        assert SurrogateAt(s[n..], i - n);
        ValidHasNoSurrogate(s[n..], i - n);
      }
    }
  }

  datatype UnicodeError = LoneSurrogate | InvalidUtf8

  method ValidateScalarString(s: string) returns (err: Option<UnicodeError>)
    ensures err.None? <==> Valid(s)
    ensures err == Some(LoneSurrogate) <==> exists i :: SurrogateAt(s, i)
  {
    var lone := HasLoneSurrogate(s);
    if lone {
      ghost var i :| SurrogateAt(s, i);
      if Valid(s) {
        ValidHasNoSurrogate(s, i);
      }
      return Some(LoneSurrogate);
    }
    if !Valid(s) {
      return Some(InvalidUtf8);
    }
    return None;
  }

  // ----- byte order is code point order

  lemma EncodeRuneOrder(x: int, y: int, p: string, q: string)
    requires Scalar(x) && Scalar(y) && x < y
    ensures Less(EncodeRune(x) + p, EncodeRune(y) + q)
  {
    hide EncodeRune;
    var a, b := EncodeRune(x), EncodeRune(y);
    var i := FirstByteDiffers(x, y);
    var ca, cb := Codes(a + p), Codes(b + q);
    assert forall k :: 0 <= k < |a| ==> ca[k] == a[k] as int;
    assert forall k :: 0 <= k < |b| ==> cb[k] == b[k] as int;
    assert ca[..i] == cb[..i] by {
      forall k | 0 <= k < i ensures ca[k] == cb[k] {
        assert a[..i][k] == b[..i][k];
      }
    }
    assert ca == ca[..i] + ca[i..] && cb == cb[..i] + cb[i..];
    LexCommonPrefix(ca[..i], ca[i..], cb[i..]);
  }

  ghost predicate FirstDifference(a: string, b: string, i: nat) {
    i < |a| && i < |b| && a[i] < b[i] && a[..i] == b[..i]
  }

  lemma FirstByteDiffers(x: int, y: int) returns (i: nat)
    requires Scalar(x) && Scalar(y) && x < y
    ensures FirstDifference(EncodeRune(x), EncodeRune(y), i)
  {
    assert x / 64 <= y / 64 && x / 4096 <= y / 4096 && x / 262144 <= y / 262144;
    if |EncodeRune(x)| != |EncodeRune(y)| || |EncodeRune(x)| == 1 {
      i := 0;
    } else if |EncodeRune(x)| == 2 {
      i := if x / 64 < y / 64 then 0 else 1;
    } else if |EncodeRune(x)| == 3 {
      i := FirstOfThree(x, y);
    } else {
      i := FirstOfFour(x, y);
    }
  }

  lemma ThreeBytes(x: int)
    requires Scalar(x) && 0x800 <= x < 0x10000
    ensures var a := EncodeRune(x);
      && |a| == 3 && a[0] as int == 0xE0 + x / 4096
      && a[1] as int == 0x80 + x / 64 - x / 4096 * 64 && a[2] as int == 0x80 + x - x / 64 * 64
  {
  }

  lemma FirstOfThree(x: int, y: int) returns (i: nat)
    requires Scalar(x) && Scalar(y) && 0x800 <= x < y < 0x10000
    ensures FirstDifference(EncodeRune(x), EncodeRune(y), i)
  {
    i := if x / 4096 < y / 4096 then 0 else if x / 64 < y / 64 then 1 else 2;
    var a, b := EncodeRune(x), EncodeRune(y);
    ThreeBytes(x);
    ThreeBytes(y);
    hide EncodeRune;
    assert a[i] < b[i];
  }

  lemma FirstDigit(xs: seq<int>, ys: seq<int>) returns (i: nat)
    requires |xs| == |ys| == 4 && forall k :: 1 <= k < 4 ==> 0 <= xs[k] < 64 && 0 <= ys[k] < 64
    requires xs[0] * 262144 + xs[1] * 4096 + xs[2] * 64 + xs[3] < ys[0] * 262144 + ys[1] * 4096 + ys[2] * 64 + ys[3]
    ensures i < 4 && xs[i] < ys[i] && xs[..i] == ys[..i]
  {
    i := if xs[0] < ys[0] then 0 else if xs[1] < ys[1] then 1 else if xs[2] < ys[2] then 2 else 3;
  }

  lemma FirstOfFour(x: int, y: int) returns (i: nat)
    requires Scalar(x) && Scalar(y) && 0x10000 <= x < y
    ensures FirstDifference(EncodeRune(x), EncodeRune(y), i)
  {
    hide EncodeRune, FourDigits;
    var xs, ys := FourDigits(x), FourDigits(y);
    i := FirstDigit(xs, ys);
    var a, b := EncodeRune(x), EncodeRune(y);
    FourBytes(x);
    FourBytes(y);
    forall k | 0 <= k < i ensures a[k] == b[k] {
      assert xs[..i][k] == ys[..i][k];
    }
  }

  lemma FourBytes(x: int)
    requires Scalar(x) && 0x10000 <= x
    ensures |EncodeRune(x)| == 4
    ensures forall k :: 0 <= k < 4 ==> EncodeRune(x)[k] as int == FourDigits(x)[k] + FOUR_BASES[k]
  {
  }

  const FOUR_BASES: seq<int> := [0xF0, 0x80, 0x80, 0x80]

  function FourDigits(x: int): (d: seq<int>)
    requires 0 <= x
    ensures |d| == 4 && x == d[0] * 262144 + d[1] * 4096 + d[2] * 64 + d[3]
    ensures forall k :: 1 <= k < 4 ==> 0 <= d[k] < 64
  {
    var a, b := x / 64, x / 4096;
    assert b == a / 64 && x / 262144 == b / 64;
    [x / 262144, b % 64, a % 64, x % 64]
  }

  lemma {:induction false} ByteOrderIsCodePointOrder(a: seq<int>, b: seq<int>)
    requires AllScalar(a) && AllScalar(b)
    ensures Less(Encode(a), Encode(b)) == LexLess(a, b)
  {
    if a == [] || b == [] {
    } else if a[0] < b[0] {
      EncodeRuneOrder(a[0], b[0], Encode(a[1..]), Encode(b[1..]));
    } else if b[0] < a[0] {
      EncodeRuneOrder(b[0], a[0], Encode(b[1..]), Encode(a[1..]));
      if Less(Encode(a), Encode(b)) {
        LessTransitive(Encode(a), Encode(b), Encode(a));
        LessIrreflexive(Encode(a));
      }
    } else {
      ByteOrderIsCodePointOrder(a[1..], b[1..]);
      CodesAppend(EncodeRune(a[0]), Encode(a[1..]));
      CodesAppend(EncodeRune(b[0]), Encode(b[1..]));
      LexCommonPrefix(Codes(EncodeRune(a[0])), Codes(Encode(a[1..])), Codes(Encode(b[1..])));
    }
  }

  // sort.Strings on valid strings sorts by code point.
  lemma ValidByteOrder(s: string, t: string)
    requires Valid(s) && Valid(t)
    ensures Less(s, t) == LexLess(Runes(s), Runes(t))
  {
    EncodeOfRunes(s);
    EncodeOfRunes(t);
    ByteOrderIsCodePointOrder(Runes(s), Runes(t));
  }

  // ----- lessUTF16

  function Units(cp: int): (u: seq<int>)
    ensures 1 <= |u| <= 2
  {
    if cp < 0x10000 then [cp] else [0xD800 + (cp - 0x10000) / 1024, 0xDC00 + (cp - 0x10000) % 1024]
  }

  // utf16.Encode.
  function Encode16(cps: seq<int>): seq<int> {
    if cps == [] then [] else Units(cps[0]) + Encode16(cps[1..])
  }

  predicate LessUtf16(a: string, b: string) {
    LexLess(Encode16(Runes(a)), Encode16(Runes(b)))
  }

  method CompareUtf16(a: string, b: string) returns (less: bool)
    ensures less == LessUtf16(a, b)
  {
    var ua, ub := Encode16(Runes(a)), Encode16(Runes(b));
    var n := |ua|;
    if |ub| < n {
      n := |ub|;
    }
    for i := 0 to n
      invariant ua[..i] == ub[..i]
    {
      if ua[i] != ub[i] {
        LexAfterPrefix(ua, ub, i);
        return ua[i] < ub[i];
      }
    }
    LexAfterPrefix(ua, ub, n);
    return |ua| < |ub|;
  }

  lemma LexAfterPrefix(a: seq<int>, b: seq<int>, i: nat)
    requires i <= |a| && i <= |b| && a[..i] == b[..i]
    ensures LexLess(a, b) == LexLess(a[i..], b[i..])
  {
    assert a == a[..i] + a[i..] && b == b[..i] + b[i..];
    LexCommonPrefix(a[..i], a[i..], b[i..]);
  }

  // How two code points compare by their first UTF-16 units: surrogates sort
  // below U+E000, so the top of the BMP outranks everything beyond it.
  predicate UnitOrder(x: int, y: int) {
    if x >= 0x10000 && 0xE000 <= y < 0x10000 then true
    else if y >= 0x10000 && 0xE000 <= x < 0x10000 then false
    else x < y
  }

  lemma UnitsOrder(x: int, y: int, p: seq<int>, q: seq<int>)
    requires Scalar(x) && Scalar(y) && x != y
    ensures LexLess(Units(x) + p, Units(y) + q) == UnitOrder(x, y)
  {
    if x >= 0x10000 && y >= 0x10000 && (x - 0x10000) / 1024 == (y - 0x10000) / 1024 {
      var a, b := Units(x) + p, Units(y) + q;
      assert a[0] == b[0] && a[1] != b[1];
      assert a[1..][0] == a[1] && b[1..][0] == b[1];
    }
  }

  lemma {:induction false} Encode16Append(a: seq<int>, b: seq<int>)
    ensures Encode16(a + b) == Encode16(a) + Encode16(b)
  {
    if a == [] {
      assert a + b == b;
    } else {
      assert (a + b)[1..] == a[1..] + b;
      Encode16Append(a[1..], b);
    }
  }

  // lessUTF16 against code point order: they part only when the first
  // difference pairs a code point beyond the BMP with one in U+E000..U+FFFF.
  lemma Utf16OrderAtFirstDifference(p: seq<int>, x: int, y: int, a: seq<int>, b: seq<int>)
    requires Scalar(x) && Scalar(y) && x != y
    ensures LexLess(p + [x] + a, p + [y] + b) == (x < y)
    ensures LexLess(Encode16(p + [x] + a), Encode16(p + [y] + b)) == UnitOrder(x, y)
  {
    assert p + [x] + a == p + ([x] + a) && p + [y] + b == p + ([y] + b);
    LexCommonPrefix(p, [x] + a, [y] + b);
    Encode16Append(p, [x] + a);
    Encode16Append(p, [y] + b);
    LexCommonPrefix(Encode16(p), Encode16([x] + a), Encode16([y] + b));
    assert ([x] + a)[1..] == a && ([y] + b)[1..] == b;
    UnitsOrder(x, y, Encode16(a), Encode16(b));
  }

  lemma {:induction false} Encode16Injective(a: seq<int>, b: seq<int>)
    requires AllScalar(a) && AllScalar(b) && Encode16(a) == Encode16(b)
    ensures a == b
  {
    if a != [] && b != [] {
      if a[0] != b[0] {
        UnitsOrder(a[0], b[0], Encode16(a[1..]), Encode16(b[1..]));
        UnitsOrder(b[0], a[0], Encode16(b[1..]), Encode16(a[1..]));
        LexIrreflexive(Encode16(a));
      } else {
        assert Encode16(a)[|Units(a[0])|..] == Encode16(a[1..]);
        assert Encode16(b)[|Units(b[0])|..] == Encode16(b[1..]);
        Encode16Injective(a[1..], b[1..]);
        assert a == [a[0]] + a[1..] && b == [b[0]] + b[1..];
      }
    }
  }

  lemma LessUtf16Irreflexive(a: string)
    ensures !LessUtf16(a, a)
  {
    LexIrreflexive(Encode16(Runes(a)));
  }

  lemma LessUtf16Transitive(a: string, b: string, c: string)
    requires LessUtf16(a, b) && LessUtf16(b, c)
    ensures LessUtf16(a, c)
  {
    LexTransitive(Encode16(Runes(a)), Encode16(Runes(b)), Encode16(Runes(c)));
  }

  // On valid strings lessUTF16 leaves no two distinct keys tied.
  lemma LessUtf16Total(a: string, b: string)
    requires Valid(a) && Valid(b) && a != b
    ensures LessUtf16(a, b) || LessUtf16(b, a)
  {
    EncodeOfRunes(a);
    EncodeOfRunes(b);
    if Encode16(Runes(a)) == Encode16(Runes(b)) {
      Encode16Injective(Runes(a), Runes(b));
    }
    LexTotal(Encode16(Runes(a)), Encode16(Runes(b)));
  }
}

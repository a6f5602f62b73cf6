// Dictionary order over numbers, and over Go strings seen as their bytes.
module Lexicographic {

  predicate LexLess(a: seq<int>, b: seq<int>) {
    if b == [] then false
    else if a == [] then true
    else if a[0] != b[0] then a[0] < b[0]
    else LexLess(a[1..], b[1..])
  }

  lemma {:induction false} LexIrreflexive(a: seq<int>)
    ensures !LexLess(a, a)
  {
    if a != [] {
      LexIrreflexive(a[1..]);
    }
  }

  lemma {:induction false} LexTransitive(a: seq<int>, b: seq<int>, c: seq<int>)
    requires LexLess(a, b) && LexLess(b, c)
    ensures LexLess(a, c)
  {
    if a != [] && a[0] == b[0] == c[0] {
      LexTransitive(a[1..], b[1..], c[1..]);
    }
  }

  lemma {:induction false} LexTotal(a: seq<int>, b: seq<int>)
    requires a != b
    ensures LexLess(a, b) || LexLess(b, a)
  {
    if a != [] && b != [] && a[0] == b[0] {
      assert a == [a[0]] + a[1..] && b == [b[0]] + b[1..];
      LexTotal(a[1..], b[1..]);
    }
  }

  lemma {:induction false} LexCommonPrefix(p: seq<int>, a: seq<int>, b: seq<int>)
    ensures LexLess(p + a, p + b) == LexLess(a, b)
  {
    if p == [] {
      assert p + a == a && p + b == b;
    } else {
      assert (p + a)[1..] == p[1..] + a && (p + b)[1..] == p[1..] + b;
      LexCommonPrefix(p[1..], a, b);
    }
  }

  // A Go string is a string of bytes: one char below U+0100 per byte.
  function Codes(s: string): (r: seq<int>)
    ensures |r| == |s|
  {
    seq(|s|, i requires 0 <= i < |s| => s[i] as int)
  }

  lemma CodesInjective(a: string, b: string)
    requires Codes(a) == Codes(b)
    ensures a == b
  {
    forall i | 0 <= i < |a| ensures a[i] == b[i] {
      assert Codes(a)[i] == Codes(b)[i];
    }
  }

  lemma CodesAppend(a: string, b: string)
    ensures Codes(a + b) == Codes(a) + Codes(b)
  {
  }

  // Go's "<" on strings.
  predicate Less(a: string, b: string) {
    LexLess(Codes(a), Codes(b))
  }

  lemma LessIrreflexive(a: string)
    ensures !Less(a, a)
  {
    LexIrreflexive(Codes(a));
  }

  lemma LessTransitive(a: string, b: string, c: string)
    requires Less(a, b) && Less(b, c)
    ensures Less(a, c)
  {
    LexTransitive(Codes(a), Codes(b), Codes(c));
  }

  lemma LessTotal(a: string, b: string)
    requires a != b
    ensures Less(a, b) || Less(b, a)
  {
    if Codes(a) == Codes(b) {
      CodesInjective(a, b);
    }
    LexTotal(Codes(a), Codes(b));
  }

  // `a` ends, or has the lesser byte, where the two first differ.
  predicate LesserAt(a: string, b: string, i: nat) {
    i <= |a| && i < |b| && a[..i] == b[..i] && (i == |a| || a[i] < b[i])
  }

  lemma {:induction false} LessAt(a: string, b: string, i: nat)
    requires LesserAt(a, b, i)
    ensures Less(a, b)
  {
    var p := a[..i];
    assert a == p + a[i..] && b == p + b[i..];
    CodesAppend(p, a[i..]);
    CodesAppend(p, b[i..]);
    LexCommonPrefix(Codes(p), Codes(a[i..]), Codes(b[i..]));
  }

  lemma {:induction false} FirstDifference(a: string, b: string) returns (i: nat)
    requires Less(a, b)
    ensures LesserAt(a, b, i)
  {
    if a == "" || a[0] != b[0] {
      i := 0;
    } else {
      assert Codes(a)[1..] == Codes(a[1..]) && Codes(b)[1..] == Codes(b[1..]);
      i := FirstDifference(a[1..], b[1..]);
      assert a[..i + 1] == [a[0]] + a[1..][..i] && b[..i + 1] == [b[0]] + b[1..][..i];
      i := i + 1;
    }
  }

  // The order of byte strings, by where they first differ.
  lemma LessExactly(a: string, b: string)
    ensures Less(a, b) <==> exists i: nat :: LesserAt(a, b, i)
  {
    if Less(a, b) {
      var i := FirstDifference(a, b);
    }
    forall i: nat | LesserAt(a, b, i) ensures Less(a, b) {
      LessAt(a, b, i);
    }
  }
}

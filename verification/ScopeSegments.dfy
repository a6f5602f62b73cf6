// What scopes mean: paths of segments, the last of which may be a wildcard.
module ScopeSegments {
  import opened Scopes

  // The pieces between the colons.
  function Segments(s: string): (r: seq<string>)
    ensures r != []
  {
    if s == "" then [""]
    else
      var rest := Segments(s[1..]);
      if s[0] == ':' then [""] + rest else [[s[0]] + rest[0]] + rest[1..]
  }

  function Join(parts: seq<string>): string
    requires parts != []
  {
    if |parts| == 1 then parts[0] else parts[0] + ":" + Join(parts[1..])
  }

  // What a granted scope fixes: a last segment "*" stands for any continuation,
  // the empty one included.
  function Base(granted: string): seq<string> {
    var s := Segments(granted);
    if s[|s| - 1] == "*" then s[..|s| - 1] else s
  }

  lemma {:induction false} SegmentsWhole(s: string)
    requires ':' !in s
    ensures Segments(s) == [s]
  {
    if s != "" {
      assert s[0] in s && ':' !in s[1..];
      SegmentsWhole(s[1..]);
      assert [s[0]] + s[1..] == s;
    }
  }

  lemma SegmentsCons(c: char, s: string)
    ensures Segments([c] + s) == if c == ':' then [""] + Segments(s) else [[c] + Segments(s)[0]] + Segments(s)[1..]
  {
    assert ([c] + s)[1..] == s;
  }

  lemma {:induction false} SegmentsAppend(a: string, b: string)
    ensures Segments(a + ":" + b) == Segments(a) + Segments(b)
  {
    if a == "" {
      SegmentsCons(':', b);
      assert a + ":" + b == [':'] + b;
    } else {
      SegmentsAppend(a[1..], b);
      SegmentsCons(a[0], a[1..]);
      SegmentsCons(a[0], a[1..] + ":" + b);
      assert [a[0]] + a[1..] == a && [a[0]] + (a[1..] + ":" + b) == a + ":" + b;
      hide Segments;
      HeadOf([a[0]], a[0] == ':', Segments(a[1..]), Segments(b));
    }
  }

  lemma HeadOf(c: string, colon: bool, r: seq<string>, t: seq<string>)
    requires r != []
    ensures (if colon then [""] + (r + t) else [c + (r + t)[0]] + (r + t)[1..]) ==
            (if colon then [""] + r else [c + r[0]] + r[1..]) + t
  {
  }

  // Splitting is the inverse of joining with colons.
  lemma {:induction false} SegmentsExactly(s: string, parts: seq<string>)
    ensures Segments(s) == parts <==> parts != [] && (forall p <- parts :: ':' !in p) && Join(parts) == s
  {
    SegmentsJoin(s);
    if parts != [] && (forall p <- parts :: ':' !in p) && Join(parts) == s {
      JoinedSegments(parts);
    }
  }

  lemma {:induction false} SegmentsJoin(s: string)
    ensures (forall p <- Segments(s) :: ':' !in p) && Join(Segments(s)) == s
  {
    if s != "" {
      var rest := Segments(s[1..]);
      SegmentsJoin(s[1..]);
      if s[0] == ':' {
        assert Segments(s)[1..] == rest;
      } else {
        assert Segments(s)[1..] == rest[1..];
        assert rest[0] in rest;
      }
    }
  }

  lemma {:induction false} JoinedSegments(parts: seq<string>)
    requires parts != [] && forall p <- parts :: ':' !in p
    ensures Segments(Join(parts)) == parts
  {
    assert parts[0] in parts;
    SegmentsWhole(parts[0]);
    if |parts| > 1 {
      SegmentsAppend(parts[0], Join(parts[1..]));
      JoinedSegments(parts[1..]);
    }
  }

  lemma {:induction false} JoinAppend(a: seq<string>, b: seq<string>)
    requires a != [] && b != []
    ensures Join(a + b) == Join(a) + ":" + Join(b)
  {
    if |a| > 1 {
      assert (a + b)[1..] == a[1..] + b;
      JoinAppend(a[1..], b);
    } else {
      assert (a + b)[1..] == b;
    }
  }

  // A prefix of whole segments is an equal string or one that stops at a colon.
  lemma PrefixExactly(p: string, r: string)
    ensures Segments(p) <= Segments(r) <==> p == r || p + ":" <= r
  {
    hide Segments, Join;
    SegmentsJoin(p);
    SegmentsJoin(r);
    if p + ":" <= r {
      var rest := r[|p| + 1..];
      assert r == p + ":" + rest;
      SegmentsAppend(p, rest);
    }
    if Segments(p) <= Segments(r) && Segments(p) != Segments(r) {
      var rest := Segments(r)[|Segments(p)|..];
      assert Segments(r) == Segments(p) + rest;
      JoinAppend(Segments(p), rest);
    }
  }

  // A scope covers another exactly when what it fixes is how the other starts,
  // segment by segment.
  lemma CoversExactly(granted: string, required: string)
    ensures ScopeCovers(granted, required) <==> Base(granted) <= Segments(required)
  {
    PrefixExactly(granted, required);
    if HasSuffix(granted, ":*") {
      var prefix := granted[..|granted| - 2];
      assert granted == prefix + ":" + "*";
      SegmentsAppend(prefix, "*");
      SegmentsWhole("*");
      PrefixExactly(prefix, required);
      assert Base(granted) == Segments(prefix);
      PrefixOfLonger(prefix, granted, required);
    } else if granted == "*" {
      SegmentsWhole("*");
    } else {
      NoWildcard(granted);
    }
  }

  // What the whole scope starts, its base starts too.
  lemma PrefixOfLonger(prefix: string, granted: string, required: string)
    requires granted == prefix + ":*"
    ensures granted == required || granted + ":" <= required ==> prefix + ":" <= required
  {
  }

  lemma StarEnds(x: string)
    ensures HasSuffix(x + ":" + "*", ":*")
  {
    var s := x + ":" + "*";
    assert s[|s| - 2..] == ":*";
  }

  lemma LastStar(granted: string)
    requires Segments(granted)[|Segments(granted)| - 1] == "*"
    ensures granted == "*" || HasSuffix(granted, ":*")
  {
    hide HasSuffix, Segments;
    var s := Segments(granted);
    SegmentsJoin(granted);
    var init := s[..|s| - 1];
    assert s == init + ["*"] && Join(["*"]) == "*";
    hide Join;
    if init != [] {
      JoinAppend(init, ["*"]);
      StarEnds(Join(init));
    } else {
      assert s == ["*"];
    }
  }

  lemma NoWildcard(granted: string)
    requires granted != "*" && !HasSuffix(granted, ":*")
    ensures Base(granted) == Segments(granted)
  {
    hide HasSuffix;
    if Segments(granted)[|Segments(granted)| - 1] == "*" {
      LastStar(granted);
    }
  }

  // Each required scope starts with what some granted one fixes.
  ghost predicate Extends(granted: seq<string>, required: seq<string>) {
    forall s <- required :: exists g <- granted :: Base(g) <= Segments(s)
  }

  lemma NarrowsExactly(granted: seq<string>, required: seq<string>)
    ensures ScopeNarrows(granted, required) <==> Extends(granted, required)
  {
    forall g, s ensures ScopeCovers(g, s) <==> Base(g) <= Segments(s) {
      CoversExactly(g, s);
    }
  }
}

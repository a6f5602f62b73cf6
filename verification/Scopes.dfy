// The scope matcher of verify/verify.go and the exact condition under which
// scope cover composes along a chain.
module Scopes {

  predicate HasSuffix(s: string, t: string) {
    |t| <= |s| && s[|s| - |t|..] == t
  }

  // Exact match, the "*" wildcard, a ":"-separated prefix, or a trailing ":*".
  predicate ScopeCovers(granted: string, required: string) {
    || granted == required
    || granted == "*"
    || granted + ":" <= required
    || (HasSuffix(granted, ":*") &&
        var prefix := granted[..|granted| - 2];
        required == prefix || prefix + ":" <= required)
  }

  // X:* where X is itself a wildcard.
  predicate NestedWildcard(granted: string) {
    HasSuffix(granted, ":*") &&
    var prefix := granted[..|granted| - 2];
    prefix == "*" || HasSuffix(prefix, ":*")
  }

  lemma PrefixTrans(a: string, b: string, c: string)
    requires a <= b && b + ":" <= c
    ensures a <= c
  {
  }

  // Everything covered by a scope strictly below `p:` is itself below `p:`.
  lemma CoverStaysBelow(p: string, a: string, b: string)
    requires p + ":" <= a && ScopeCovers(a, b)
    ensures b == p || p + ":" <= b
  {
    if a + ":" <= b {
      PrefixTrans(p + ":", a, b);
    } else if a != b {
      assert a[|p|] == ':';
      assert a != "*";
      var q := a[..|a| - 2];
      assert a == q + ":*";
      assert a[|q| + 1] == '*';
      // p + ":" cannot reach past q: ":*" has no second colon
      assert |p| <= |q|;
      assert p == q || p + ":" <= q;
    }
  }

  // Cover from `g` composes exactly when `g` is not a nested wildcard.
  lemma CoverComposes(g: string, a: string, b: string)
    requires !NestedWildcard(g)
    requires ScopeCovers(g, a) && ScopeCovers(a, b)
    ensures ScopeCovers(g, b)
  {
    if g == a || g == "*" {
    } else if g + ":" <= a {
      CoverStaysBelow(g, a, b);
    } else {
      var p := g[..|g| - 2];
      assert g == p + ":*";
      if a != p {
        CoverStaysBelow(p, a, b);
      }
    }
  }

  // For a nested wildcard, a concrete two-step cover that does not compose.
  lemma NestedWildcardLeaks(g: string) returns (a: string, b: string)
    requires NestedWildcard(g)
    ensures ScopeCovers(g, a) && ScopeCovers(a, b) && !ScopeCovers(g, b)
  {
    var p := g[..|g| - 2];
    assert g == p + ":*";
    a := p;
    if p == "*" {
      b := "";
    } else {
      b := p[..|p| - 2];
      assert p == b + ":*";
    }
  }

  lemma CoverComposesExactly(g: string)
    ensures (forall a, b :: ScopeCovers(g, a) && ScopeCovers(a, b) ==> ScopeCovers(g, b)) <==> !NestedWildcard(g)
  {
    if NestedWildcard(g) {
      var a, b := NestedWildcardLeaks(g);
    } else {
      forall a, b | ScopeCovers(g, a) && ScopeCovers(a, b) ensures ScopeCovers(g, b) {
        CoverComposes(g, a, b);
      }
    }
  }

  // Every required scope is covered by some granted one.
  predicate ScopeNarrows(granted: seq<string>, required: seq<string>) {
    forall s <- required :: exists g <- granted :: ScopeCovers(g, s)
  }

  // The nested loops the minter and the verifier share.
  method CoversAll(granted: seq<string>, required: seq<string>) returns (ok: bool)
    ensures ok <==> ScopeNarrows(granted, required)
  {
    for i := 0 to |required|
      invariant forall k :: 0 <= k < i ==> exists g <- granted :: ScopeCovers(g, required[k])
    {
      var covered := false;
      for j := 0 to |granted|
        invariant !covered
        invariant forall k :: 0 <= k < j ==> !ScopeCovers(granted[k], required[i])
      {
        if ScopeCovers(granted[j], required[i]) {
          assert granted[j] in granted;
          covered := true;
          break;
        }
      }
      if !covered {
        assert required[i] in required;
        assert forall g <- granted :: !ScopeCovers(g, required[i]);
        return false;
      }
    }
    return true;
  }
}

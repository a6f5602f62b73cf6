// What an accepted delegation chain is, said over all pairs of links rather
// than by folding a ceiling, and what follows for any chain of any length.
module ChainSpec {
  import opened Prelude
  import opened Delegations
  import opened Scopes
  import opened ChainVerifier

  // Each facet below speaks of the first `n` links.

  ghost predicate Linked(chain: seq<Delegation>, n: nat)
    requires n <= |chain|
  {
    forall i :: 0 < i < n ==> chain[i].delegatedBy == chain[i - 1].delegatedTo
  }

  // Positions count up by one from a non-negative root, and no link lies
  // deeper than any maximum stated anywhere in the chain.
  ghost predicate DepthsCount(chain: seq<Delegation>, n: nat)
    requires n <= |chain|
  {
    && (forall i :: 0 <= i < n ==> 0 <= chain[i].Depth() == chain[0].Depth() + i)
    && (forall i, j :: 0 <= i < n && 0 <= j < n && chain[i].maxDepth.Some? ==>
          0 <= chain[j].Depth() <= chain[i].maxDepth.value)
  }

  ghost predicate MaxDepthsNarrow(chain: seq<Delegation>, n: nat)
    requires n <= |chain|
  {
    forall i, j :: 0 <= i < j < n && chain[i].maxDepth.Some? && chain[j].maxDepth.Some? ==>
      chain[j].maxDepth.value <= chain[i].maxDepth.value
  }

  ghost predicate LimitsNarrow(chain: seq<Delegation>, n: nat)
    requires n <= |chain|
  {
    && (forall i :: 0 <= i < n && chain[i].spendLimit.Some? ==> chain[i].spendLimit.value.Finite())
    && (forall i, j :: 0 <= i < j < n && chain[i].spendLimit.Some? && chain[j].spendLimit.Some? ==>
          chain[j].spendLimit.value.r <= chain[i].spendLimit.value.r)
  }

  ghost predicate UnitsAgree(chain: seq<Delegation>, n: nat)
    requires n <= |chain|
  {
    forall i, j :: 0 <= i < n && 0 <= j < n && chain[i].StatedUnit() != "" && chain[j].StatedUnit() != "" ==>
      chain[i].StatedUnit() == chain[j].StatedUnit()
  }

  ghost predicate ScopesNarrow(chain: seq<Delegation>, n: nat)
    requires n <= |chain|
  {
    forall i :: 0 < i < n ==> ScopeNarrows(chain[i - 1].scope, chain[i].scope)
  }

  ghost predicate FloorsRise(env: TimeEnv, chain: seq<Delegation>, n: nat)
    requires n <= |chain|
  {
    && (forall i :: 0 <= i < n && chain[i].notBefore != "" ==> env.parse(chain[i].notBefore).Some?)
    && (forall i, j :: 0 <= i < j < n && chain[i].notBefore != "" && chain[j].notBefore != "" ==>
          env.Millis(chain[i].notBefore) <= env.Millis(chain[j].notBefore))
  }

  // The verifier never reads the expiry of a chain of one link.
  ghost predicate ExpiriesShrink(env: TimeEnv, chain: seq<Delegation>, n: nat)
    requires n <= |chain|
  {
    && (n >= 2 ==> forall i :: 0 <= i < n && chain[i].expiresAt != "" ==> env.parse(chain[i].expiresAt).Some?)
    && (forall i, j :: 0 <= i < j < n && chain[i].expiresAt != "" ==>
          chain[j].expiresAt != "" && env.Millis(chain[j].expiresAt) <= env.Millis(chain[i].expiresAt))
  }

  ghost predicate NarrowingTo(env: TimeEnv, chain: seq<Delegation>, n: nat)
    requires n <= |chain|
  {
    && Linked(chain, n)
    && DepthsCount(chain, n)
    && MaxDepthsNarrow(chain, n)
    && LimitsNarrow(chain, n)
    && UnitsAgree(chain, n)
    && ScopesNarrow(chain, n)
    && FloorsRise(env, chain, n)
    && ExpiriesShrink(env, chain, n)
  }

  ghost predicate Narrowing(env: TimeEnv, chain: seq<Delegation>) {
    |chain| > 0 && NarrowingTo(env, chain, |chain|)
  }

  // What the folded ceiling remembers of the first `n` links, facet by facet:
  // the tightest statement made so far, wherever it was made.

  ghost predicate LimitRemembered(limit: Option<Float>, chain: seq<Delegation>, n: nat)
    requires n <= |chain|
  {
    match limit
    case None => forall i :: 0 <= i < n ==> chain[i].spendLimit.None?
    case Some(v) =>
      && v.Finite()
      && (exists i :: 0 <= i < n && chain[i].spendLimit == limit)
      && (forall i :: 0 <= i < n && chain[i].spendLimit.Some? ==>
            chain[i].spendLimit.value.Finite() && v.r <= chain[i].spendLimit.value.r)
  }

  ghost predicate UnitRemembered(unit: string, chain: seq<Delegation>, n: nat)
    requires n <= |chain|
  {
    && (forall i :: 0 <= i < n && chain[i].StatedUnit() != "" ==> chain[i].StatedUnit() == unit)
    && (unit != "" ==> exists i :: 0 <= i < n && chain[i].StatedUnit() == unit)
  }

  ghost predicate MaxDepthRemembered(max: Option<int>, chain: seq<Delegation>, n: nat)
    requires n <= |chain|
  {
    match max
    case None => forall i :: 0 <= i < n ==> chain[i].maxDepth.None?
    case Some(m) =>
      && (exists i :: 0 <= i < n && chain[i].maxDepth == max)
      && (forall i :: 0 <= i < n && chain[i].maxDepth.Some? ==> m <= chain[i].maxDepth.value)
  }

  ghost predicate FloorRemembered(env: TimeEnv, floor: string, floorMs: int, chain: seq<Delegation>, n: nat)
    requires n <= |chain|
  {
    && (floor == "" ==> forall i :: 0 <= i < n ==> chain[i].notBefore == "")
    && (floor != "" ==>
          && floorMs == env.Millis(floor)
          && (exists i :: 0 <= i < n && chain[i].notBefore == floor)
          && (forall i :: 0 <= i < n && chain[i].notBefore != "" ==>
                env.Millis(chain[i].notBefore) <= floorMs))
  }

  ghost predicate Remembered(env: TimeEnv, b: Bound, chain: seq<Delegation>, n: nat)
    requires n <= |chain|
  {
    && LimitRemembered(b.spendLimit, chain, n)
    && UnitRemembered(b.spendUnit, chain, n)
    && MaxDepthRemembered(b.maxDepth, chain, n)
    && FloorRemembered(env, b.notBefore, b.notBeforeMs, chain, n)
  }

  // Folding one more link: each facet is accepted exactly when the link agrees
  // with every earlier statement, and is then remembered.

  lemma LimitStep(b: Bound, chain: seq<Delegation>, n: nat)
    requires n < |chain| && LimitRemembered(b.spendLimit, chain, n) && LimitsNarrow(chain, n)
    ensures NarrowLimit(b, chain[n]).Ok? <==> LimitsNarrow(chain, n + 1)
    ensures NarrowLimit(b, chain[n]).Ok? ==> LimitRemembered(NarrowLimit(b, chain[n]).value.spendLimit, chain, n + 1)
  {
    var d := chain[n];
    if d.spendLimit.Some? && d.spendLimit.value.Finite() && b.spendLimit.Some? {
      var i :| 0 <= i < n && chain[i].spendLimit == b.spendLimit;
    }
  }

  lemma UnitStep(b: Bound, chain: seq<Delegation>, n: nat)
    requires n < |chain| && UnitRemembered(b.spendUnit, chain, n) && UnitsAgree(chain, n)
    ensures NarrowUnit(b, chain[n]).Ok? <==> UnitsAgree(chain, n + 1)
    ensures NarrowUnit(b, chain[n]).Ok? ==> UnitRemembered(NarrowUnit(b, chain[n]).value.spendUnit, chain, n + 1)
  {
    if b.spendUnit != "" {
      var i :| 0 <= i < n && chain[i].StatedUnit() == b.spendUnit;
    }
  }

  lemma MaxDepthStep(b: Bound, chain: seq<Delegation>, n: nat)
    requires n < |chain| && MaxDepthRemembered(b.maxDepth, chain, n) && MaxDepthsNarrow(chain, n)
    ensures NarrowMaxDepth(b, chain[n]).Ok? <==> MaxDepthsNarrow(chain, n + 1)
    ensures NarrowMaxDepth(b, chain[n]).Ok? ==> MaxDepthRemembered(NarrowMaxDepth(b, chain[n]).value.maxDepth, chain, n + 1)
  {
    if b.maxDepth.Some? {
      var i :| 0 <= i < n && chain[i].maxDepth == b.maxDepth;
    }
  }

  lemma FloorStep(env: TimeEnv, b: Bound, chain: seq<Delegation>, n: nat)
    requires n < |chain| && FloorRemembered(env, b.notBefore, b.notBeforeMs, chain, n) && FloorsRise(env, chain, n)
    ensures NarrowFloor(env, b, chain[n]).Ok? <==> FloorsRise(env, chain, n + 1)
    ensures var b' := NarrowFloor(env, b, chain[n]);
      b'.Ok? ==> FloorRemembered(env, b'.value.notBefore, b'.value.notBeforeMs, chain, n + 1)
  {
    if b.notBefore != "" {
      var i :| 0 <= i < n && chain[i].notBefore == b.notBefore;
    }
  }

  ghost predicate BoundsNarrow(env: TimeEnv, chain: seq<Delegation>, n: nat)
    requires n <= |chain|
  {
    UnitsAgree(chain, n) && LimitsNarrow(chain, n) && MaxDepthsNarrow(chain, n) && FloorsRise(env, chain, n)
  }

  lemma BoundsStep(env: TimeEnv, b: Bound, chain: seq<Delegation>, n: nat)
    requires n < |chain| && Remembered(env, b, chain, n) && BoundsNarrow(env, chain, n)
    ensures NarrowStep(env, b, chain[n]).Ok? <==> BoundsNarrow(env, chain, n + 1)
    ensures NarrowStep(env, b, chain[n]).Ok? ==> Remembered(env, NarrowStep(env, b, chain[n]).value, chain, n + 1)
  {
    hide UnitsAgree, LimitsNarrow, MaxDepthsNarrow, FloorsRise, UnitRemembered, LimitRemembered, MaxDepthRemembered, FloorRemembered;
    UnitStep(b, chain, n);
    var b1 := NarrowUnit(b, chain[n]);
    if b1.Ok? {
      LimitStep(b1.value, chain, n);
      var b2 := NarrowLimit(b1.value, chain[n]);
      if b2.Ok? {
        MaxDepthStep(b2.value, chain, n);
        var b3 := NarrowMaxDepth(b2.value, chain[n]);
        if b3.Ok? {
          FloorStep(env, b3.value, chain, n);
        }
      }
    }
  }

  lemma DepthStep(b: Bound, chain: seq<Delegation>, n: nat)
    requires n < |chain| && MaxDepthRemembered(b.maxDepth, chain, n + 1) && DepthsCount(chain, n)
    ensures DepthsCount(chain, n + 1) <==>
      DepthViolation(b, chain[n]).None? && (n > 0 ==> chain[n].Depth() == chain[n - 1].Depth() + 1)
  {
    var d := chain[n];
    assert n > 0 ==> chain[n - 1].Depth() == chain[0].Depth() + (n - 1);
    if DepthsCount(chain, n + 1) {
      assert d.Depth() >= 0 && (d.maxDepth.Some? ==> 0 <= d.Depth() <= d.maxDepth.value);
      if b.maxDepth.Some? {
        var i :| 0 <= i < n + 1 && chain[i].maxDepth == b.maxDepth;
      }
    }
    if DepthViolation(b, d).None? && (n > 0 ==> d.Depth() == chain[n - 1].Depth() + 1) {
      forall i, j | 0 <= i < n + 1 && 0 <= j < n + 1 && chain[i].maxDepth.Some?
        ensures 0 <= chain[j].Depth() <= chain[i].maxDepth.value
      {
        assert b.maxDepth.value <= chain[i].maxDepth.value;
        assert j < n ==> 0 <= chain[j].Depth() == chain[0].Depth() + j;
      }
    }
  }

  lemma LinkStep(chain: seq<Delegation>, n: nat)
    requires 0 < n < |chain| && Linked(chain, n) && ScopesNarrow(chain, n)
    ensures Linked(chain, n + 1) <==> chain[n].delegatedBy == chain[n - 1].delegatedTo
    ensures ScopesNarrow(chain, n + 1) <==> ScopeNarrows(chain[n - 1].scope, chain[n].scope)
  {
  }

  lemma ExpiryStep(env: TimeEnv, chain: seq<Delegation>, n: nat)
    requires 0 < n < |chain| && ExpiriesShrink(env, chain, n)
    ensures ExpiriesShrink(env, chain, n + 1) <==> ExpiryViolation(env, chain[n - 1], chain[n]).None?
  {
  }

  lemma RememberedMaxDepth(env: TimeEnv, b: Bound, chain: seq<Delegation>, n: nat)
    requires n <= |chain| && Remembered(env, b, chain, n)
    ensures MaxDepthRemembered(b.maxDepth, chain, n)
  {
  }

  // The verifier's fold accepts `n` links exactly when they narrow pairwise.
  lemma {:induction false} WalkExact(env: TimeEnv, chain: seq<Delegation>, n: nat)
    requires 1 <= n <= |chain|
    ensures Walk(env, chain, n).Ok? <==> NarrowingTo(env, chain, n)
    ensures Walk(env, chain, n).Ok? ==> Remembered(env, Walk(env, chain, n).value, chain, n)
  {
    hide NarrowingTo, Remembered, HopStep, RootStep;
    if n == 1 {
      RootExact(env, chain);
    } else {
      WalkExact(env, chain, n - 1);
      if NarrowingTo(env, chain, n - 1) {
        HopExact(env, Walk(env, chain, n - 1).value, chain, n - 1);
      } else if NarrowingTo(env, chain, n) {
        NarrowingShortens(env, chain, n - 1, n);
      }
    }
  }

  lemma NothingYet(env: TimeEnv, chain: seq<Delegation>)
    requires |chain| > 0
    ensures Remembered(env, UNBOUNDED, chain, 0) && BoundsNarrow(env, chain, 0) && DepthsCount(chain, 0)
    ensures Linked(chain, 1) && ScopesNarrow(chain, 1) && ExpiriesShrink(env, chain, 1)
  {
  }

  lemma RootExact(env: TimeEnv, chain: seq<Delegation>)
    requires |chain| > 0
    ensures var step := RootStep(env, chain[0]);
      && (step.Ok? <==> NarrowingTo(env, chain, 1))
      && (step.Ok? ==> Remembered(env, step.value, chain, 1))
  {
    hide Linked, DepthsCount, ScopesNarrow, ExpiriesShrink, UnitsAgree, LimitsNarrow, MaxDepthsNarrow, FloorsRise;
    hide Remembered, NarrowStep, DepthViolation;
    NothingYet(env, chain);
    BoundsStep(env, UNBOUNDED, chain, 0);
    var b := NarrowStep(env, UNBOUNDED, chain[0]);
    if b.Ok? {
      RememberedMaxDepth(env, b.value, chain, 1);
      DepthStep(b.value, chain, 0);
    }
  }

  lemma HopExact(env: TimeEnv, b: Bound, chain: seq<Delegation>, n: nat)
    requires 0 < n < |chain| && NarrowingTo(env, chain, n) && Remembered(env, b, chain, n)
    ensures var step := HopStep(env, b, chain[n - 1], chain[n]);
      && (step.Ok? <==> NarrowingTo(env, chain, n + 1))
      && (step.Ok? ==> Remembered(env, step.value, chain, n + 1))
  {
    hide Linked, DepthsCount, ScopesNarrow, ExpiriesShrink, UnitsAgree, LimitsNarrow, MaxDepthsNarrow, FloorsRise;
    hide Remembered, NarrowStep, DepthViolation, ScopeNarrows, ExpiryViolation;
    LinkStep(chain, n);
    BoundsStep(env, b, chain, n);
    ExpiryStep(env, chain, n);
    var b' := NarrowStep(env, b, chain[n]);
    if b'.Ok? {
      RememberedMaxDepth(env, b'.value, chain, n + 1);
      DepthStep(b'.value, chain, n);
    }
  }

  lemma NarrowingShortens(env: TimeEnv, chain: seq<Delegation>, k: nat, n: nat)
    requires k <= n <= |chain| && NarrowingTo(env, chain, n)
    ensures NarrowingTo(env, chain, k)
  {
  }

  // Acceptance is exactly the declarative property.
  lemma VerdictExact(env: TimeEnv, chain: seq<Delegation>)
    ensures Verdict(env, chain).None? <==> Narrowing(env, chain)
  {
    if |chain| > 0 {
      WalkExact(env, chain, |chain|);
    }
  }

  // A stated maximum, wherever it stands, caps the length of the whole chain.
  lemma MaxDepthCapsLength(env: TimeEnv, chain: seq<Delegation>, i: nat)
    requires Verdict(env, chain).None?
    requires i < |chain| && chain[i].maxDepth.Some?
    ensures |chain| <= chain[i].maxDepth.value + 1 - chain[0].Depth()
    ensures forall j :: 0 <= j < |chain| ==> chain[j].Depth() == chain[0].Depth() + j
  {
    VerdictExact(env, chain);
    assert chain[|chain| - 1].Depth() == chain[0].Depth() + (|chain| - 1);
  }

  ghost predicate CoveredBy(s: string, scopes: seq<string>) {
    exists g <- scopes :: ScopeCovers(g, s)
  }

  // No hop widens what the root granted, provided the root grants no nested
  // wildcard (see Scopes.CoverComposesExactly).
  lemma {:induction false} RootCoversEveryScope(env: TimeEnv, chain: seq<Delegation>, i: nat, s: string)
    requires Verdict(env, chain).None?
    requires forall g <- chain[0].scope :: !NestedWildcard(g)
    requires i < |chain| && s in chain[i].scope
    ensures CoveredBy(s, chain[0].scope)
  {
    if i > 0 {
      VerdictExact(env, chain);
      assert ScopeNarrows(chain[i - 1].scope, chain[i].scope);
      var a :| a in chain[i - 1].scope && ScopeCovers(a, s);
      RootCoversEveryScope(env, chain, i - 1, a);
      var g :| g in chain[0].scope && ScopeCovers(g, a);
      CoverComposes(g, a, s);
    } else {
      assert ScopeCovers(s, s);
    }
  }

  function Link(depth: int, from: string, to: string, scope: string): Delegation {
    Delegation("", from, to, [scope], None, "", None, Some(depth), "", "", "", "")
  }

  // From a nested wildcard an accepted chain of three links leaves the root's
  // scope.
  lemma NestedWildcardChain(env: TimeEnv, g: string) returns (chain: seq<Delegation>, s: string)
    requires NestedWildcard(g)
    ensures Verdict(env, chain).None? && |chain| == 3 && chain[0].scope == [g]
    ensures chain[2].scope == [s] && !CoveredBy(s, chain[0].scope)
  {
    var a, b := NestedWildcardLeaks(g);
    s := b;
    chain := [Link(0, "p", "q", g), Link(1, "q", "r", a), Link(2, "r", "t", b)];
    hide ScopeCovers;
    assert ScopeNarrows([g], [a]) by {
      assert g in [g];
    }
    assert ScopeNarrows([a], [b]) by {
      assert a in [a];
    }
    assert Walk(env, chain, 1) == Ok(UNBOUNDED);
    assert Walk(env, chain, 2) == Ok(UNBOUNDED);
    assert Walk(env, chain, 3) == Ok(UNBOUNDED);
  }
}

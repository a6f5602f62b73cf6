// What an accepted chain is, in terms of the recorded fields alone: none of the
// functions the verifier computes with appears in the statement.
module ChainReference {
  import opened Prelude
  import opened Delegations
  import opened Scopes
  import opened ScopeSegments
  import opened ChainVerifier
  import opened ChainSpec

  // A limit without a unit is one in the default unit.
  ghost predicate StatesUnit(d: Delegation, unit: string) {
    && unit != ""
    && (d.spendLimitUnit == unit || (d.spendLimitUnit == "" && d.spendLimit.Some? && unit == "currency"))
  }

  // A missing position reads as zero.
  ghost predicate AtDepth(d: Delegation, depth: int) {
    d.currentDepth == Some(depth) || (d.currentDepth.None? && depth == 0)
  }

  // The text is a readable instant within millisecond `ms`.
  ghost predicate Within(env: TimeEnv, text: string, ms: int) {
    && text != "" && env.parse(text).Some?
    && 1_000_000 * ms <= env.parse(text).value < 1_000_000 * (ms + 1)
  }

  ghost predicate LinkedOk(chain: seq<Delegation>) {
    forall i :: 0 < i < |chain| ==> chain[i].delegatedBy == chain[i - 1].delegatedTo
  }

  ghost predicate DepthsFrom(chain: seq<Delegation>, root: int) {
    forall i :: 0 <= i < |chain| ==> AtDepth(chain[i], root + i)
  }

  ghost predicate DepthsOk(chain: seq<Delegation>) {
    && (exists root :: root >= 0 && DepthsFrom(chain, root))
    && (forall i, j, m, depth :: 0 <= i < |chain| && 0 <= j < |chain| && chain[i].maxDepth == Some(m) && AtDepth(chain[j], depth) ==>
          depth <= m)
    && (forall i, j, m, n :: 0 <= i < j < |chain| && chain[i].maxDepth == Some(m) && chain[j].maxDepth == Some(n) ==> n <= m)
  }

  ghost predicate LimitsOk(chain: seq<Delegation>) {
    && (forall i, f :: 0 <= i < |chain| && chain[i].spendLimit == Some(f) ==> f.Fin?)
    && (forall i, j, x, y :: 0 <= i < j < |chain| && chain[i].spendLimit == Some(Fin(x)) && chain[j].spendLimit == Some(Fin(y)) ==>
          y <= x)
  }

  ghost predicate UnitsOk(chain: seq<Delegation>) {
    forall i, j, u, w :: 0 <= i < |chain| && 0 <= j < |chain| && StatesUnit(chain[i], u) && StatesUnit(chain[j], w) ==> u == w
  }

  ghost predicate ScopesOk(chain: seq<Delegation>) {
    forall i :: 0 < i < |chain| ==> Extends(chain[i - 1].scope, chain[i].scope)
  }

  ghost predicate FloorsOk(env: TimeEnv, chain: seq<Delegation>) {
    && (forall i :: 0 <= i < |chain| && chain[i].notBefore != "" ==> exists ms :: Within(env, chain[i].notBefore, ms))
    && (forall i, j, a, b :: 0 <= i < j < |chain| && Within(env, chain[i].notBefore, a) && Within(env, chain[j].notBefore, b) ==>
          a <= b)
  }

  // The expiry of a chain of one link is never read.
  ghost predicate ExpiriesOk(env: TimeEnv, chain: seq<Delegation>) {
    && (forall i :: 0 <= i < |chain| && chain[i].expiresAt != "" && |chain| > 1 ==> exists ms :: Within(env, chain[i].expiresAt, ms))
    && (forall i, j :: 0 <= i < j < |chain| && chain[i].expiresAt != "" ==> chain[j].expiresAt != "")
    && (forall i, j, a, b :: 0 <= i < j < |chain| && Within(env, chain[i].expiresAt, a) && Within(env, chain[j].expiresAt, b) ==>
          b <= a)
  }

  ghost predicate Acceptable(env: TimeEnv, chain: seq<Delegation>) {
    && chain != []
    && LinkedOk(chain) && DepthsOk(chain) && LimitsOk(chain) && UnitsOk(chain) && ScopesOk(chain)
    && FloorsOk(env, chain) && ExpiriesOk(env, chain)
  }

  // ----- the facets the verifier's property is made of

  lemma UnitStated(d: Delegation, unit: string)
    ensures StatesUnit(d, unit) <==> unit != "" && d.StatedUnit() == unit
  {
  }

  lemma WithinExactly(env: TimeEnv, text: string, ms: int)
    ensures Within(env, text, ms) <==> text != "" && env.parse(text).Some? && env.Millis(text) == ms
  {
  }

  lemma CountedDepthsOk(chain: seq<Delegation>)
    requires chain != [] && DepthsCount(chain, |chain|) && MaxDepthsNarrow(chain, |chain|)
    ensures DepthsOk(chain)
  {
    forall i | 0 <= i < |chain| ensures AtDepth(chain[i], chain[0].Depth() + i) {
      assert chain[i].Depth() == chain[0].Depth() + i;
    }
    assert DepthsFrom(chain, chain[0].Depth());
  }

  lemma OkDepthsCount(chain: seq<Delegation>)
    requires chain != [] && DepthsOk(chain)
    ensures DepthsCount(chain, |chain|)
  {
    var root :| root >= 0 && DepthsFrom(chain, root);
    forall i | 0 <= i < |chain| ensures chain[i].Depth() == root + i {
      assert AtDepth(chain[i], root + i);
    }
    forall i, j | 0 <= i < |chain| && 0 <= j < |chain| && chain[i].maxDepth.Some?
      ensures 0 <= chain[j].Depth() <= chain[i].maxDepth.value
    {
      assert AtDepth(chain[j], chain[j].Depth());
      assert chain[i].maxDepth == Some(chain[i].maxDepth.value);
    }
  }

  lemma OkDepthsNarrow(chain: seq<Delegation>)
    requires DepthsOk(chain)
    ensures MaxDepthsNarrow(chain, |chain|)
  {
    forall i, j | 0 <= i < j < |chain| && chain[i].maxDepth.Some? && chain[j].maxDepth.Some?
      ensures chain[j].maxDepth.value <= chain[i].maxDepth.value
    {
      assert chain[i].maxDepth == Some(chain[i].maxDepth.value) && chain[j].maxDepth == Some(chain[j].maxDepth.value);
    }
  }

  lemma DepthsExactly(chain: seq<Delegation>)
    requires chain != []
    ensures DepthsOk(chain) <==> DepthsCount(chain, |chain|) && MaxDepthsNarrow(chain, |chain|)
  {
    hide DepthsOk, DepthsCount, MaxDepthsNarrow;
    if DepthsOk(chain) {
      OkDepthsCount(chain);
      OkDepthsNarrow(chain);
    } else if DepthsCount(chain, |chain|) && MaxDepthsNarrow(chain, |chain|) {
      CountedDepthsOk(chain);
    }
  }

  lemma LimitsExactly(chain: seq<Delegation>)
    ensures LimitsOk(chain) <==> LimitsNarrow(chain, |chain|)
  {
    if LimitsOk(chain) {
      forall i | 0 <= i < |chain| && chain[i].spendLimit.Some? ensures chain[i].spendLimit == Some(Fin(chain[i].spendLimit.value.r)) {
        assert chain[i].spendLimit == Some(chain[i].spendLimit.value);
      }
    }
  }

  lemma UnitsExactly(chain: seq<Delegation>)
    ensures UnitsOk(chain) <==> UnitsAgree(chain, |chain|)
  {
    forall d, u ensures StatesUnit(d, u) <==> u != "" && d.StatedUnit() == u {
      UnitStated(d, u);
    }
    hide StatesUnit;
    if UnitsOk(chain) {
      forall i | 0 <= i < |chain| && chain[i].StatedUnit() != "" ensures StatesUnit(chain[i], chain[i].StatedUnit()) {
      }
    }
  }

  lemma FloorsExactly(env: TimeEnv, chain: seq<Delegation>)
    ensures FloorsOk(env, chain) <==> FloorsRise(env, chain, |chain|)
  {
    forall text, ms ensures Within(env, text, ms) <==> text != "" && env.parse(text).Some? && env.Millis(text) == ms {
      WithinExactly(env, text, ms);
    }
    hide Within;
    if FloorsOk(env, chain) {
      forall i | 0 <= i < |chain| && chain[i].notBefore != "" ensures Within(env, chain[i].notBefore, env.Millis(chain[i].notBefore)) {
      }
    }
    if FloorsRise(env, chain, |chain|) {
      forall i | 0 <= i < |chain| && chain[i].notBefore != "" ensures exists ms :: Within(env, chain[i].notBefore, ms) {
        assert Within(env, chain[i].notBefore, env.Millis(chain[i].notBefore));
      }
    }
  }

  lemma ExpiriesExactly(env: TimeEnv, chain: seq<Delegation>)
    ensures ExpiriesOk(env, chain) <==> ExpiriesShrink(env, chain, |chain|)
  {
    forall text, ms ensures Within(env, text, ms) <==> text != "" && env.parse(text).Some? && env.Millis(text) == ms {
      WithinExactly(env, text, ms);
    }
    hide Within;
    if ExpiriesOk(env, chain) {
      forall i | 0 <= i < |chain| && chain[i].expiresAt != "" && |chain| > 1
        ensures Within(env, chain[i].expiresAt, env.Millis(chain[i].expiresAt))
      {
      }
    }
    if ExpiriesShrink(env, chain, |chain|) {
      forall i | 0 <= i < |chain| && chain[i].expiresAt != "" && |chain| > 1 ensures exists ms :: Within(env, chain[i].expiresAt, ms) {
        assert Within(env, chain[i].expiresAt, env.Millis(chain[i].expiresAt));
      }
    }
  }

  // A chain passes exactly when it is acceptable.
  lemma VerdictMeans(env: TimeEnv, chain: seq<Delegation>)
    ensures Verdict(env, chain).None? <==> Acceptable(env, chain)
  {
    VerdictExact(env, chain);
    if chain != [] {
      DepthsExactly(chain);
      LimitsExactly(chain);
      UnitsExactly(chain);
      FloorsExactly(env, chain);
      ExpiriesExactly(env, chain);
      forall i | 0 < i < |chain| ensures ScopeNarrows(chain[i - 1].scope, chain[i].scope) <==> Extends(chain[i - 1].scope, chain[i].scope) {
        NarrowsExactly(chain[i - 1].scope, chain[i].scope);
      }
      hide Verdict, DepthsOk, LimitsOk, UnitsOk, FloorsOk, ExpiriesOk, Extends, ScopeNarrows;
      hide DepthsCount, MaxDepthsNarrow, LimitsNarrow, UnitsAgree, FloorsRise, ExpiriesShrink;
    }
  }
}

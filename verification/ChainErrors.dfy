// The verdict on a refused chain names a violation that is there, at the first
// link with which the chain stops being acceptable.
module ChainErrors {
  import opened Prelude
  import opened Delegations
  import opened Scopes
  import opened ScopeSegments
  import opened ChainVerifier
  import opened ChainSpec
  import opened ChainReference

  ghost predicate Unreadable(env: TimeEnv, text: string) {
    text != "" && env.parse(text).None?
  }

  // What each verdict on link `n` says, in terms of the recorded fields.
  ghost predicate Violates(env: TimeEnv, chain: seq<Delegation>, n: nat, e: ChainError)
    requires n < |chain|
  {
    var d := chain[n];
    match e
    case ChainEmpty => false
    case SpendUnitChange => exists i, u, w :: 0 <= i < n && StatesUnit(chain[i], u) && StatesUnit(d, w) && u != w
    case LimitNotFinite => d.spendLimit.Some? && !d.spendLimit.value.Fin?
    case LimitWidening => exists i :: 0 <= i < n && RaisesLimit(chain[i], d)
    case DepthLimitWidening => exists i :: 0 <= i < n && RaisesMaxDepth(chain[i], d)
    case NotBeforeUnparseable => Unreadable(env, d.notBefore)
    case ActivationWidening => exists i, a, b :: 0 <= i < n && Within(env, chain[i].notBefore, a) && Within(env, d.notBefore, b) && b < a
    case CurrentDepthBelowZero => d.currentDepth.Some? && d.currentDepth.value < 0
    case MaxDepthBelowZero => d.maxDepth.Some? && d.maxDepth.value < 0
    case DepthLimitExceeded => exists i, k :: 0 <= i <= n && AtDepth(d, k) && chain[i].maxDepth.Some? && chain[i].maxDepth.value < k
    case LinkageBroken => n > 0 && d.delegatedBy != chain[n - 1].delegatedTo
    case DepthNotMonotonic => n > 0 && NotNext(chain[n - 1], d)
    case ScopeWidening => n > 0 && !Extends(chain[n - 1].scope, d.scope)
    case ParentExpiryUnparseable => n > 0 && Unreadable(env, chain[n - 1].expiresAt)
    case ChildExpiryUnparseable => n > 0 && Unreadable(env, d.expiresAt)
    case ExpiryDropped => n > 0 && chain[n - 1].expiresAt != "" && d.expiresAt == ""
    case ExpiryExtended => n > 0 && Outlives(env, chain[n - 1], d)
  }

  ghost predicate RaisesLimit(c: Delegation, d: Delegation) {
    && c.spendLimit.Some? && d.spendLimit.Some? && c.spendLimit.value.Fin? && d.spendLimit.value.Fin?
    && d.spendLimit.value.r > c.spendLimit.value.r
  }

  ghost predicate RaisesMaxDepth(c: Delegation, d: Delegation) {
    c.maxDepth.Some? && d.maxDepth.Some? && d.maxDepth.value > c.maxDepth.value
  }

  ghost predicate NotNext(c: Delegation, d: Delegation) {
    exists p, q :: AtDepth(c, p) && AtDepth(d, q) && q != p + 1
  }

  ghost predicate Outlives(env: TimeEnv, c: Delegation, d: Delegation) {
    exists a, b :: Within(env, c.expiresAt, a) && Within(env, d.expiresAt, b) && a < b
  }

  // ----- facet by facet

  lemma UnitError(env: TimeEnv, b: Bound, chain: seq<Delegation>, n: nat)
    requires n < |chain| && Remembered(env, b, chain, n) && NarrowUnit(b, chain[n]).Err?
    ensures Violates(env, chain, n, NarrowUnit(b, chain[n]).error)
  {
    var i :| 0 <= i < n && chain[i].StatedUnit() == b.spendUnit;
    UnitStated(chain[i], b.spendUnit);
    UnitStated(chain[n], chain[n].StatedUnit());
  }

  lemma LimitError(env: TimeEnv, b: Bound, chain: seq<Delegation>, n: nat)
    requires n < |chain| && Remembered(env, b, chain, n) && NarrowLimit(b, chain[n]).Err?
    ensures Violates(env, chain, n, NarrowLimit(b, chain[n]).error)
  {
    var limit := chain[n].spendLimit.value;
    if limit.Fin? {
      var i :| 0 <= i < n && chain[i].spendLimit == b.spendLimit;
      assert RaisesLimit(chain[i], chain[n]);
    }
  }

  lemma MaxDepthError(env: TimeEnv, b: Bound, chain: seq<Delegation>, n: nat)
    requires n < |chain| && Remembered(env, b, chain, n) && NarrowMaxDepth(b, chain[n]).Err?
    ensures Violates(env, chain, n, NarrowMaxDepth(b, chain[n]).error)
  {
    var i :| 0 <= i < n && chain[i].maxDepth == b.maxDepth;
    assert RaisesMaxDepth(chain[i], chain[n]);
  }

  lemma FloorError(env: TimeEnv, b: Bound, chain: seq<Delegation>, n: nat)
    requires n < |chain| && Remembered(env, b, chain, n) && NarrowFloor(env, b, chain[n]).Err?
    requires FloorsRise(env, chain, n)
    ensures Violates(env, chain, n, NarrowFloor(env, b, chain[n]).error)
  {
    if env.ParseMillis(chain[n].notBefore).Some? {
      var i :| 0 <= i < n && chain[i].notBefore == b.notBefore;
      WithinExactly(env, chain[i].notBefore, b.notBeforeMs);
      WithinExactly(env, chain[n].notBefore, env.Millis(chain[n].notBefore));
    }
  }

  lemma BoundError(env: TimeEnv, b: Bound, chain: seq<Delegation>, n: nat)
    requires n < |chain| && Remembered(env, b, chain, n) && FloorsRise(env, chain, n) && NarrowStep(env, b, chain[n]).Err?
    ensures Violates(env, chain, n, NarrowStep(env, b, chain[n]).error)
  {
    hide Violates, FloorsRise, Remembered;
    var d := chain[n];
    var b1 := NarrowUnit(b, d);
    if b1.Err? {
      UnitError(env, b, chain, n);
    } else if NarrowLimit(b, d).Err? {
      assert NarrowLimit(b1.value, d) == NarrowLimit(b, d);
      LimitError(env, b, chain, n);
    } else if NarrowMaxDepth(b, d).Err? {
      MaxDepthError(env, b, chain, n);
    } else {
      FloorError(env, b, chain, n);
    }
  }

  lemma DepthError(env: TimeEnv, b: Bound, chain: seq<Delegation>, n: nat)
    requires n < |chain| && MaxDepthRemembered(b.maxDepth, chain, n + 1) && DepthViolation(b, chain[n]).Some?
    ensures Violates(env, chain, n, DepthViolation(b, chain[n]).value)
  {
    if DepthFloor(chain[n]).None? {
      var i :| 0 <= i < n + 1 && chain[i].maxDepth == b.maxDepth;
      assert AtDepth(chain[n], chain[n].Depth());
    }
  }

  lemma ExpiryError(env: TimeEnv, chain: seq<Delegation>, n: nat)
    requires 0 < n < |chain| && ExpiryViolation(env, chain[n - 1], chain[n]).Some?
    ensures Violates(env, chain, n, ExpiryViolation(env, chain[n - 1], chain[n]).value)
  {
    var p, d := chain[n - 1], chain[n];
    WithinExactly(env, p.expiresAt, env.Millis(p.expiresAt));
    WithinExactly(env, d.expiresAt, env.Millis(d.expiresAt));
  }

  lemma RootError(env: TimeEnv, chain: seq<Delegation>)
    requires chain != [] && RootStep(env, chain[0]).Err?
    ensures Violates(env, chain, 0, RootStep(env, chain[0]).error)
  {
    NothingYet(env, chain);
    hide Violates, NarrowStep, DepthViolation;
    var b := NarrowStep(env, UNBOUNDED, chain[0]);
    if b.Err? {
      BoundError(env, UNBOUNDED, chain, 0);
    } else {
      BoundsStep(env, UNBOUNDED, chain, 0);
      DepthError(env, b.value, chain, 0);
    }
  }

  lemma LinkError(env: TimeEnv, chain: seq<Delegation>, n: nat)
    requires 0 < n < |chain|
    ensures chain[n].delegatedBy != chain[n - 1].delegatedTo ==> Violates(env, chain, n, LinkageBroken)
    ensures chain[n].Depth() != chain[n - 1].Depth() + 1 ==> Violates(env, chain, n, DepthNotMonotonic)
    ensures !ScopeNarrows(chain[n - 1].scope, chain[n].scope) ==> Violates(env, chain, n, ScopeWidening)
  {
    assert AtDepth(chain[n - 1], chain[n - 1].Depth()) && AtDepth(chain[n], chain[n].Depth());
    NarrowsExactly(chain[n - 1].scope, chain[n].scope);
  }

  lemma HopError(env: TimeEnv, b: Bound, chain: seq<Delegation>, n: nat)
    requires 0 < n < |chain| && NarrowingTo(env, chain, n) && Remembered(env, b, chain, n)
    requires HopStep(env, b, chain[n - 1], chain[n]).Err?
    ensures Violates(env, chain, n, HopStep(env, b, chain[n - 1], chain[n]).error)
  {
    hide Violates, NarrowStep, DepthViolation, ExpiryViolation, ScopeNarrows;
    LinkError(env, chain, n);
    var b' := NarrowStep(env, b, chain[n]);
    if b'.Err? {
      BoundError(env, b, chain, n);
    } else {
      BoundsStep(env, b, chain, n);
      if DepthViolation(b'.value, chain[n]).Some? {
        DepthError(env, b'.value, chain, n);
      }
      if ExpiryViolation(env, chain[n - 1], chain[n]).Some? {
        ExpiryError(env, chain, n);
      }
    }
  }

  lemma {:induction false} FirstRefused(env: TimeEnv, chain: seq<Delegation>, k: nat) returns (n: nat)
    requires 1 <= k <= |chain| && Walk(env, chain, k).Err?
    ensures n < k && Violates(env, chain, n, Walk(env, chain, k).error)
    ensures (n > 0 ==> Walk(env, chain, n).Ok?) && Walk(env, chain, n + 1).Err?
  {
    hide Violates, HopStep, RootStep;
    if k == 1 {
      n := 0;
      RootError(env, chain);
    } else if Walk(env, chain, k - 1).Err? {
      n := FirstRefused(env, chain, k - 1);
    } else {
      n := k - 1;
      WalkExact(env, chain, k - 1);
      HopError(env, Walk(env, chain, k - 1).value, chain, k - 1);
    }
  }

  // Link `n` is the first with which the chain is not acceptable.
  ghost predicate FirstBad(env: TimeEnv, chain: seq<Delegation>, n: nat)
    requires n < |chain|
  {
    (n > 0 ==> Acceptable(env, chain[..n])) && !Acceptable(env, chain[..n + 1])
  }

  // A refused chain is empty, or has a first link its acceptable predecessors
  // do not admit, and the verdict says what is wrong with it.
  lemma VerdictTruthful(env: TimeEnv, chain: seq<Delegation>)
    ensures Verdict(env, chain) == Some(ChainEmpty) <==> chain == []
    ensures chain != [] && Verdict(env, chain).Some? ==>
      exists n: nat :: n < |chain| && FirstBad(env, chain, n) && Violates(env, chain, n, Verdict(env, chain).value)
  {
    hide Violates, Acceptable, Walk;
    if chain != [] && Verdict(env, chain).Some? {
      var n := FirstRefused(env, chain, |chain|);
      if n > 0 {
        WalkOfPrefix(env, chain, n, n);
        VerdictMeans(env, chain[..n]);
      }
      WalkOfPrefix(env, chain, n + 1, n + 1);
      VerdictMeans(env, chain[..n + 1]);
      NeverCalledEmpty(env, chain, n, Verdict(env, chain).value);
    }
  }

  lemma NeverCalledEmpty(env: TimeEnv, chain: seq<Delegation>, n: nat, e: ChainError)
    requires n < |chain| && Violates(env, chain, n, e)
    ensures e != ChainEmpty
  {
  }
}

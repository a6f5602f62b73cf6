// VerifyDelegationChain of verify/verify.go: one mutable ceiling folded from
// root to leaf, and the first violation it meets.
module ChainVerifier {
  import opened Prelude
  import opened Delegations
  import opened Scopes

  datatype ChainError =
    | ChainEmpty
    | SpendUnitChange
    | LimitNotFinite
    | LimitWidening
    | DepthLimitWidening
    | NotBeforeUnparseable
    | ActivationWidening
    | CurrentDepthBelowZero
    | MaxDepthBelowZero
    | DepthLimitExceeded
    | LinkageBroken
    | DepthNotMonotonic
    | ScopeWidening
    | ParentExpiryUnparseable
    | ChildExpiryUnparseable
    | ExpiryDropped
    | ExpiryExtended

  // A snapshot of the ceiling.
  datatype Bound = Bound(
    spendLimit: Option<Float>,
    spendUnit: string,
    maxDepth: Option<int>,
    notBefore: string,
    notBeforeMs: int
  )

  const UNBOUNDED := Bound(None, "", None, "", 0)

  type Narrowed = Result<Bound, ChainError>

  // One facet at a time, in the order the verifier reads them.

  function NarrowUnit(b: Bound, d: Delegation): Narrowed {
    var stated := d.StatedUnit();
    if b.spendUnit == "" then Ok(b.(spendUnit := stated))
    else if stated != "" && stated != b.spendUnit then Err(SpendUnitChange)
    else Ok(b)
  }

  function NarrowLimit(b: Bound, d: Delegation): Narrowed {
    match d.spendLimit
    case None => Ok(b)
    case Some(limit) =>
      if !limit.Finite() then Err(LimitNotFinite)
      else if b.spendLimit.Some? && limit.Greater(b.spendLimit.value) then Err(LimitWidening)
      else if b.spendLimit.None? || b.spendLimit.value.Greater(limit) then Ok(b.(spendLimit := Some(limit)))
      else Ok(b)
  }

  function NarrowMaxDepth(b: Bound, d: Delegation): Narrowed {
    match d.maxDepth
    case None => Ok(b)
    case Some(m) =>
      if b.maxDepth.Some? && m > b.maxDepth.value then Err(DepthLimitWidening)
      else if b.maxDepth.None? || m < b.maxDepth.value then Ok(b.(maxDepth := Some(m)))
      else Ok(b)
  }

  function NarrowFloor(env: TimeEnv, b: Bound, d: Delegation): Narrowed {
    if d.notBefore == "" then Ok(b)
    else match env.ParseMillis(d.notBefore)
      case None => Err(NotBeforeUnparseable)
      case Some(ms) =>
        if b.notBefore != "" && ms < b.notBeforeMs then Err(ActivationWidening)
        else Ok(b.(notBefore := d.notBefore, notBeforeMs := ms))
  }

  function NarrowStep(env: TimeEnv, b: Bound, d: Delegation): Narrowed {
    match NarrowUnit(b, d) case Err(e) => Err(e) case Ok(b1) =>
    match NarrowLimit(b1, d) case Err(e) => Err(e) case Ok(b2) =>
    match NarrowMaxDepth(b2, d) case Err(e) => Err(e) case Ok(b3) =>
    NarrowFloor(env, b3, d)
  }

  class EffectiveBound {
    var spendLimit: Option<Float>
    var spendUnit: string
    var maxDepth: Option<int>
    var notBefore: string
    var notBeforeMs: int

    ghost function View(): Bound
      reads this
    {
      Bound(spendLimit, spendUnit, maxDepth, notBefore, notBeforeMs)
    }

    constructor ()
      ensures View() == UNBOUNDED
    {
      spendLimit, spendUnit, maxDepth, notBefore, notBeforeMs := None, "", None, "", 0;
    }

    method Narrow(env: TimeEnv, d: Delegation) returns (err: Option<ChainError>)
      modifies this
      // a refused link leaves the ceiling in a state no caller reads again
      ensures NarrowStep(env, old(View()), d) == if err.Some? then Err(err.value) else Ok(View())
    {
      ghost var b := View();
      var stated := d.StatedUnit();
      if spendUnit != "" {
        if stated != "" && stated != spendUnit {
          return Some(SpendUnitChange);
        }
      } else if stated != "" {
        spendUnit := stated;
      }
      assert NarrowUnit(b, d) == Ok(View());
      b := View();
      if d.spendLimit.Some? && !d.spendLimit.value.Finite() {
        return Some(LimitNotFinite);
      }
      if d.spendLimit.Some? {
        if spendLimit.Some? && d.spendLimit.value.Greater(spendLimit.value) {
          return Some(LimitWidening);
        }
        if spendLimit.None? || spendLimit.value.Greater(d.spendLimit.value) {
          spendLimit := d.spendLimit;
        }
      }
      assert NarrowLimit(b, d) == Ok(View());
      b := View();
      if d.maxDepth.Some? {
        if maxDepth.Some? && d.maxDepth.value > maxDepth.value {
          return Some(DepthLimitWidening);
        }
        if maxDepth.None? || d.maxDepth.value < maxDepth.value {
          maxDepth := d.maxDepth;
        }
      }
      assert NarrowMaxDepth(b, d) == Ok(View());
      if d.notBefore != "" {
        var ms := env.ParseMillis(d.notBefore);
        if ms.None? {
          return Some(NotBeforeUnparseable);
        }
        if notBefore != "" && ms.value < notBeforeMs {
          return Some(ActivationWidening);
        }
        notBefore, notBeforeMs := d.notBefore, ms.value;
      }
      return None;
    }
  }

  function DepthFloor(d: Delegation): Option<ChainError> {
    if d.currentDepth.Some? && d.currentDepth.value < 0 then Some(CurrentDepthBelowZero)
    else if d.maxDepth.Some? && d.maxDepth.value < 0 then Some(MaxDepthBelowZero)
    else None
  }

  predicate WithinCeiling(b: Bound, d: Delegation) {
    b.maxDepth.Some? ==> d.Depth() <= b.maxDepth.value
  }

  function ExpiryViolation(env: TimeEnv, parent: Delegation, child: Delegation): Option<ChainError> {
    if parent.expiresAt != "" && env.ParseMillis(parent.expiresAt).None? then Some(ParentExpiryUnparseable)
    else if child.expiresAt != "" && env.ParseMillis(child.expiresAt).None? then Some(ChildExpiryUnparseable)
    else if parent.expiresAt == "" then None
    else if child.expiresAt == "" then Some(ExpiryDropped)
    else if env.ParseMillis(child.expiresAt).value > env.ParseMillis(parent.expiresAt).value then Some(ExpiryExtended)
    else None
  }

  // The depth rules a link answers to once its own bounds are folded in.
  function DepthViolation(b: Bound, d: Delegation): Option<ChainError> {
    if DepthFloor(d).Some? then DepthFloor(d)
    else if WithinCeiling(b, d) then None
    else Some(DepthLimitExceeded)
  }

  function RootStep(env: TimeEnv, root: Delegation): Narrowed {
    match NarrowStep(env, UNBOUNDED, root) case Err(e) => Err(e) case Ok(b) =>
    match DepthViolation(b, root) case Some(e) => Err(e) case None => Ok(b)
  }

  function HopStep(env: TimeEnv, b: Bound, parent: Delegation, child: Delegation): Narrowed {
    if child.delegatedBy != parent.delegatedTo then Err(LinkageBroken) else
    match NarrowStep(env, b, child) case Err(e) => Err(e) case Ok(b') =>
    if child.Depth() != parent.Depth() + 1 then Err(DepthNotMonotonic) else
    match DepthViolation(b', child) case Some(e) => Err(e) case None =>
    if !ScopeNarrows(parent.scope, child.scope) then Err(ScopeWidening) else
    match ExpiryViolation(env, parent, child) case Some(e) => Err(e) case None => Ok(b')
  }

  // The ceiling after the first `n` links, or the first violation among them.
  function Walk(env: TimeEnv, chain: seq<Delegation>, n: nat): Narrowed
    requires 1 <= n <= |chain|
  {
    if n == 1 then RootStep(env, chain[0]) else
    match Walk(env, chain, n - 1) case Err(e) => Err(e) case Ok(b) =>
    HopStep(env, b, chain[n - 2], chain[n - 1])
  }

  function Verdict(env: TimeEnv, chain: seq<Delegation>): Option<ChainError> {
    if |chain| == 0 then Some(ChainEmpty) else
    match Walk(env, chain, |chain|) case Err(e) => Some(e) case Ok(_) => None
  }

  // A violation met after `k` links is the verdict on every longer prefix.
  lemma {:induction false} FirstViolationStands(env: TimeEnv, chain: seq<Delegation>, k: nat, n: nat)
    requires 1 <= k <= n <= |chain|
    requires Walk(env, chain, k).Err?
    ensures Walk(env, chain, n) == Walk(env, chain, k)
  {
    if k < n {
      FirstViolationStands(env, chain, k, n - 1);
    }
  }

  // The walk looks at nothing beyond the links it has reached.
  lemma {:induction false} WalkOfPrefix(env: TimeEnv, chain: seq<Delegation>, k: nat, n: nat)
    requires 1 <= n <= k <= |chain|
    ensures Walk(env, chain[..k], n) == Walk(env, chain, n)
  {
    if n > 1 {
      WalkOfPrefix(env, chain, k, n - 1);
    }
  }

  method VerifyDelegationChain(env: TimeEnv, chain: seq<Delegation>) returns (err: Option<ChainError>)
    ensures err == Verdict(env, chain)
  {
    hide NarrowStep, HopStep;
    if |chain| == 0 {
      return Some(ChainEmpty);
    }
    var bound := new EffectiveBound();
    err := bound.Narrow(env, chain[0]);
    if err.None? {
      err := DepthFloor(chain[0]);
    }
    if err.None? && bound.maxDepth.Some? && chain[0].Depth() > bound.maxDepth.value {
      err := Some(DepthLimitExceeded);
    }
    if err.Some? {
      FirstViolationStands(env, chain, 1, |chain|);
      return;
    }
    for i := 1 to |chain|
      invariant Walk(env, chain, i) == Ok(bound.View())
    {
      err := VerifyHop(env, bound, chain[i - 1], chain[i]);
      if err.Some? {
        FirstViolationStands(env, chain, i + 1, |chain|);
        return;
      }
    }
    return None;
  }

  // The body of the verifier's loop.
  method VerifyHop(env: TimeEnv, bound: EffectiveBound, parent: Delegation, child: Delegation)
    returns (err: Option<ChainError>)
    modifies bound
    ensures HopStep(env, old(bound.View()), parent, child) == if err.Some? then Err(err.value) else Ok(bound.View())
  {
    if child.delegatedBy != parent.delegatedTo {
      return Some(LinkageBroken);
    }
    err := bound.Narrow(env, child);
    if err.Some? {
      return;
    }
    var parentDepth := 0;
    if parent.currentDepth.Some? {
      parentDepth := parent.currentDepth.value;
    }
    var childDepth := 0;
    if child.currentDepth.Some? {
      childDepth := child.currentDepth.value;
    }
    if childDepth != parentDepth + 1 {
      return Some(DepthNotMonotonic);
    }
    err := DepthFloor(child);
    if err.Some? {
      return;
    }
    if bound.maxDepth.Some? && childDepth > bound.maxDepth.value {
      return Some(DepthLimitExceeded);
    }
    var covered := CoversAll(parent.scope, child.scope);
    if !covered {
      return Some(ScopeWidening);
    }
    var pe, ce: Option<int> := None, None;
    if parent.expiresAt != "" {
      pe := env.ParseMillis(parent.expiresAt);
      if pe.None? {
        return Some(ParentExpiryUnparseable);
      }
    }
    if child.expiresAt != "" {
      ce := env.ParseMillis(child.expiresAt);
      if ce.None? {
        return Some(ChildExpiryUnparseable);
      }
    }
    if pe.Some? {
      if ce.None? {
        return Some(ExpiryDropped);
      }
      if ce.value > pe.value {
        return Some(ExpiryExtended);
      }
    }
    return None;
  }
}

// CreateDelegation, SubDelegate and VerifyDelegationAt of
// delegation/delegation.go.
module Minter {
  import opened Prelude
  import opened Delegations
  import opened Scopes

  // Canonical bytes of an unsigned delegation, and the signature scheme over
  // them. None is an error of the canonicalizer or of the key.
  datatype Signing = Signing(
    canon: Delegation -> Option<string>,
    sign: (string, string) -> Option<string>,
    verify: (string, string, string) -> bool
  ) {
    // The signature field is not part of the signed bytes, and a non-finite
    // number has no canonical form.
    function SignedBytes(d: Delegation): Option<string> {
      if d.spendLimit.Some? && !d.spendLimit.value.Finite() then None
      else canon(d.(signature := ""))
    }

    function SignArtifact(d: Delegation, privateKey: string): Option<string> {
      match SignedBytes(d)
      case None => None
      case Some(bytes) => sign(bytes, privateKey)
    }

    predicate VerifySignature(d: Delegation) {
      && d.signature != ""
      && SignedBytes(d).Some?
      && verify(SignedBytes(d).value, d.signature, d.delegatedBy)
    }

    // A signature made with a private key verifies under its public key.
    ghost predicate SignsFor(privateKey: string, publicKey: string) {
      forall m :: sign(m, privateKey).Some? ==>
        sign(m, privateKey).value != "" && verify(m, sign(m, privateKey).value, publicKey)
    }
  }

  datatype ValidityError = InvalidSignature | InvalidExpiry | Expired | InvalidNotBefore | NotYetValid | DepthExceeded

  function VerifyDelegationAt(env: TimeEnv, sg: Signing, d: Delegation, now: int): Option<ValidityError> {
    if !sg.VerifySignature(d) then Some(InvalidSignature)
    else match env.ParseTimestamp(d.expiresAt)
      case None => Some(InvalidExpiry)
      case Some(expiry) =>
        if expiry < now then Some(Expired)
        else if d.notBefore != "" && env.ParseTimestamp(d.notBefore).None? then Some(InvalidNotBefore)
        else if d.notBefore != "" && env.ParseTimestamp(d.notBefore).value > now then Some(NotYetValid)
        else if d.maxDepth.Some? && d.currentDepth.Some? && d.currentDepth.value > d.maxDepth.value then Some(DepthExceeded)
        else None
  }

  datatype MintError =
    | PartyMissing
    | CurrentDepthNegative
    | MaxDepthNegative
    | DepthAboveMax
    | SigningFailed
    | NowInvalid
    | InvalidParent(reason: ValidityError)
    | ParentDepthNegative
    | DepthLimit
    | ScopeViolation
    | UnitChange
    | LimitExceedsParent
    | ParentExpiryInvalid
    | ExpiryInvalid
    | ParentNotBeforeInvalid
    | NotBeforeInvalid

  datatype CreateOptions = CreateOptions(
    privateKey: string,
    delegationId: string,
    delegatedBy: string,
    delegatedTo: string,
    scope: seq<string>,
    spendLimit: Option<Float>,
    spendLimitUnit: string,
    maxDepth: int,
    currentDepth: int,
    expiresAt: string,
    notBefore: string,
    createdAt: string
  )

  function Signed(sg: Signing, d: Delegation, privateKey: string): Result<Delegation, MintError> {
    match sg.SignArtifact(d, privateKey)
    case None => Err(SigningFailed)
    case Some(sig) => Ok(d.(signature := sig))
  }

  function CreateDelegation(sg: Signing, o: CreateOptions): Result<Delegation, MintError> {
    if o.delegatedBy == "" || o.delegatedTo == "" then Err(PartyMissing)
    else if o.currentDepth < 0 then Err(CurrentDepthNegative)
    else if o.maxDepth < 0 then Err(MaxDepthNegative)
    else if o.currentDepth > o.maxDepth then Err(DepthAboveMax)
    else Signed(sg,
      Delegation(o.delegationId, o.delegatedBy, o.delegatedTo, o.scope, o.spendLimit, o.spendLimitUnit,
                 Some(o.maxDepth), Some(o.currentDepth), o.expiresAt, o.notBefore, o.createdAt, ""),
      o.privateKey)
  }

  datatype SubDelegateOptions = SubDelegateOptions(
    parent: Delegation,
    privateKey: string,
    delegationId: string,
    delegatedTo: string,
    scope: seq<string>,
    spendLimit: Option<Float>,
    spendLimitUnit: string,
    expiresAt: string,
    notBefore: string,
    createdAt: string,
    now: string
  )

  // The unit the child carries: the requested one, or else the parent's.
  function ResolveUnit(o: SubDelegateOptions): Result<string, MintError> {
    var parentUnit := o.parent.StatedUnit();
    var unit := if o.spendLimitUnit == "" then parentUnit else o.spendLimitUnit;
    if parentUnit != "" && unit != parentUnit then Err(UnitChange) else Ok(unit)
  }

  predicate SharesParentBudget(o: SubDelegateOptions, unit: string) {
    o.parent.StatedUnit() != "" && unit == o.parent.StatedUnit() && o.parent.spendLimit.Some?
  }

  function ResolveLimit(o: SubDelegateOptions, unit: string): Result<Option<Float>, MintError> {
    if !SharesParentBudget(o, unit) then Ok(o.spendLimit)
    else if o.spendLimit.None? then Ok(o.parent.spendLimit)
    else if o.spendLimit.value.Greater(o.parent.spendLimit.value) then Err(LimitExceedsParent)
    else Ok(o.spendLimit)
  }

  // The earlier of the requested and the inherited expiry.
  function ResolveExpiry(env: TimeEnv, o: SubDelegateOptions): Result<string, MintError> {
    if o.parent.expiresAt != "" then
      match env.ParseTimestamp(o.parent.expiresAt)
      case None => Err(ParentExpiryInvalid)
      case Some(pe) =>
        if o.expiresAt == "" then Ok(o.parent.expiresAt)
        else match env.ParseTimestamp(o.expiresAt)
          case None => Err(ExpiryInvalid)
          case Some(ce) => Ok(if ce > pe then o.parent.expiresAt else o.expiresAt)
    else if o.expiresAt != "" && env.ParseTimestamp(o.expiresAt).None? then Err(ExpiryInvalid)
    else Ok(o.expiresAt)
  }

  // The later of the requested and the inherited activation floor.
  function ResolveNotBefore(env: TimeEnv, o: SubDelegateOptions): Result<string, MintError> {
    if o.parent.notBefore != "" then
      match env.ParseTimestamp(o.parent.notBefore)
      case None => Err(ParentNotBeforeInvalid)
      case Some(pn) =>
        if o.notBefore == "" then Ok(o.parent.notBefore)
        else match env.ParseTimestamp(o.notBefore)
          case None => Err(NotBeforeInvalid)
          case Some(cn) => Ok(if cn < pn then o.parent.notBefore else o.notBefore)
    else if o.notBefore != "" && env.ParseTimestamp(o.notBefore).None? then Err(NotBeforeInvalid)
    else Ok(o.notBefore)
  }

  function EvaluationTime(env: TimeEnv, o: SubDelegateOptions): Option<int> {
    if o.now == "" then Some(env.clock) else env.ParseTimestamp(o.now)
  }

  // Why the parent cannot mint this child, before any bound is resolved.
  function ParentRefusal(env: TimeEnv, sg: Signing, o: SubDelegateOptions): Option<MintError> {
    match EvaluationTime(env, o)
    case None => Some(NowInvalid)
    case Some(now) =>
      match VerifyDelegationAt(env, sg, o.parent, now)
      case Some(reason) => Some(InvalidParent(reason))
      case None =>
        if o.parent.Depth() < 0 then Some(ParentDepthNegative)
        else if o.parent.maxDepth.Some? && o.parent.Depth() + 1 > o.parent.maxDepth.value then Some(DepthLimit)
        else if !ScopeNarrows(o.parent.scope, o.scope) then Some(ScopeViolation)
        else None
  }

  // The child before it is signed.
  function Unsigned(env: TimeEnv, sg: Signing, o: SubDelegateOptions): Result<Delegation, MintError> {
    match ParentRefusal(env, sg, o) case Some(e) => Err(e) case None =>
    match ResolveUnit(o) case Err(e) => Err(e) case Ok(unit) =>
    match ResolveLimit(o, unit) case Err(e) => Err(e) case Ok(limit) =>
    match ResolveExpiry(env, o) case Err(e) => Err(e) case Ok(expiresAt) =>
    match ResolveNotBefore(env, o) case Err(e) => Err(e) case Ok(notBefore) =>
    Ok(Delegation(o.delegationId, o.parent.delegatedTo, o.delegatedTo, o.scope, limit, unit,
                  o.parent.maxDepth, Some(o.parent.Depth() + 1), expiresAt, notBefore, o.createdAt, ""))
  }

  function Mint(env: TimeEnv, sg: Signing, o: SubDelegateOptions): Result<Delegation, MintError> {
    match Unsigned(env, sg, o) case Err(e) => Err(e) case Ok(d) => Signed(sg, d, o.privateKey)
  }

  method SubDelegate(env: TimeEnv, sg: Signing, o: SubDelegateOptions) returns (r: Result<Delegation, MintError>)
    ensures r == Mint(env, sg, o)
  {
    hide Unreadable, NoLater;
    var parent := o.parent;
    var now := env.clock;
    if o.now != "" {
      var t := env.ParseTimestamp(o.now);
      if t.None? {
        return Err(NowInvalid);
      }
      now := t.value;
    }
    var refusal := VerifyDelegationAt(env, sg, parent, now);
    if refusal.Some? {
      return Err(InvalidParent(refusal.value));
    }
    var parentDepth := 0;
    if parent.currentDepth.Some? {
      parentDepth := parent.currentDepth.value;
    }
    if parentDepth < 0 {
      return Err(ParentDepthNegative);
    }
    var newDepth := parentDepth + 1;
    if parent.maxDepth.Some? && newDepth > parent.maxDepth.value {
      return Err(DepthLimit);
    }
    var covered := CoversAll(parent.scope, o.scope);
    if !covered {
      return Err(ScopeViolation);
    }
    assert ParentRefusal(env, sg, o).None?;

    var parentUnit := parent.StatedUnit();
    var childUnit := o.spendLimitUnit;
    if childUnit == "" {
      childUnit := parentUnit;
    }
    if parentUnit != "" && childUnit != parentUnit {
      return Err(UnitChange);
    }
    var sharesParentBudget := parentUnit != "" && childUnit == parentUnit && parent.spendLimit.Some?;
    if sharesParentBudget && o.spendLimit.Some? && o.spendLimit.value.Greater(parent.spendLimit.value) {
      return Err(LimitExceedsParent);
    }
    var childLimit := o.spendLimit;
    if childLimit.None? && sharesParentBudget {
      childLimit := parent.spendLimit;
    }
    assert ResolveUnit(o) == Ok(childUnit) && ResolveLimit(o, childUnit) == Ok(childLimit);

    var childExpiresAt := NarrowExpiry(env, o);
    if childExpiresAt.Err? {
      return Err(childExpiresAt.error);
    }
    var childNotBefore := NarrowNotBefore(env, o);
    if childNotBefore.Err? {
      return Err(childNotBefore.error);
    }

    var childMaxDepth := None;
    if parent.maxDepth.Some? {
      childMaxDepth := parent.maxDepth;
    }
    var child := Delegation(o.delegationId, parent.delegatedTo, o.delegatedTo, o.scope, childLimit, childUnit,
                            childMaxDepth, Some(newDepth), childExpiresAt.value, childNotBefore.value, o.createdAt, "");
    var sig := sg.SignArtifact(child, o.privateKey);
    if sig.None? {
      return Err(SigningFailed);
    }
    return Ok(child.(signature := sig.value));
  }

  // The minter's temporal steps.

  predicate Unreadable(env: TimeEnv, ts: string) {
    ts != "" && env.ParseTimestamp(ts).None?
  }

  predicate NoLater(env: TimeEnv, a: string, b: string) {
    && env.ParseTimestamp(a).Some? && env.ParseTimestamp(b).Some?
    && env.ParseTimestamp(a).value <= env.ParseTimestamp(b).value
  }

  method NarrowExpiry(env: TimeEnv, o: SubDelegateOptions) returns (r: Result<string, MintError>)
    ensures r == ResolveExpiry(env, o)
    // the earlier of the two instants stated, and one of the two texts
    ensures r.Ok? ==> r.value in {o.expiresAt, o.parent.expiresAt}
    ensures r.Ok? && r.value == "" ==> o.expiresAt == "" && o.parent.expiresAt == ""
    ensures r.Ok? && r.value != "" ==> env.ParseTimestamp(r.value).Some?
    ensures r.Ok? && o.parent.expiresAt != "" ==> NoLater(env, r.value, o.parent.expiresAt)
    ensures r.Ok? && o.expiresAt != "" ==> NoLater(env, r.value, o.expiresAt)
    // refused exactly when a stated one cannot be read
    ensures r.Err? <==> Unreadable(env, o.parent.expiresAt) || Unreadable(env, o.expiresAt)
  {
    var childExpiresAt := o.expiresAt;
    if o.parent.expiresAt != "" {
      var pe := env.ParseTimestamp(o.parent.expiresAt);
      if pe.None? {
        return Err(ParentExpiryInvalid);
      }
      if childExpiresAt == "" {
        childExpiresAt := o.parent.expiresAt;
      } else {
        var ce := env.ParseTimestamp(childExpiresAt);
        if ce.None? {
          return Err(ExpiryInvalid);
        }
        if ce.value > pe.value {
          childExpiresAt := o.parent.expiresAt;
        }
      }
    } else if childExpiresAt != "" {
      if env.ParseTimestamp(childExpiresAt).None? {
        return Err(ExpiryInvalid);
      }
    }
    return Ok(childExpiresAt);
  }

  method NarrowNotBefore(env: TimeEnv, o: SubDelegateOptions) returns (r: Result<string, MintError>)
    ensures r == ResolveNotBefore(env, o)
    // the later of the two instants stated, and one of the two texts
    ensures r.Ok? ==> r.value in {o.notBefore, o.parent.notBefore}
    ensures r.Ok? && r.value == "" ==> o.notBefore == "" && o.parent.notBefore == ""
    ensures r.Ok? && r.value != "" ==> env.ParseTimestamp(r.value).Some?
    ensures r.Ok? && o.parent.notBefore != "" ==> NoLater(env, o.parent.notBefore, r.value)
    ensures r.Ok? && o.notBefore != "" ==> NoLater(env, o.notBefore, r.value)
    // refused exactly when a stated one cannot be read
    ensures r.Err? <==> Unreadable(env, o.parent.notBefore) || Unreadable(env, o.notBefore)
  {
    var childNotBefore := o.notBefore;
    if o.parent.notBefore != "" {
      var pn := env.ParseTimestamp(o.parent.notBefore);
      if pn.None? {
        return Err(ParentNotBeforeInvalid);
      }
      if childNotBefore == "" {
        childNotBefore := o.parent.notBefore;
      } else {
        var cn := env.ParseTimestamp(childNotBefore);
        if cn.None? {
          return Err(NotBeforeInvalid);
        }
        if cn.value < pn.value {
          childNotBefore := o.parent.notBefore;
        }
      }
    } else if childNotBefore != "" {
      if env.ParseTimestamp(childNotBefore).None? {
        return Err(NotBeforeInvalid);
      }
    }
    return Ok(childNotBefore);
  }
}

// Which child SubDelegate issues and when, in terms of the options and the
// parent's recorded fields alone.
module MintReference {
  import opened Prelude
  import opened Delegations
  import opened Scopes
  import opened ScopeSegments
  import opened ChainReference
  import opened Minter

  predicate Readable(env: TimeEnv, text: string) {
    text != "" && env.parse(text).Some?
  }

  // `a` and `b` are readable and `a` is the strictly earlier instant.
  predicate Before(env: TimeEnv, a: string, b: string) {
    Readable(env, a) && Readable(env, b) && env.parse(a).value < env.parse(b).value
  }

  // `key` has a signature over the fields of `d` but the signature itself.
  predicate Authentic(sg: Signing, d: Delegation) {
    && d.signature != ""
    && (d.spendLimit.Some? ==> d.spendLimit.value.Fin?)
    && sg.canon(d.(signature := "")).Some?
    && sg.verify(sg.canon(d.(signature := "")).value, d.signature, d.delegatedBy)
  }

  // Authentic, and at `now` within the window it states.
  predicate Live(env: TimeEnv, sg: Signing, d: Delegation, now: int) {
    && Authentic(sg, d)
    && Readable(env, d.expiresAt) && now <= env.parse(d.expiresAt).value
    && (d.notBefore != "" ==> Readable(env, d.notBefore) && env.parse(d.notBefore).value <= now)
    && (d.maxDepth.Some? && d.currentDepth.Some? ==> d.currentDepth.value <= d.maxDepth.value)
  }

  lemma LiveExactly(env: TimeEnv, sg: Signing, d: Delegation, now: int)
    ensures VerifyDelegationAt(env, sg, d, now).None? <==> Live(env, sg, d, now)
  {
  }

  predicate EvaluatedAt(env: TimeEnv, o: SubDelegateOptions, now: int) {
    if o.now == "" then now == env.clock else env.parse(o.now) == Some(now)
  }

  predicate ReadableIfStated(env: TimeEnv, text: string) {
    text != "" ==> Readable(env, text)
  }

  // Every stated facet narrows what the parent states.
  ghost predicate Narrows(env: TimeEnv, o: SubDelegateOptions) {
    var p := o.parent;
    && (exists depth :: depth >= 0 && AtDepth(p, depth) && (p.maxDepth.Some? ==> depth + 1 <= p.maxDepth.value))
    && Extends(p.scope, o.scope)
    && (o.spendLimitUnit != "" ==> forall u :: StatesUnit(p, u) ==> o.spendLimitUnit == u)
    && (o.spendLimit.Some? ==> o.spendLimit.value.Fin?)
    && (o.spendLimit.Some? && p.spendLimit.Some? && p.spendLimit.value.Fin? ==> o.spendLimit.value.r <= p.spendLimit.value.r)
    && ReadableIfStated(env, o.expiresAt) && ReadableIfStated(env, o.notBefore)
  }

  // The earlier or the later of two texts: the requested one unless it is
  // missing or the inherited one is strictly beyond it.
  predicate EarlierOf(env: TimeEnv, requested: string, inherited: string, text: string) {
    if requested == "" then text == inherited
    else if Before(env, inherited, requested) then text == inherited
    else text == requested
  }

  predicate LaterOf(env: TimeEnv, requested: string, inherited: string, text: string) {
    if requested == "" then text == inherited
    else if Before(env, requested, inherited) then text == inherited
    else text == requested
  }

  // The requested unit, or else the one the parent states, if it does.
  ghost predicate IsUnit(o: SubDelegateOptions, unit: string) {
    if o.spendLimitUnit != "" then unit == o.spendLimitUnit
    else StatesUnit(o.parent, unit) || (unit == "" && forall u :: !StatesUnit(o.parent, u))
  }

  // The child is the one asked for, and inherits what was not stated.
  ghost predicate Requested(env: TimeEnv, o: SubDelegateOptions, child: Delegation) {
    var p := o.parent;
    && child.delegationId == o.delegationId && child.delegatedTo == o.delegatedTo
    && child.scope == o.scope && child.createdAt == o.createdAt
    && child.delegatedBy == p.delegatedTo
    && (exists depth :: AtDepth(p, depth) && child.currentDepth == Some(depth + 1))
    && child.maxDepth == p.maxDepth
    && child.spendLimit == (if o.spendLimit.Some? then o.spendLimit else p.spendLimit)
    && IsUnit(o, child.spendLimitUnit)
    && EarlierOf(env, o.expiresAt, p.expiresAt, child.expiresAt)
    && LaterOf(env, o.notBefore, p.notBefore, child.notBefore)
  }

  predicate SignedWith(sg: Signing, d: Delegation, privateKey: string) {
    && sg.canon(d.(signature := "")).Some?
    && sg.sign(sg.canon(d.(signature := "")).value, privateKey) == Some(d.signature)
  }

  // What is minted, and when.
  ghost predicate Child(env: TimeEnv, sg: Signing, o: SubDelegateOptions, child: Delegation) {
    && (exists now :: EvaluatedAt(env, o, now) && Live(env, sg, o.parent, now))
    && Narrows(env, o)
    && Requested(env, o, child)
    && SignedWith(sg, child, o.privateKey)
  }

  // ----- facet by facet

  lemma RefusalExactly(env: TimeEnv, sg: Signing, o: SubDelegateOptions)
    ensures ParentRefusal(env, sg, o).None? <==>
      && (exists now :: EvaluatedAt(env, o, now) && Live(env, sg, o.parent, now))
      && (exists depth :: depth >= 0 && AtDepth(o.parent, depth) && (o.parent.maxDepth.Some? ==> depth + 1 <= o.parent.maxDepth.value))
      && Extends(o.parent.scope, o.scope)
  {
    NarrowsExactly(o.parent.scope, o.scope);
    assert AtDepth(o.parent, o.parent.Depth());
    var time := EvaluationTime(env, o);
    forall now ensures EvaluatedAt(env, o, now) <==> time == Some(now) {
    }
    if time.Some? {
      LiveExactly(env, sg, o.parent, time.value);
    }
    hide Live, VerifyDelegationAt, Extends, ScopeNarrows, EvaluationTime, EvaluatedAt;
  }

  lemma UnitExactly(o: SubDelegateOptions)
    ensures ResolveUnit(o).Ok? <==> (o.spendLimitUnit != "" ==> forall u :: StatesUnit(o.parent, u) ==> o.spendLimitUnit == u)
    ensures ResolveUnit(o).Ok? ==> IsUnit(o, ResolveUnit(o).value)
  {
    UnitStated(o.parent, o.parent.StatedUnit());
    forall u ensures StatesUnit(o.parent, u) <==> u != "" && o.parent.StatedUnit() == u {
      UnitStated(o.parent, u);
    }
    hide StatesUnit;
    assert o.parent.StatedUnit() != "" ==> StatesUnit(o.parent, o.parent.StatedUnit());
  }

  lemma UnitUnique(o: SubDelegateOptions, u: string, w: string)
    requires IsUnit(o, u) && IsUnit(o, w)
    ensures u == w
  {
  }

  // With a parent that passes verification, so that its own limit is finite.
  lemma LimitExactly(o: SubDelegateOptions)
    requires o.parent.spendLimit.Some? ==> o.parent.spendLimit.value.Fin?
    requires ResolveUnit(o).Ok?
    ensures var r := ResolveLimit(o, ResolveUnit(o).value);
      && (o.spendLimit.Some? ==> o.spendLimit.value.Fin?) ==>
           (r.Ok? <==> (o.spendLimit.Some? && o.parent.spendLimit.Some? ==> o.spendLimit.value.r <= o.parent.spendLimit.value.r))
    ensures var r := ResolveLimit(o, ResolveUnit(o).value);
      r.Ok? ==> r.value == if o.spendLimit.Some? then o.spendLimit else o.parent.spendLimit
  {
  }

  lemma ExpiryExactly(env: TimeEnv, o: SubDelegateOptions)
    requires Readable(env, o.parent.expiresAt)
    ensures ResolveExpiry(env, o).Ok? <==> ReadableIfStated(env, o.expiresAt)
    ensures ResolveExpiry(env, o).Ok? ==> forall text :: text == ResolveExpiry(env, o).value <==>
      EarlierOf(env, o.expiresAt, o.parent.expiresAt, text)
  {
  }

  lemma NotBeforeExactly(env: TimeEnv, o: SubDelegateOptions)
    requires ReadableIfStated(env, o.parent.notBefore)
    ensures ResolveNotBefore(env, o).Ok? <==> ReadableIfStated(env, o.notBefore)
    ensures ResolveNotBefore(env, o).Ok? ==> forall text :: text == ResolveNotBefore(env, o).value <==>
      LaterOf(env, o.notBefore, o.parent.notBefore, text)
  {
  }

  // ----- the child before it is signed

  lemma UnsignedExactly(env: TimeEnv, sg: Signing, o: SubDelegateOptions)
    requires o.spendLimit.Some? ==> o.spendLimit.value.Fin?
    ensures Unsigned(env, sg, o).Ok? <==> (exists now :: EvaluatedAt(env, o, now) && Live(env, sg, o.parent, now)) && Narrows(env, o)
    ensures Unsigned(env, sg, o).Ok? ==> Requested(env, o, Unsigned(env, sg, o).value) && Unsigned(env, sg, o).value.signature == ""
  {
    RefusalExactly(env, sg, o);
    UnitExactly(o);
    if exists now :: EvaluatedAt(env, o, now) && Live(env, sg, o.parent, now) {
      if ResolveUnit(o).Ok? {
        LimitExactly(o);
      }
      ExpiryExactly(env, o);
      NotBeforeExactly(env, o);
      assert AtDepth(o.parent, o.parent.Depth());
    }
    hide ParentRefusal, ResolveUnit, ResolveLimit, ResolveExpiry, ResolveNotBefore, EvaluatedAt, Extends, IsUnit, EarlierOf, LaterOf;
    hide Readable, ReadableIfStated;
  }

  lemma RequestedUnique(env: TimeEnv, o: SubDelegateOptions, c: Delegation, d: Delegation)
    requires Requested(env, o, c) && Requested(env, o, d)
    ensures c.(signature := "") == d.(signature := "")
  {
    UnitUnique(o, c.spendLimitUnit, d.spendLimitUnit);
    hide IsUnit;
  }

  lemma RequestedIgnoresSignature(env: TimeEnv, o: SubDelegateOptions, c: Delegation, sig: string)
    ensures Requested(env, o, c.(signature := sig)) == Requested(env, o, c)
  {
    hide IsUnit, EarlierOf, LaterOf, AtDepth;
  }

  lemma InfiniteUnsigned(env: TimeEnv, sg: Signing, o: SubDelegateOptions)
    requires o.spendLimit.Some? && !o.spendLimit.value.Fin?
    ensures Mint(env, sg, o).Err?
  {
    hide ParentRefusal, ResolveUnit, ResolveExpiry, ResolveNotBefore;
  }

  // SubDelegate issues a child exactly when the parent is live and authentic at
  // the evaluation time, every stated facet narrows and the child can be
  // signed; and the child is then the one described.
  lemma MintExactly(env: TimeEnv, sg: Signing, o: SubDelegateOptions, child: Delegation)
    ensures Mint(env, sg, o) == Ok(child) <==> Child(env, sg, o, child)
  {
    hide Unsigned, Requested, Live, EvaluatedAt;
    if o.spendLimit.Some? && !o.spendLimit.value.Fin? {
      InfiniteUnsigned(env, sg, o);
    } else {
      UnsignedExactly(env, sg, o);
      hide Narrows;
      var u := Unsigned(env, sg, o);
      if u.Ok? {
        var d := u.value;
        ChildFinite(env, sg, o, d);
        assert d.(signature := "") == d;
        RequestedIgnoresSignature(env, o, d, child.signature);
        if Requested(env, o, child) {
          RequestedUnique(env, o, child, d);
        }
        assert child == child.(signature := "").(signature := child.signature);
      }
    }
  }

  // A child has no limit but a finite one.
  lemma ChildFinite(env: TimeEnv, sg: Signing, o: SubDelegateOptions, d: Delegation)
    requires Requested(env, o, d) && (o.spendLimit.Some? ==> o.spendLimit.value.Fin?)
    requires exists now :: EvaluatedAt(env, o, now) && Live(env, sg, o.parent, now)
    ensures d.spendLimit.Some? ==> d.spendLimit.value.Fin?
  {
    hide EvaluatedAt, IsUnit, EarlierOf, LaterOf, AtDepth;
  }

  // A child is issued exactly when one can be signed.
  lemma IssuedExactly(env: TimeEnv, sg: Signing, o: SubDelegateOptions)
    ensures Mint(env, sg, o).Ok? <==> exists child :: Child(env, sg, o, child)
  {
    forall child ensures Mint(env, sg, o) == Ok(child) <==> Child(env, sg, o, child) {
      MintExactly(env, sg, o, child);
    }
    hide Mint, Child;
    if Mint(env, sg, o).Ok? {
      assert Child(env, sg, o, Mint(env, sg, o).value);
    }
  }

  // ----- refusals

  // What each answer about a parent at `now` says.
  predicate NotLive(env: TimeEnv, sg: Signing, d: Delegation, now: int, e: ValidityError) {
    match e
    case InvalidSignature => !Authentic(sg, d)
    case InvalidExpiry => !Readable(env, d.expiresAt)
    case Expired => Readable(env, d.expiresAt) && env.parse(d.expiresAt).value < now
    case InvalidNotBefore => d.notBefore != "" && !Readable(env, d.notBefore)
    case NotYetValid => Readable(env, d.notBefore) && env.parse(d.notBefore).value > now
    case DepthExceeded => d.maxDepth.Some? && d.currentDepth.Some? && d.currentDepth.value > d.maxDepth.value
  }

  lemma NotLiveTruthful(env: TimeEnv, sg: Signing, d: Delegation, now: int)
    ensures var e := VerifyDelegationAt(env, sg, d, now); e.Some? ==> NotLive(env, sg, d, now, e.value)
  {
  }

  predicate Exceeds(a: Float, b: Float) {
    b.Fin? && (a.PosInf? || (a.Fin? && a.r > b.r))
  }

  // No signature can be had for the child.
  predicate Unsignable(sg: Signing, d: Delegation, privateKey: string) {
    || (d.spendLimit.Some? && !d.spendLimit.value.Fin?)
    || sg.canon(d).None?
    || sg.sign(sg.canon(d).value, privateKey).None?
  }

  // What each refusal says. A live parent's own times are readable, so the two
  // refusals that say otherwise are never given.
  ghost predicate Refused(env: TimeEnv, sg: Signing, o: SubDelegateOptions, e: MintError) {
    var p := o.parent;
    match e
    case NowInvalid => o.now != "" && !Readable(env, o.now)
    case InvalidParent(reason) => exists now :: EvaluatedAt(env, o, now) && NotLive(env, sg, p, now, reason)
    case ParentDepthNegative => p.currentDepth.Some? && p.currentDepth.value < 0
    case DepthLimit => p.maxDepth.Some? && exists depth :: AtDepth(p, depth) && depth + 1 > p.maxDepth.value
    case ScopeViolation => !Extends(p.scope, o.scope)
    case UnitChange => o.spendLimitUnit != "" && exists u :: StatesUnit(p, u) && u != o.spendLimitUnit
    case LimitExceedsParent => o.spendLimit.Some? && p.spendLimit.Some? && Exceeds(o.spendLimit.value, p.spendLimit.value)
    case ExpiryInvalid => o.expiresAt != "" && !Readable(env, o.expiresAt)
    case NotBeforeInvalid => o.notBefore != "" && !Readable(env, o.notBefore)
    case SigningFailed => exists d :: Requested(env, o, d) && d.signature == "" && Unsignable(sg, d, o.privateKey)
    case _ => false
  }

  lemma RefusalTruthful(env: TimeEnv, sg: Signing, o: SubDelegateOptions)
    ensures var e := ParentRefusal(env, sg, o); e.Some? ==> Refused(env, sg, o, e.value)
  {
    NarrowsExactly(o.parent.scope, o.scope);
    assert AtDepth(o.parent, o.parent.Depth());
    var time := EvaluationTime(env, o);
    if time.Some? {
      assert EvaluatedAt(env, o, time.value);
      NotLiveTruthful(env, sg, o.parent, time.value);
    }
    hide Extends, ScopeNarrows, VerifyDelegationAt, NotLive;
  }

  lemma BoundRefused(env: TimeEnv, sg: Signing, o: SubDelegateOptions)
    requires ParentRefusal(env, sg, o).None?
    ensures ResolveUnit(o).Err? ==> Refused(env, sg, o, ResolveUnit(o).error)
    ensures ResolveUnit(o).Ok? ==> var l := ResolveLimit(o, ResolveUnit(o).value); l.Err? ==> Refused(env, sg, o, l.error)
    ensures ResolveExpiry(env, o).Err? ==> Refused(env, sg, o, ResolveExpiry(env, o).error)
    ensures ResolveNotBefore(env, o).Err? ==> Refused(env, sg, o, ResolveNotBefore(env, o).error)
  {
    UnitStated(o.parent, o.parent.StatedUnit());
  }

  // With a parent that is live, what is resolved is what was requested, whether
  // or not it can be signed.
  lemma UnsignedRequested(env: TimeEnv, sg: Signing, o: SubDelegateOptions)
    requires Unsigned(env, sg, o).Ok?
    ensures Requested(env, o, Unsigned(env, sg, o).value) && Unsigned(env, sg, o).value.signature == ""
  {
    RefusalExactly(env, sg, o);
    UnitExactly(o);
    LimitExactly(o);
    ExpiryExactly(env, o);
    NotBeforeExactly(env, o);
    assert AtDepth(o.parent, o.parent.Depth());
    hide ResolveUnit, ResolveLimit, ResolveExpiry, ResolveNotBefore, EvaluatedAt, Extends, IsUnit, EarlierOf, LaterOf, ParentRefusal;
  }

  // Whatever refusal is given, what it says is so.
  lemma MintTruthful(env: TimeEnv, sg: Signing, o: SubDelegateOptions)
    ensures Mint(env, sg, o).Err? ==> Refused(env, sg, o, Mint(env, sg, o).error)
  {
    hide Refused, Requested, ResolveUnit, ResolveLimit, ResolveExpiry, ResolveNotBefore, ParentRefusal;
    RefusalTruthful(env, sg, o);
    if ParentRefusal(env, sg, o).None? {
      BoundRefused(env, sg, o);
      if Unsigned(env, sg, o).Ok? && Mint(env, sg, o).Err? {
        UnsignedRequested(env, sg, o);
        SigningRefused(env, sg, o, Unsigned(env, sg, o).value);
      }
    }
  }

  lemma SigningRefused(env: TimeEnv, sg: Signing, o: SubDelegateOptions, d: Delegation)
    requires Requested(env, o, d) && d.signature == "" && Signed(sg, d, o.privateKey).Err?
    ensures Refused(env, sg, o, SigningFailed)
  {
    hide Requested;
    assert d.(signature := "") == d;
    assert Unsignable(sg, d, o.privateKey);
  }

  // ----- a root

  // What CreateDelegation issues, and when: as requested, with a position and a
  // maximum in order.
  lemma CreateExactly(sg: Signing, o: CreateOptions, d: Delegation)
    ensures CreateDelegation(sg, o) == Ok(d) <==>
      && o.delegatedBy != "" && o.delegatedTo != "" && 0 <= o.currentDepth <= o.maxDepth
      && d.delegationId == o.delegationId && d.delegatedBy == o.delegatedBy && d.delegatedTo == o.delegatedTo
      && d.scope == o.scope && d.spendLimit == o.spendLimit && d.spendLimitUnit == o.spendLimitUnit
      && d.maxDepth == Some(o.maxDepth) && d.currentDepth == Some(o.currentDepth)
      && d.expiresAt == o.expiresAt && d.notBefore == o.notBefore && d.createdAt == o.createdAt
      && (d.spendLimit.Some? ==> d.spendLimit.value.Fin?)
      && SignedWith(sg, d, o.privateKey)
  {
  }
}

// The minter never writes a chain the verifier refuses.
module MintRuns {
  import opened Prelude
  import opened Delegations
  import opened Scopes
  import opened ChainVerifier
  import opened Minter

  // One call of SubDelegate, with the clock it read.
  datatype Call = Call(options: SubDelegateOptions, clock: int)

  // Each link after the root came out of a successful call on the link before.
  ghost predicate MintedRun(env: TimeEnv, sg: Signing, chain: seq<Delegation>, calls: seq<Call>) {
    && |chain| == |calls| + 1
    && forall i :: 0 <= i < |calls| ==>
         && calls[i].options.parent == chain[i]
         && Mint(env.(clock := calls[i].clock), sg, calls[i].options) == Ok(chain[i + 1])
  }

  // The ceiling a link states for itself.
  function OwnBound(env: TimeEnv, d: Delegation): Bound {
    Bound(d.spendLimit, d.StatedUnit(), d.maxDepth, d.notBefore, if d.notBefore == "" then 0 else env.Millis(d.notBefore))
  }

  // What a successful mint says about the parent it was given.
  lemma ParentIsSound(env: TimeEnv, sg: Signing, o: SubDelegateOptions)
    requires Mint(env, sg, o).Ok?
    ensures o.parent.spendLimit.Some? ==> o.parent.spendLimit.value.Finite()
    ensures o.parent.expiresAt != "" && env.parse(o.parent.expiresAt).Some?
    ensures o.parent.notBefore != "" ==> env.parse(o.parent.notBefore).Some?
    ensures 0 <= o.parent.Depth()
    ensures o.parent.maxDepth.Some? ==> o.parent.Depth() + 1 <= o.parent.maxDepth.value
  {
  }

  lemma ParentAccepted(env: TimeEnv, sg: Signing, o: SubDelegateOptions)
    requires Mint(env, sg, o).Ok?
    ensures RootStep(env, o.parent) == Ok(OwnBound(env, o.parent))
  {
    ParentIsSound(env, sg, o);
  }

  // Folding a minted child into the ceiling its parent states yields the
  // ceiling the child states: nothing omitted is lost on the way.
  lemma MintedHopAccepted(env: TimeEnv, sg: Signing, o: SubDelegateOptions, child: Delegation)
    requires Mint(env, sg, o) == Ok(child)
    ensures HopStep(env, OwnBound(env, o.parent), o.parent, child) == Ok(OwnBound(env, child))
  {
    ParentIsSound(env, sg, o);
    MintedBoundsFold(env, sg, o, child);
    MintedExpiryShrinks(env, sg, o, child);
  }

  lemma MintedExpiryShrinks(env: TimeEnv, sg: Signing, o: SubDelegateOptions, child: Delegation)
    requires Mint(env, sg, o) == Ok(child)
    ensures ExpiryViolation(env, o.parent, child).None?
  {
    var pe := env.parse(o.parent.expiresAt).value;
    var ce := env.parse(child.expiresAt).value;
    FloorMillisMonotone(ce, pe);
  }

  lemma MintedBoundsFold(env: TimeEnv, sg: Signing, o: SubDelegateOptions, child: Delegation)
    requires Mint(env, sg, o) == Ok(child)
    ensures NarrowStep(env, OwnBound(env, o.parent), child) == Ok(OwnBound(env, child))
  {
    ParentIsSound(env, sg, o);
    if o.parent.notBefore != "" {
      FloorMillisMonotone(env.parse(o.parent.notBefore).value, env.parse(child.notBefore).value);
    }
  }

  // The clock serves the parent's validity window and an omitted Now; the
  // verifier never reads it on a typed chain.
  lemma ClockUnread(env: TimeEnv, clock: int, b: Bound, d: Delegation)
    ensures var env' := env.(clock := clock);
      && OwnBound(env', d) == OwnBound(env, d)
      && NarrowFloor(env', b, d) == NarrowFloor(env, b, d)
  {
  }

  lemma ClockIrrelevant(env: TimeEnv, clock: int, b: Bound, parent: Delegation, child: Delegation)
    ensures RootStep(env.(clock := clock), parent) == RootStep(env, parent)
    ensures HopStep(env.(clock := clock), b, parent, child) == HopStep(env, b, parent, child)
    ensures OwnBound(env.(clock := clock), child) == OwnBound(env, child)
    ensures OwnBound(env.(clock := clock), parent) == OwnBound(env, parent)
  {
    hide NarrowUnit, NarrowLimit, NarrowMaxDepth, ScopeNarrows, DepthViolation;
    NarrowUnread(env, clock, UNBOUNDED, parent);
    NarrowUnread(env, clock, b, child);
    hide NarrowFloor, NarrowStep;
    ClockUnread(env, clock, b, child);
    ClockUnread(env, clock, b, parent);
  }

  lemma NarrowUnread(env: TimeEnv, clock: int, b: Bound, d: Delegation)
    ensures NarrowStep(env.(clock := clock), b, d) == NarrowStep(env, b, d)
  {
    hide NarrowUnit, NarrowLimit, NarrowMaxDepth;
  }

  // Along any run, of any length, the folded ceiling is the one the last link
  // states for itself.
  lemma {:induction false} RunInvariant(env: TimeEnv, sg: Signing, chain: seq<Delegation>, calls: seq<Call>, n: nat)
    requires MintedRun(env, sg, chain, calls)
    requires |calls| > 0 && 1 <= n <= |chain|
    ensures Walk(env, chain, n) == Ok(OwnBound(env, chain[n - 1]))
  {
    hide HopStep, RootStep, OwnBound, Mint;
    if n == 1 {
      assert calls[0].options.parent == chain[0] && chain[0 + 1] == chain[1];
      ParentAccepted(env.(clock := calls[0].clock), sg, calls[0].options);
      ClockIrrelevant(env, calls[0].clock, UNBOUNDED, chain[0], chain[0]);
    } else {
      RunInvariant(env, sg, chain, calls, n - 1);
      var call := calls[n - 2];
      MintedHopAccepted(env.(clock := call.clock), sg, call.options, chain[n - 1]);
      ClockIrrelevant(env, call.clock, OwnBound(env, chain[n - 2]), chain[n - 2], chain[n - 1]);
    }
  }

  lemma MintedRunAccepted(env: TimeEnv, sg: Signing, chain: seq<Delegation>, calls: seq<Call>)
    requires MintedRun(env, sg, chain, calls) && |calls| > 0
    ensures Verdict(env, chain).None?
  {
    RunInvariant(env, sg, chain, calls, |chain|);
  }

  // A freshly created root is accepted exactly when its activation floor can be
  // read: CreateDelegation itself never parses a timestamp.
  lemma CreatedRootAccepted(env: TimeEnv, sg: Signing, o: CreateOptions)
    requires CreateDelegation(sg, o).Ok?
    ensures Verdict(env, [CreateDelegation(sg, o).value]).None? <==>
      o.notBefore == "" || env.parse(o.notBefore).Some?
  {
    var root := CreateDelegation(sg, o).value;
    assert Walk(env, [root], 1) == RootStep(env, root);
  }

  // Signed with the key of the party the parent delegated to, the child is
  // authentic, and it is live at the minting instant exactly when the window
  // its caller asked for contains that instant.
  lemma MintedChildLive(env: TimeEnv, sg: Signing, o: SubDelegateOptions, child: Delegation, now: int)
    requires Mint(env, sg, o) == Ok(child)
    requires sg.SignsFor(o.privateKey, o.parent.delegatedTo)
    requires EvaluationTime(env, o) == Some(now)
    ensures sg.VerifySignature(child)
    ensures VerifyDelegationAt(env, sg, child, now).None? <==>
      && (o.expiresAt != "" ==> now <= env.parse(o.expiresAt).value)
      && (o.notBefore != "" ==> env.parse(o.notBefore).value <= now)
  {
    var unsigned := Unsigned(env, sg, o).value;
    assert child.(signature := "") == unsigned;
    ParentIsSound(env, sg, o);
  }
}

// TraceBeneficiary of attribution/attribution.go.
module Trace {
  import opened Prelude
  import opened Lexicographic
  import opened Sorting
  import opened Delegations
  import opened Minter

  const UNKNOWN := "unknown"

  datatype ActionReceipt = ActionReceipt(
    receiptId: string,
    version: string,
    agentId: string,
    delegationId: string,
    delegationChain: seq<string>,
    signature: string
  )

  datatype Beneficiary = Beneficiary(principalId: string)

  datatype Hop = Hop(from: string, to: string, delegationId: string, scope: seq<string>, depth: nat)

  datatype BeneficiaryTrace = BeneficiaryTrace(
    traceId: string,
    receiptId: string,
    executorAgent: string,
    beneficiary: string,
    chain: seq<Hop>,
    totalDepth: nat,
    resolved: bool,
    verified: bool
  )

  // Delegation signatures, and the receipt signature over its canonical body.
  datatype Keys = Keys(signing: Signing, receiptSigned: (ActionReceipt, string) -> bool) {
    predicate ReceiptAuthentic(r: ActionReceipt, key: string) {
      r.version == "1.1" && receiptSigned(r, key)
    }
  }

  datatype Match = Match(del: Delegation, valid: bool)

  predicate Joins(d: Delegation, from: string, to: string) {
    d.delegatedBy == from && d.delegatedTo == to
  }

  function Matches(k: Keys, delegations: seq<Delegation>, from: string, to: string): seq<Match> {
    if delegations == [] then [] else
    var d := delegations[|delegations| - 1];
    Matches(k, delegations[..|delegations| - 1], from, to) +
    (if Joins(d, from, to) then [Match(d, k.signing.VerifySignature(d))] else [])
  }

  ghost predicate IsMatch(k: Keys, delegations: seq<Delegation>, from: string, to: string, m: Match) {
    m.del in delegations && Joins(m.del, from, to) && m.valid == k.signing.VerifySignature(m.del)
  }

  lemma {:induction false} MatchesAre(k: Keys, delegations: seq<Delegation>, from: string, to: string)
    ensures forall m :: m in Matches(k, delegations, from, to) <==> IsMatch(k, delegations, from, to, m)
  {
    if delegations != [] {
      var init, d := delegations[..|delegations| - 1], delegations[|delegations| - 1];
      assert delegations == init + [d];
      MatchesAre(k, init, from, to);
    }
  }

  // Valid first, then by id.
  predicate MatchLess(a: Match, b: Match) {
    if a.valid != b.valid then a.valid else Less(a.del.delegationId, b.del.delegationId)
  }

  lemma MatchWeakOrder(ms: seq<Match>)
    ensures WeakOrder(MatchLess, ms)
  {
    forall x: Match, y | MatchLess(x, y) ensures !MatchLess(y, x) {
      if x.valid == y.valid && MatchLess(y, x) {
        LessTransitive(x.del.delegationId, y.del.delegationId, x.del.delegationId);
        LessIrreflexive(x.del.delegationId);
      }
    }
    forall x: Match, y, z | !MatchLess(x, y) && !MatchLess(y, z) ensures !MatchLess(x, z) {
      if x.valid == y.valid == z.valid {
        var ids := [x.del.delegationId, y.del.delegationId, z.del.delegationId];
        BytesTotalOrder(ids);
        assert ids[0] in ids && ids[1] in ids && ids[2] in ids;
      }
    }
  }

  function IndexOfId(ms: seq<Match>, id: string): (i: nat)
    ensures i <= |ms|
    ensures i < |ms| ==> ms[i].del.delegationId == id
    ensures forall j :: 0 <= j < i ==> ms[j].del.delegationId != id
  {
    if ms == [] || ms[0].del.delegationId == id then 0 else 1 + IndexOfId(ms[1..], id)
  }

  predicate FirstWithId(ms: seq<Match>, id: string, i: int) {
    && 0 <= i < |ms| && ms[i].del.delegationId == id
    && forall j :: 0 <= j < i ==> ms[j].del.delegationId != id
  }

  // The delegation a hop reports: on the last hop the one the receipt names,
  // otherwise the first after the stable sort.
  function Chosen(ordered: seq<Match>, isTail: bool, receiptDelegation: string): Option<Match> {
    var i := IndexOfId(ordered, receiptDelegation);
    if isTail && i < |ordered| then Some(ordered[i])
    else if ordered != [] then Some(ordered[0])
    else None
  }

  function HopAt(k: Keys, r: ActionReceipt, delegations: seq<Delegation>, i: nat): Hop
    requires i + 1 < |r.delegationChain|
  {
    var from, to := r.delegationChain[i], r.delegationChain[i + 1];
    var ordered := Sort(MatchLess, Matches(k, delegations, from, to));
    match Chosen(ordered, i == |r.delegationChain| - 2, r.delegationId)
    case None => Hop(from, to, UNKNOWN, [], i)
    case Some(m) => Hop(from, to, if m.del.delegationId != "" then m.del.delegationId else UNKNOWN, m.del.scope, i)
  }

  predicate HopAuthentic(k: Keys, r: ActionReceipt, delegations: seq<Delegation>, i: nat)
    requires i + 1 < |r.delegationChain|
  {
    exists d <- delegations ::
      Joins(d, r.delegationChain[i], r.delegationChain[i + 1]) && k.signing.VerifySignature(d)
  }

  function Hops(k: Keys, r: ActionReceipt, delegations: seq<Delegation>): (hops: seq<Hop>)
    ensures |hops| == if r.delegationChain == [] then 0 else |r.delegationChain| - 1
    ensures forall i :: 0 <= i < |hops| ==> hops[i] == HopAt(k, r, delegations, i)
  {
    var n := if r.delegationChain == [] then 0 else |r.delegationChain| - 1;
    seq(n, i requires 0 <= i < n => HopAt(k, r, delegations, i))
  }

  predicate Resolved(k: Keys, r: ActionReceipt, delegations: seq<Delegation>, beneficiaries: map<string, Beneficiary>) {
    && |r.delegationChain| > 1
    && r.delegationChain[0] in beneficiaries
    && forall i :: 0 <= i < |r.delegationChain| - 1 ==> HopAt(k, r, delegations, i).delegationId != UNKNOWN
  }

  predicate Verified(k: Keys, r: ActionReceipt, delegations: seq<Delegation>) {
    && |r.delegationChain| > 1
    && k.ReceiptAuthentic(r, r.delegationChain[|r.delegationChain| - 1])
    && forall i :: 0 <= i < |r.delegationChain| - 1 ==> HopAuthentic(k, r, delegations, i)
  }

  method TraceBeneficiary(k: Keys, traceId: string, r: ActionReceipt, delegations: seq<Delegation>, beneficiaries: map<string, Beneficiary>)
    returns (t: BeneficiaryTrace)
    ensures t.traceId == traceId && t.receiptId == r.receiptId && t.executorAgent == r.agentId
    ensures t.chain == Hops(k, r, delegations) && t.totalDepth == |t.chain|
    ensures t.resolved == Resolved(k, r, delegations, beneficiaries)
    ensures t.verified == Verified(k, r, delegations)
    ensures t.beneficiary ==
      if r.delegationChain == [] then (if "" in beneficiaries then beneficiaries[""].principalId else "")
      else if r.delegationChain[0] in beneficiaries && beneficiaries[r.delegationChain[0]].principalId != ""
      then beneficiaries[r.delegationChain[0]].principalId
      else r.delegationChain[0]
  {
    hide HopAt, HopAuthentic;
    var keyChain := r.delegationChain;
    var chain: seq<Hop> := [];
    var everyHopAuthentic := true;
    var i := 0;
    while i + 1 < |keyChain|
      invariant |chain| == i && (keyChain == [] ==> i == 0) && (keyChain != [] ==> i < |keyChain|)
      invariant forall j :: 0 <= j < i ==> chain[j] == HopAt(k, r, delegations, j)
      invariant everyHopAuthentic <==> forall j :: 0 <= j < i ==> HopAuthentic(k, r, delegations, j)
    {
      var hop, authentic := TraceHop(k, r, delegations, i);
      if !authentic {
        everyHopAuthentic := false;
      }
      chain := chain + [hop];
      i := i + 1;
    }
    assert chain == Hops(k, r, delegations);

    var principalKey := if keyChain != [] then keyChain[0] else "";
    var hasBeneficiary := principalKey in beneficiaries;
    var beneficiary := principalKey;
    if hasBeneficiary && beneficiaries[principalKey].principalId != "" {
      beneficiary := beneficiaries[principalKey].principalId;
    }
    var resolved := hasBeneficiary && |keyChain| > 1;
    if resolved {
      for j := 0 to |chain|
        invariant forall h :: 0 <= h < j ==> chain[h].delegationId != UNKNOWN
      {
        if chain[j].delegationId == UNKNOWN {
          resolved := false;
          break;
        }
      }
    }
    var executorKey := if keyChain != [] then keyChain[|keyChain| - 1] else "";
    var receiptAuthentic := |keyChain| > 0 && k.ReceiptAuthentic(r, executorKey);
    var verified := |keyChain| > 1 && receiptAuthentic && everyHopAuthentic;
    return BeneficiaryTrace(traceId, r.receiptId, r.agentId, beneficiary, chain, |chain|, resolved, verified);
  }

  // The body of the hop loop.
  method TraceHop(k: Keys, r: ActionReceipt, delegations: seq<Delegation>, i: nat) returns (hop: Hop, authentic: bool)
    requires i + 1 < |r.delegationChain|
    ensures hop == HopAt(k, r, delegations, i)
    ensures authentic == HopAuthentic(k, r, delegations, i)
  {
    var from, to := r.delegationChain[i], r.delegationChain[i + 1];
    var matches;
    matches, authentic := GatherMatches(k, delegations, from, to);
    var chosen := ChooseMatch(Sort(MatchLess, matches), i == |r.delegationChain| - 2, r.delegationId);
    var delegationId, scope := UNKNOWN, [];
    if chosen.Some? {
      if chosen.value.del.delegationId != "" {
        delegationId := chosen.value.del.delegationId;
      }
      scope := chosen.value.del.scope;
    }
    hop := Hop(from, to, delegationId, scope, i);
  }

  method GatherMatches(k: Keys, delegations: seq<Delegation>, from: string, to: string)
    returns (matches: seq<Match>, anyValid: bool)
    ensures matches == Matches(k, delegations, from, to)
    ensures anyValid <==> exists d <- delegations :: Joins(d, from, to) && k.signing.VerifySignature(d)
  {
    matches, anyValid := [], false;
    for j := 0 to |delegations|
      invariant matches == Matches(k, delegations[..j], from, to)
      invariant anyValid <==> exists d <- delegations[..j] :: Joins(d, from, to) && k.signing.VerifySignature(d)
    {
      var d := delegations[j];
      assert delegations[..j + 1] == delegations[..j] + [d];
      assert delegations[..j + 1][..j] == delegations[..j];
      if d.delegatedBy == from && d.delegatedTo == to {
        var valid := k.signing.VerifySignature(d);
        if valid {
          anyValid := true;
        }
        matches := matches + [Match(d, valid)];
      }
    }
    assert delegations[..|delegations|] == delegations;
  }

  // Something whenever there is a record: on the tail the first with the named
  // id, and otherwise, or when none has it, the first.
  method ChooseMatch(ordered: seq<Match>, isTail: bool, receiptDelegation: string) returns (chosen: Option<Match>)
    ensures chosen == Chosen(ordered, isTail, receiptDelegation)
    ensures chosen.None? <==> ordered == []
    ensures isTail ==> forall i :: FirstWithId(ordered, receiptDelegation, i) ==> chosen == Some(ordered[i])
    ensures chosen.Some? && (!isTail || forall m <- ordered :: m.del.delegationId != receiptDelegation) ==>
      chosen.value == ordered[0]
  {
    chosen := None;
    if isTail {
      for i := 0 to |ordered|
        invariant chosen.None?
        invariant forall j :: 0 <= j < i ==> ordered[j].del.delegationId != receiptDelegation
      {
        if ordered[i].del.delegationId == receiptDelegation {
          chosen := Some(ordered[i]);
          break;
        }
      }
    }
    if chosen.None? && |ordered| > 0 {
      chosen := Some(ordered[0]);
    }
  }
}

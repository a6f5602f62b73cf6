// What the order and the number of delegation records can and cannot change
// in a trace.
module TraceProperties {
  import opened Prelude
  import opened Lexicographic
  import opened Sorting
  import opened Delegations
  import opened Minter
  import opened Trace

  // On the tail a record with the named id shuts out every other.
  ghost predicate Eligible(ms: seq<Match>, isTail: bool, receiptDelegation: string, m: Match) {
    && m in ms
    && (isTail && (exists n <- ms :: n.del.delegationId == receiptDelegation) ==>
       m.del.delegationId == receiptDelegation)
  }

  // Valid ones come first among the eligible, then lesser ids.
  ghost predicate Reported(ms: seq<Match>, isTail: bool, receiptDelegation: string, m: Match) {
    && Eligible(ms, isTail, receiptDelegation, m)
    && forall n <- ms :: Eligible(ms, isTail, receiptDelegation, n) ==> !MatchLess(n, m)
  }

  lemma ChosenIsReported(ms: seq<Match>, isTail: bool, receiptDelegation: string)
    requires ms != []
    ensures var c := Chosen(Sort(MatchLess, ms), isTail, receiptDelegation);
      c.Some? && Reported(ms, isTail, receiptDelegation, c.value)
  {
    var ordered := Sort(MatchLess, ms);
    MatchWeakOrder(ms);
    SortOrdered(MatchLess, ms);
    SameElements(ordered, ms);
    var i := IndexOfId(ordered, receiptDelegation);
    if isTail && i < |ordered| {
      assert ordered[i] in ms;
      ChosenPrecedes(ms, ordered, isTail, receiptDelegation, i);
    } else {
      assert ordered[0] in ms;
      forall n | n in ms && n.del.delegationId == receiptDelegation ensures !isTail {
        assert n in ordered;
      }
      ChosenPrecedes(ms, ordered, isTail, receiptDelegation, 0);
    }
  }

  lemma ChosenPrecedes(ms: seq<Match>, ordered: seq<Match>, isTail: bool, receiptDelegation: string, i: nat)
    requires i < |ordered| && Ordered(MatchLess, ordered) && WeakOrder(MatchLess, ms)
    requires forall m :: m in ms <==> m in ordered
    requires Eligible(ms, isTail, receiptDelegation, ordered[i])
    requires forall j :: 0 <= j < i ==> !Eligible(ms, isTail, receiptDelegation, ordered[j])
    ensures Reported(ms, isTail, receiptDelegation, ordered[i])
  {
    hide MatchLess;
    forall n | n in ms && Eligible(ms, isTail, receiptDelegation, n) ensures !MatchLess(n, ordered[i]) {
      assert n in ordered;
      var j :| 0 <= j < |ordered| && ordered[j] == n;
      assert j >= i;
    }
  }

  lemma ReportedIdUnique(ms: seq<Match>, isTail: bool, receiptDelegation: string, m: Match, n: Match)
    requires Reported(ms, isTail, receiptDelegation, m) && Reported(ms, isTail, receiptDelegation, n)
    ensures m.del.delegationId == n.del.delegationId
  {
    if m.del.delegationId != n.del.delegationId {
      LessTotal(m.del.delegationId, n.del.delegationId);
    }
  }

  lemma MatchesOfRecords(k: Keys, a: seq<Delegation>, b: seq<Delegation>, from: string, to: string)
    requires forall d :: d in a <==> d in b
    ensures forall m :: m in Matches(k, a, from, to) <==> m in Matches(k, b, from, to)
  {
    hide Matches;
    MatchesAre(k, a, from, to);
    MatchesAre(k, b, from, to);
  }

  lemma ChosenIdOfSet(ms: seq<Match>, ns: seq<Match>, isTail: bool, receiptDelegation: string)
    requires forall m :: m in ms <==> m in ns
    ensures var c, e := Chosen(Sort(MatchLess, ms), isTail, receiptDelegation), Chosen(Sort(MatchLess, ns), isTail, receiptDelegation);
      c.Some? == e.Some? && (c.Some? ==> c.value.del.delegationId == e.value.del.delegationId)
  {
    assert ms != [] ==> ms[0] in ms;
    assert ns != [] ==> ns[0] in ns;
    if ms != [] {
      ChosenIsReported(ms, isTail, receiptDelegation);
      ChosenIsReported(ns, isTail, receiptDelegation);
      hide Chosen, MatchLess, Sort;
      var c, e := Chosen(Sort(MatchLess, ms), isTail, receiptDelegation).value, Chosen(Sort(MatchLess, ns), isTail, receiptDelegation).value;
      assert Reported(ms, isTail, receiptDelegation, e);
      ReportedIdUnique(ms, isTail, receiptDelegation, c, e);
    }
  }

  // Two lists with the same records report the same id at every hop.
  lemma HopIdOfRecords(k: Keys, r: ActionReceipt, a: seq<Delegation>, b: seq<Delegation>, i: nat)
    requires i + 1 < |r.delegationChain|
    requires forall d :: d in a <==> d in b
    ensures HopAt(k, r, a, i).delegationId == HopAt(k, r, b, i).delegationId
    ensures HopAuthentic(k, r, a, i) == HopAuthentic(k, r, b, i)
  {
    hide Matches, Sort, Chosen;
    var from, to := r.delegationChain[i], r.delegationChain[i + 1];
    MatchesOfRecords(k, a, b, from, to);
    ChosenIdOfSet(Matches(k, a, from, to), Matches(k, b, from, to), i == |r.delegationChain| - 2, r.delegationId);
  }

  // Permuting (or repeating) records changes neither verdict nor any reported
  // id.
  lemma OrderIrrelevant(k: Keys, r: ActionReceipt, a: seq<Delegation>, b: seq<Delegation>,
                        beneficiaries: map<string, Beneficiary>)
    requires forall d :: d in a <==> d in b
    ensures Verified(k, r, a) == Verified(k, r, b)
    ensures Resolved(k, r, a, beneficiaries) == Resolved(k, r, b, beneficiaries)
    ensures |Hops(k, r, a)| == |Hops(k, r, b)|
    ensures forall i :: 0 <= i < |Hops(k, r, a)| ==> Hops(k, r, a)[i].delegationId == Hops(k, r, b)[i].delegationId
  {
    hide HopAt, HopAuthentic;
    forall i: nat | i + 1 < |r.delegationChain|
      ensures HopAt(k, r, a, i).delegationId == HopAt(k, r, b, i).delegationId
      ensures HopAuthentic(k, r, a, i) == HopAuthentic(k, r, b, i)
    {
      HopIdOfRecords(k, r, a, b, i);
    }
  }

  // A further record never takes a verified lineage back.
  lemma VerifiedMonotone(k: Keys, r: ActionReceipt, a: seq<Delegation>, b: seq<Delegation>)
    requires forall d :: d in a ==> d in b
    requires Verified(k, r, a)
    ensures Verified(k, r, b)
  {
    forall i: nat | i + 1 < |r.delegationChain| ensures HopAuthentic(k, r, b, i) {
      assert HopAuthentic(k, r, a, i);
      var d :| d in a && Joins(d, r.delegationChain[i], r.delegationChain[i + 1]) && k.signing.VerifySignature(d);
      assert d in b;
    }
  }

  ghost predicate HasRecord(delegations: seq<Delegation>, from: string, to: string) {
    exists d <- delegations :: Joins(d, from, to)
  }

  // An id that cannot be mistaken for a missing one.
  predicate ProperId(id: string) {
    id != "" && id != UNKNOWN
  }

  // A hop resolves exactly when the record it reports has a proper id.
  lemma HopResolvedExactly(k: Keys, r: ActionReceipt, delegations: seq<Delegation>, i: nat)
    requires i + 1 < |r.delegationChain|
    ensures var ms := Matches(k, delegations, r.delegationChain[i], r.delegationChain[i + 1]);
      HopAt(k, r, delegations, i).delegationId != UNKNOWN <==>
      exists m <- ms :: Reported(ms, i == |r.delegationChain| - 2, r.delegationId, m) && ProperId(m.del.delegationId)
  {
    var from, to := r.delegationChain[i], r.delegationChain[i + 1];
    var ms, isTail := Matches(k, delegations, from, to), i == |r.delegationChain| - 2;
    hide Matches, MatchLess;
    if ms != [] {
      ChosenIsReported(ms, isTail, r.delegationId);
      hide Sort, Chosen;
      var c := Chosen(Sort(MatchLess, ms), isTail, r.delegationId).value;
      forall m | m in ms && Reported(ms, isTail, r.delegationId, m)
        ensures m.del.delegationId == c.del.delegationId
      {
        ReportedIdUnique(ms, isTail, r.delegationId, m, c);
      }
    } else {
      assert Sort(MatchLess, ms) == [];
    }
  }

  ghost predicate ProperIds(delegations: seq<Delegation>) {
    forall d <- delegations :: ProperId(d.delegationId)
  }

  lemma HopResolvedByRecord(k: Keys, r: ActionReceipt, delegations: seq<Delegation>, i: nat)
    requires i + 1 < |r.delegationChain| && ProperIds(delegations)
    ensures HopAt(k, r, delegations, i).delegationId != UNKNOWN <==>
      HasRecord(delegations, r.delegationChain[i], r.delegationChain[i + 1])
  {
    var from, to := r.delegationChain[i], r.delegationChain[i + 1];
    var ms, isTail := Matches(k, delegations, from, to), i == |r.delegationChain| - 2;
    hide Matches, MatchLess, HopAt;
    HopResolvedExactly(k, r, delegations, i);
    MatchesAre(k, delegations, from, to);
    if HasRecord(delegations, from, to) {
      var d :| d in delegations && Joins(d, from, to);
      assert IsMatch(k, delegations, from, to, Match(d, k.signing.VerifySignature(d)));
      assert ms != [];
      ChosenIsReported(ms, isTail, r.delegationId);
      var c := Chosen(Sort(MatchLess, ms), isTail, r.delegationId).value;
      assert c in ms && IsMatch(k, delegations, from, to, c);
    } else {
      forall m ensures m !in ms {
        assert !IsMatch(k, delegations, from, to, m);
      }
    }
  }

  // With proper ids, resolution is exactly a known principal and a record for
  // every one of at least one hop.
  lemma ResolvedExactly(k: Keys, r: ActionReceipt, delegations: seq<Delegation>, beneficiaries: map<string, Beneficiary>)
    requires ProperIds(delegations)
    ensures Resolved(k, r, delegations, beneficiaries) <==>
      && |r.delegationChain| > 1
      && r.delegationChain[0] in beneficiaries
      && forall i :: 0 <= i < |r.delegationChain| - 1 ==> HasRecord(delegations, r.delegationChain[i], r.delegationChain[i + 1])
  {
    hide HopAt, HasRecord;
    if Resolved(k, r, delegations, beneficiaries) {
      forall i | 0 <= i < |r.delegationChain| - 1
        ensures HasRecord(delegations, r.delegationChain[i], r.delegationChain[i + 1])
      {
        HopResolvedByRecord(k, r, delegations, i);
      }
    } else if |r.delegationChain| > 1 && r.delegationChain[0] in beneficiaries {
      var i :| 0 <= i < |r.delegationChain| - 1 && HopAt(k, r, delegations, i).delegationId == UNKNOWN;
      HopResolvedByRecord(k, r, delegations, i);
    }
  }

  lemma EmptyLeast(id: string)
    requires id != ""
    ensures Less("", id)
  {
  }

  lemma TwoMatches(k: Keys, d: Delegation, e: Delegation, from: string, to: string)
    requires Joins(d, from, to) && Joins(e, from, to)
    requires !k.signing.VerifySignature(d) && !k.signing.VerifySignature(e)
    ensures Matches(k, [d, e], from, to) == [Match(d, false), Match(e, false)]
  {
    assert [d, e][..1] == [d] && [d][..0] == [];
    assert Matches(k, [], from, to) == [];
    assert Matches(k, [d], from, to) == [Match(d, false)];
  }

  lemma EmptyIdReported(d: Delegation, e: Delegation, id: string, m: Match)
    requires d.delegationId != "" && e.delegationId == "" && id != d.delegationId
    requires Reported([Match(d, false), Match(e, false)], true, id, m)
    ensures m.del.delegationId == ""
  {
    EmptyLeast(d.delegationId);
    hide Less;
    var ms := [Match(d, false), Match(e, false)];
    assert ms[1] in ms && MatchLess(ms[1], ms[0]);
  }

  // With proper ids a further record never takes resolution back.
  lemma ResolvedMonotone(k: Keys, r: ActionReceipt, a: seq<Delegation>, b: seq<Delegation>, beneficiaries: map<string, Beneficiary>)
    requires forall d :: d in a ==> d in b
    requires ProperIds(b) && Resolved(k, r, a, beneficiaries)
    ensures Resolved(k, r, b, beneficiaries)
  {
    ResolvedExactly(k, r, a, beneficiaries);
    ResolvedExactly(k, r, b, beneficiaries);
    hide Resolved;
    forall i | 0 <= i < |r.delegationChain| - 1
      ensures HasRecord(b, r.delegationChain[i], r.delegationChain[i + 1])
    {
      assert HasRecord(a, r.delegationChain[i], r.delegationChain[i + 1]);
      var d :| d in a && Joins(d, r.delegationChain[i], r.delegationChain[i + 1]);
      assert d in b;
    }
  }

  // Without proper ids a further record can take resolution back: an unsigned
  // copy with an empty id sorts before the record it copies.
  lemma EmptyIdUnresolves(k: Keys, r: ActionReceipt, d: Delegation, beneficiaries: map<string, Beneficiary>)
    requires |r.delegationChain| == 2 && r.delegationChain[0] in beneficiaries
    requires Joins(d, r.delegationChain[0], r.delegationChain[1]) && ProperId(d.delegationId)
    requires !k.signing.VerifySignature(d) && r.delegationId != d.delegationId
    ensures Resolved(k, r, [d], beneficiaries)
    ensures !Resolved(k, r, [d, d.(delegationId := "", signature := "")], beneficiaries)
  {
    hide HopAt, Matches, Reported, Less, Sort, MatchLess;
    ResolvedExactly(k, r, [d], beneficiaries);
    var e := d.(delegationId := "", signature := "");
    TwoMatches(k, d, e, r.delegationChain[0], r.delegationChain[1]);
    HopResolvedExactly(k, r, [d, e], 0);
    assert d in [d];
    forall m | Reported([Match(d, false), Match(e, false)], true, r.delegationId, m) ensures !ProperId(m.del.delegationId) {
      EmptyIdReported(d, e, r.delegationId, m);
    }
    assert HopAt(k, r, [d, e], 0).delegationId == UNKNOWN;
  }
}

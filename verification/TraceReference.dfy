// What a trace reports, in terms of the recorded fields and signatures alone.
module TraceReference {
  import opened Prelude
  import opened Lexicographic
  import opened Sorting
  import opened StableSort
  import opened Delegations
  import opened Minter
  import opened MintReference
  import opened Trace
  import opened TraceProperties
  import opened TraceStability

  predicate Joining(r: ActionReceipt, i: nat, d: Delegation)
    requires i + 1 < |r.delegationChain|
  {
    d.delegatedBy == r.delegationChain[i] && d.delegatedTo == r.delegationChain[i + 1]
  }

  // On the last hop a record with the receipt's id shuts out every other.
  ghost predicate Candidate(r: ActionReceipt, records: seq<Delegation>, i: nat, d: Delegation)
    requires i + 1 < |r.delegationChain|
  {
    && d in records && Joining(r, i, d)
    && (i + 2 == |r.delegationChain| && (exists e <- records :: Joining(r, i, e) && e.delegationId == r.delegationId) ==>
          d.delegationId == r.delegationId)
  }

  // An authentic candidate goes before one that is not, then a lesser id.
  ghost predicate Best(k: Keys, r: ActionReceipt, records: seq<Delegation>, i: nat, d: Delegation)
    requires i + 1 < |r.delegationChain|
  {
    && Candidate(r, records, i, d)
    && forall e <- records :: Candidate(r, records, i, e) ==>
         && (Authentic(k.signing, e) ==> Authentic(k.signing, d))
         && (Authentic(k.signing, e) == Authentic(k.signing, d) ==> !Less(e.delegationId, d.delegationId))
  }

  ghost predicate FirstBest(k: Keys, r: ActionReceipt, records: seq<Delegation>, i: nat, n: nat)
    requires i + 1 < |r.delegationChain|
  {
    && n < |records| && Best(k, r, records, i, records[n])
    && forall m :: 0 <= m < n ==> !Best(k, r, records, i, records[m])
  }

  // The first best record is reported; a missing or empty id as "unknown".
  ghost predicate HopIs(k: Keys, r: ActionReceipt, records: seq<Delegation>, i: nat, hop: Hop)
    requires i + 1 < |r.delegationChain|
  {
    && hop.from == r.delegationChain[i] && hop.to == r.delegationChain[i + 1] && hop.depth == i
    && if exists d <- records :: Joining(r, i, d) then
         exists n: nat :: FirstBest(k, r, records, i, n) && hop.scope == records[n].scope
           && hop.delegationId == if records[n].delegationId == "" then "unknown" else records[n].delegationId
       else hop.delegationId == "unknown" && hop.scope == []
  }

  lemma AuthenticExactly(sg: Signing, d: Delegation)
    ensures sg.VerifySignature(d) <==> Authentic(sg, d)
  {
  }

  // ----- the choice among the matches

  // What the reported match is looked for among.
  function Picker(ms: seq<Match>, isTail: bool, id: string): Match -> bool {
    if isTail && exists n <- ms :: n.del.delegationId == id then (m: Match) => m.del.delegationId == id else (m: Match) => true
  }

  lemma {:induction false} IndexIsPick(ms: seq<Match>, id: string)
    ensures IndexOfId(ms, id) == PickIndex(ms, (m: Match) => m.del.delegationId == id)
  {
    if ms != [] && ms[0].del.delegationId != id {
      IndexIsPick(ms[1..], id);
    }
  }

  lemma ChosenIsPick(ms: seq<Match>, isTail: bool, id: string)
    requires ms != []
    ensures var ordered, pick := Sort(MatchLess, ms), Picker(ms, isTail, id);
      var i := PickIndex(ordered, pick);
      i < |ordered| ==> Chosen(ordered, isTail, id) == Some(ordered[i])
  {
    var ordered := Sort(MatchLess, ms);
    SameElements(ordered, ms);
    IndexIsPick(ordered, id);
  }

  lemma PickedReported(ms: seq<Match>, isTail: bool, id: string, m: Match)
    requires m in ms
    ensures Least(MatchLess, ms, Picker(ms, isTail, id), m) <==> Reported(ms, isTail, id, m)
  {
  }

  // The reported match is the first that may be.
  lemma ChosenFirst(ms: seq<Match>, isTail: bool, id: string) returns (j: nat)
    requires ms != []
    ensures j < |ms| && Chosen(Sort(MatchLess, ms), isTail, id) == Some(ms[j]) && Reported(ms, isTail, id, ms[j])
    ensures forall i :: 0 <= i < j ==> !Reported(ms, isTail, id, ms[i])
  {
    var pick := Picker(ms, isTail, id);
    MatchWeakOrder(ms);
    assert ms[0] in ms;
    assert exists x <- ms :: pick(x);
    j := SortPicks(MatchLess, ms, pick);
    ChosenIsPick(ms, isTail, id);
    forall i | 0 <= i < |ms| ensures Least(MatchLess, ms, pick, ms[i]) <==> Reported(ms, isTail, id, ms[i]) {
      PickedReported(ms, isTail, id, ms[i]);
    }
  }

  // ----- from matches to records

  // The first match with a property belongs to the first joining record whose
  // match has it.
  lemma {:induction false} FirstRecord(k: Keys, records: seq<Delegation>, from: string, to: string, p: Match -> bool, j: nat)
    returns (n: nat)
    requires var ms := Matches(k, records, from, to);
      j < |ms| && p(ms[j]) && forall i :: 0 <= i < j ==> !p(ms[i])
    ensures n < |records| && Joins(records[n], from, to) && MatchOf(k, records[n]) == Matches(k, records, from, to)[j]
    ensures forall m :: 0 <= m < n && Joins(records[m], from, to) ==> !p(MatchOf(k, records[m]))
  {
    var init, last := records[..|records| - 1], records[|records| - 1];
    var ms := Matches(k, init, from, to);
    var all := Matches(k, records, from, to);
    assert all == ms + if Joins(last, from, to) then [MatchOf(k, last)] else [];
    forall i | 0 <= i < j && i < |ms| ensures !p(ms[i]) {
      assert ms[i] == all[i];
    }
    if j < |ms| {
      n := FirstRecord(k, init, from, to, p, j);
      assert init[n] == records[n];
      forall m | 0 <= m < n && Joins(records[m], from, to) ensures !p(MatchOf(k, records[m])) {
        assert init[m] == records[m];
      }
    } else {
      n := |records| - 1;
      hide Matches;
      MatchesAre(k, init, from, to);
      forall m | 0 <= m < n && Joins(records[m], from, to) ensures !p(MatchOf(k, records[m])) {
        assert init[m] == records[m] && records[m] in init;
        assert IsMatch(k, init, from, to, MatchOf(k, records[m]));
        var i :| 0 <= i < |ms| && ms[i] == MatchOf(k, records[m]);
      }
    }
  }

  lemma MatchOfJoining(k: Keys, r: ActionReceipt, records: seq<Delegation>, i: nat, d: Delegation)
    requires i + 1 < |r.delegationChain| && d in records && Joining(r, i, d)
    ensures MatchOf(k, d) in HopMatches(k, r, records, i)
  {
    hide Matches;
    MatchesAre(k, records, r.delegationChain[i], r.delegationChain[i + 1]);
    assert IsMatch(k, records, r.delegationChain[i], r.delegationChain[i + 1], MatchOf(k, d));
  }

  lemma JoiningOfMatch(k: Keys, r: ActionReceipt, records: seq<Delegation>, i: nat, m: Match)
    requires i + 1 < |r.delegationChain| && m in HopMatches(k, r, records, i)
    ensures m.del in records && Joining(r, i, m.del) && m == MatchOf(k, m.del)
  {
    hide Matches;
    MatchesAre(k, records, r.delegationChain[i], r.delegationChain[i + 1]);
    assert IsMatch(k, records, r.delegationChain[i], r.delegationChain[i + 1], m);
  }

  lemma CandidateExactly(k: Keys, r: ActionReceipt, records: seq<Delegation>, i: nat, d: Delegation)
    requires i + 1 < |r.delegationChain| && d in records && Joining(r, i, d)
    ensures Candidate(r, records, i, d) <==>
      Eligible(HopMatches(k, r, records, i), i == |r.delegationChain| - 2, r.delegationId, MatchOf(k, d))
  {
    hide HopMatches, Joining;
    var ms := HopMatches(k, r, records, i);
    MatchOfJoining(k, r, records, i, d);
    if exists e <- records :: Joining(r, i, e) && e.delegationId == r.delegationId {
      var e :| e in records && Joining(r, i, e) && e.delegationId == r.delegationId;
      MatchOfJoining(k, r, records, i, e);
      assert MatchOf(k, e).del.delegationId == r.delegationId;
    }
    if exists n <- ms :: n.del.delegationId == r.delegationId {
      var n :| n in ms && n.del.delegationId == r.delegationId;
      JoiningOfMatch(k, r, records, i, n);
    }
  }

  lemma BestExactly(k: Keys, r: ActionReceipt, records: seq<Delegation>, i: nat, d: Delegation)
    requires i + 1 < |r.delegationChain| && d in records && Joining(r, i, d)
    ensures Best(k, r, records, i, d) <==> Reportable(k, r, records, i, MatchOf(k, d))
  {
    hide HopMatches, Joining, Candidate, Eligible, Authentic, Less;
    var ms, isTail := HopMatches(k, r, records, i), i == |r.delegationChain| - 2;
    CandidateExactly(k, r, records, i, d);
    AuthenticExactly(k.signing, d);
    forall e | e in records && Joining(r, i, e)
      ensures MatchOf(k, e) in ms && (Candidate(r, records, i, e) <==> Eligible(ms, isTail, r.delegationId, MatchOf(k, e)))
      ensures k.signing.VerifySignature(e) <==> Authentic(k.signing, e)
    {
      MatchOfJoining(k, r, records, i, e);
      CandidateExactly(k, r, records, i, e);
      AuthenticExactly(k.signing, e);
    }
    forall e | Candidate(r, records, i, e) ensures e in records && Joining(r, i, e) {
      CandidateJoins(r, records, i, e);
    }
    forall n | n in ms ensures n.del in records && Joining(r, i, n.del) && n == MatchOf(k, n.del) {
      JoiningOfMatch(k, r, records, i, n);
    }
  }

  lemma CandidateJoins(r: ActionReceipt, records: seq<Delegation>, i: nat, d: Delegation)
    requires i + 1 < |r.delegationChain| && Candidate(r, records, i, d)
    ensures d in records && Joining(r, i, d)
  {
  }

  // ----- the hop

  lemma FirstBestUnique(k: Keys, r: ActionReceipt, records: seq<Delegation>, i: nat, m: nat, n: nat)
    requires i + 1 < |r.delegationChain| && FirstBest(k, r, records, i, m) && FirstBest(k, r, records, i, n)
    ensures m == n
  {
    hide Best;
  }

  // The record a hop reports is the first best one.
  lemma ReportedRecord(k: Keys, r: ActionReceipt, records: seq<Delegation>, i: nat) returns (n: nat)
    requires i + 1 < |r.delegationChain| && HopMatches(k, r, records, i) != []
    ensures FirstBest(k, r, records, i, n)
    ensures Chosen(Sort(MatchLess, HopMatches(k, r, records, i)), i == |r.delegationChain| - 2, r.delegationId)
      == Some(MatchOf(k, records[n]))
  {
    hide Sort, Chosen, Matches, Best, Reported, MatchLess;
    var from, to := r.delegationChain[i], r.delegationChain[i + 1];
    var ms, isTail := HopMatches(k, r, records, i), i == |r.delegationChain| - 2;
    var j := ChosenFirst(ms, isTail, r.delegationId);
    var p := (m: Match) => Reported(ms, isTail, r.delegationId, m);
    n := FirstRecord(k, records, from, to, p, j);
    forall m | 0 <= m <= n && Joins(records[m], from, to)
      ensures Best(k, r, records, i, records[m]) <==> p(MatchOf(k, records[m]))
    {
      assert records[m] in records;
      BestExactly(k, r, records, i, records[m]);
    }
    forall m | 0 <= m < n ensures !Best(k, r, records, i, records[m]) {
      if Best(k, r, records, i, records[m]) {
        BestJoins(k, r, records, i, records[m]);
      }
    }
  }

  lemma BestJoins(k: Keys, r: ActionReceipt, records: seq<Delegation>, i: nat, d: Delegation)
    requires i + 1 < |r.delegationChain| && Best(k, r, records, i, d)
    ensures d in records && Joins(d, r.delegationChain[i], r.delegationChain[i + 1])
  {
  }

  lemma SomeMatch(k: Keys, r: ActionReceipt, records: seq<Delegation>, i: nat)
    requires i + 1 < |r.delegationChain|
    ensures HopMatches(k, r, records, i) != [] <==> exists d <- records :: Joining(r, i, d)
  {
    var ms := HopMatches(k, r, records, i);
    hide HopMatches, Joining;
    if ms != [] {
      JoiningOfMatch(k, r, records, i, ms[0]);
    }
    if exists d <- records :: Joining(r, i, d) {
      var d :| d in records && Joining(r, i, d);
      MatchOfJoining(k, r, records, i, d);
    }
  }

  // A hop reports exactly what is described.
  lemma HopMeans(k: Keys, r: ActionReceipt, records: seq<Delegation>, i: nat, hop: Hop)
    requires i + 1 < |r.delegationChain|
    ensures hop == HopAt(k, r, records, i) <==> HopIs(k, r, records, i, hop)
  {
    hide Sort, Matches, Joining, FirstBest;
    SomeMatch(k, r, records, i);
    if HopMatches(k, r, records, i) != [] {
      var n := ReportedRecord(k, r, records, i);
      forall m | FirstBest(k, r, records, i, m) ensures m == n {
        FirstBestUnique(k, r, records, i, m, n);
      }
    } else {
      assert Sort(MatchLess, HopMatches(k, r, records, i)) == [] by {
        NothingSorted();
      }
    }
  }

  lemma NothingSorted()
    ensures Sort(MatchLess, []) == []
  {
  }

  ghost predicate AuthenticRecord(k: Keys, r: ActionReceipt, records: seq<Delegation>, i: nat)
    requires i + 1 < |r.delegationChain|
  {
    exists d <- records :: Joining(r, i, d) && Authentic(k.signing, d)
  }

  lemma AuthenticHopExactly(k: Keys, r: ActionReceipt, records: seq<Delegation>, i: nat)
    requires i + 1 < |r.delegationChain|
    ensures HopAuthentic(k, r, records, i) <==> AuthenticRecord(k, r, records, i)
  {
    forall d ensures k.signing.VerifySignature(d) <==> Authentic(k.signing, d) {
      AuthenticExactly(k.signing, d);
    }
    hide Authentic;
  }

  // Verified: the executor at the tail signed the receipt, and every hop of at
  // least one has an authentic record.
  lemma VerifiedMeans(k: Keys, r: ActionReceipt, records: seq<Delegation>)
    ensures Verified(k, r, records) <==>
      && |r.delegationChain| > 1
      && r.version == "1.1" && k.receiptSigned(r, r.delegationChain[|r.delegationChain| - 1])
      && forall i :: 0 <= i < |r.delegationChain| - 1 ==> AuthenticRecord(k, r, records, i)
  {
    hide HopAuthentic, AuthenticRecord;
    forall i: nat | i + 1 < |r.delegationChain| ensures HopAuthentic(k, r, records, i) <==> AuthenticRecord(k, r, records, i) {
      AuthenticHopExactly(k, r, records, i);
    }
  }

  // Resolved: a known principal, and no hop that is reported as unknown.
  lemma ResolvedMeans(k: Keys, r: ActionReceipt, records: seq<Delegation>, beneficiaries: map<string, Beneficiary>)
    ensures Resolved(k, r, records, beneficiaries) <==>
      && |r.delegationChain| > 1 && r.delegationChain[0] in beneficiaries
      && forall i, hop :: 0 <= i < |r.delegationChain| - 1 && HopIs(k, r, records, i, hop) ==> hop.delegationId != "unknown"
  {
    hide HopAt, HopIs;
    forall i: nat, hop | i + 1 < |r.delegationChain| ensures hop == HopAt(k, r, records, i) <==> HopIs(k, r, records, i, hop) {
      HopMeans(k, r, records, i, hop);
    }
    forall i: nat | i + 1 < |r.delegationChain| ensures HopIs(k, r, records, i, HopAt(k, r, records, i)) {
    }
  }
}

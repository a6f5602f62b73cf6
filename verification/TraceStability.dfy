// When the reported lineage depends on which of two tied records came first.
module TraceStability {
  import opened Prelude
  import opened Lexicographic
  import opened Sorting
  import opened Delegations
  import opened Trace
  import opened TraceProperties

  function MatchOf(k: Keys, d: Delegation): Match {
    Match(d, k.signing.VerifySignature(d))
  }

  function HopMatches(k: Keys, r: ActionReceipt, delegations: seq<Delegation>, i: nat): seq<Match>
    requires i + 1 < |r.delegationChain|
  {
    Matches(k, delegations, r.delegationChain[i], r.delegationChain[i + 1])
  }

  // `m` may be reported at hop `i`.
  ghost predicate Reportable(k: Keys, r: ActionReceipt, delegations: seq<Delegation>, i: nat, m: Match)
    requires i + 1 < |r.delegationChain|
  {
    Reported(HopMatches(k, r, delegations, i), i == |r.delegationChain| - 2, r.delegationId, m)
  }

  ghost predicate OneScope(k: Keys, r: ActionReceipt, delegations: seq<Delegation>, i: nat)
    requires i + 1 < |r.delegationChain|
  {
    forall m, n :: Reportable(k, r, delegations, i, m) && Reportable(k, r, delegations, i, n) ==> m.del.scope == n.del.scope
  }

  lemma {:induction false} MatchesOfCons(k: Keys, d: Delegation, rest: seq<Delegation>, from: string, to: string)
    requires Joins(d, from, to)
    ensures Matches(k, [d] + rest, from, to) == [MatchOf(k, d)] + Matches(k, rest, from, to)
  {
    var all := [d] + rest;
    if rest == [] {
      assert all[..0] == [];
    } else {
      var init := rest[..|rest| - 1];
      assert all[..|all| - 1] == [d] + init && all[|all| - 1] == rest[|rest| - 1];
      MatchesOfCons(k, d, init, from, to);
    }
  }

  // Insertion puts `m` before every match with its id it is tied with.
  lemma {:induction false} InsertedWithId(m: Match, s: seq<Match>, id: string)
    requires m.del.delegationId == id
    requires forall y <- s :: y.del.delegationId == id ==> !MatchLess(y, m)
    ensures var t := Insert(MatchLess, m, s); IndexOfId(t, id) < |t| && t[IndexOfId(t, id)] == m
  {
    if s != [] && MatchLess(s[0], m) {
      assert s[0] in s;
      InsertedWithId(m, s[1..], id);
      assert Insert(MatchLess, m, s)[1..] == Insert(MatchLess, m, s[1..]);
    }
  }

  // A match that may be reported is reported when it comes first.
  lemma FrontChosen(m: Match, ms: seq<Match>, isTail: bool, receiptDelegation: string)
    requires Reported([m] + ms, isTail, receiptDelegation, m)
    ensures Chosen(Sort(MatchLess, [m] + ms), isTail, receiptDelegation) == Some(m)
  {
    var all, s := [m] + ms, Sort(MatchLess, ms);
    assert all[1..] == ms;
    assert Sort(MatchLess, all) == Insert(MatchLess, m, s);
    SameElements(s, ms);
    SameElements(Sort(MatchLess, all), all);
    if isTail && exists n <- all :: n.del.delegationId == receiptDelegation {
      forall y | y in s && y.del.delegationId == receiptDelegation ensures !MatchLess(y, m) {
        assert y in all && Eligible(all, isTail, receiptDelegation, y);
      }
      InsertedWithId(m, s, receiptDelegation);
    } else if s != [] {
      assert s[0] in ms && s[0] in all;
      assert Eligible(all, isTail, receiptDelegation, s[0]);
    }
  }

  lemma ReportedOfSet(ms: seq<Match>, ns: seq<Match>, isTail: bool, receiptDelegation: string, m: Match)
    requires forall n :: n in ms <==> n in ns
    requires Reported(ms, isTail, receiptDelegation, m)
    ensures Reported(ns, isTail, receiptDelegation, m)
  {
    forall n | n in ns ensures n in ms {}
    assert forall n :: Eligible(ms, isTail, receiptDelegation, n) <==> Eligible(ns, isTail, receiptDelegation, n);
  }

  lemma FrontReported(k: Keys, r: ActionReceipt, d: Delegation, rest: seq<Delegation>, i: nat)
    requires i + 1 < |r.delegationChain|
    requires Joins(d, r.delegationChain[i], r.delegationChain[i + 1])
    requires Reportable(k, r, [d] + rest, i, MatchOf(k, d))
    ensures HopAt(k, r, [d] + rest, i).scope == d.scope
  {
    hide Reported, Matches, Sort, Chosen;
    MatchesOfCons(k, d, rest, r.delegationChain[i], r.delegationChain[i + 1]);
    FrontChosen(MatchOf(k, d), HopMatches(k, r, rest, i), i == |r.delegationChain| - 2, r.delegationId);
  }

  // The list with its record `j` moved to the front.
  function Fronted<T>(s: seq<T>, j: nat): (f: seq<T>)
    requires j < |s|
    ensures multiset(f) == multiset(s)
  {
    Without(s, j);
    [s[j]] + (s[..j] + s[j + 1..])
  }

  lemma SameMatches(k: Keys, r: ActionReceipt, a: seq<Delegation>, b: seq<Delegation>, i: nat, m: Match)
    requires i + 1 < |r.delegationChain| && multiset(a) == multiset(b)
    requires Reportable(k, r, a, i, m)
    ensures Reportable(k, r, b, i, m)
  {
    SameElements(a, b);
    hide Reported, Matches;
    MatchesOfRecords(k, a, b, r.delegationChain[i], r.delegationChain[i + 1]);
    ReportedOfSet(HopMatches(k, r, a, i), HopMatches(k, r, b, i), i == |r.delegationChain| - 2, r.delegationId, m);
  }

  // Whatever may be reported is, under some order of the same records.
  lemma SomeOrderReports(k: Keys, r: ActionReceipt, a: seq<Delegation>, i: nat, m: Match) returns (b: seq<Delegation>)
    requires i + 1 < |r.delegationChain| && Reportable(k, r, a, i, m)
    ensures multiset(b) == multiset(a) && HopAt(k, r, b, i).scope == m.del.scope
  {
    hide Matches, HopAt;
    MatchesAre(k, a, r.delegationChain[i], r.delegationChain[i + 1]);
    assert IsMatch(k, a, r.delegationChain[i], r.delegationChain[i + 1], m);
    hide Reported;
    var j :| 0 <= j < |a| && a[j] == m.del;
    b := Fronted(a, j);
    SameMatches(k, r, a, b, i, m);
    FrontReported(k, r, a[j], a[..j] + a[j + 1..], i);
  }

  lemma HopReports(k: Keys, r: ActionReceipt, a: seq<Delegation>, i: nat) returns (m: Match)
    requires i + 1 < |r.delegationChain| && HopMatches(k, r, a, i) != []
    ensures Reportable(k, r, a, i, m) && HopAt(k, r, a, i).scope == m.del.scope
  {
    var ms, isTail := HopMatches(k, r, a, i), i == |r.delegationChain| - 2;
    ChosenIsReported(ms, isTail, r.delegationId);
    m := Chosen(Sort(MatchLess, ms), isTail, r.delegationId).value;
  }

  lemma StableHop(k: Keys, r: ActionReceipt, a: seq<Delegation>, b: seq<Delegation>, i: nat)
    requires i + 1 < |r.delegationChain| && multiset(a) == multiset(b) && OneScope(k, r, a, i)
    ensures HopAt(k, r, b, i) == HopAt(k, r, a, i)
  {
    SameElements(a, b);
    hide Matches, Sort, Chosen, Reported;
    MatchesOfRecords(k, a, b, r.delegationChain[i], r.delegationChain[i + 1]);
    HopIdOfRecords(k, r, a, b, i);
    var ms, ns := HopMatches(k, r, a, i), HopMatches(k, r, b, i);
    assert ms != [] ==> ms[0] in ns;
    assert ns != [] ==> ns[0] in ms;
    if ms == [] {
      assert ns == ms;
    } else {
      var m := HopReports(k, r, a, i);
      var n := HopReports(k, r, b, i);
      SameMatches(k, r, b, a, i, n);
    }
  }

  // The reported lineage is the same under every order of the records exactly
  // when at every hop all records that may be reported have one scope.
  lemma LineageStableExactly(k: Keys, r: ActionReceipt, a: seq<Delegation>)
    ensures (forall b :: multiset(b) == multiset(a) ==> Hops(k, r, b) == Hops(k, r, a)) <==>
            (forall i: nat :: i + 1 < |r.delegationChain| ==> OneScope(k, r, a, i))
  {
    hide HopAt, Reportable;
    if forall i: nat :: i + 1 < |r.delegationChain| ==> OneScope(k, r, a, i) {
      hide OneScope;
      forall b | multiset(b) == multiset(a) ensures Hops(k, r, b) == Hops(k, r, a) {
        forall i: nat | i + 1 < |r.delegationChain| ensures HopAt(k, r, b, i) == HopAt(k, r, a, i) {
          StableHop(k, r, a, b, i);
        }
      }
    }
    if forall b :: multiset(b) == multiset(a) ==> Hops(k, r, b) == Hops(k, r, a) {
      forall i: nat, m, n | i + 1 < |r.delegationChain| && Reportable(k, r, a, i, m) && Reportable(k, r, a, i, n)
        ensures m.del.scope == n.del.scope
      {
        var b := SomeOrderReports(k, r, a, i, m);
        var c := SomeOrderReports(k, r, a, i, n);
        assert Hops(k, r, b)[i] == Hops(k, r, c)[i];
      }
    }
  }

  lemma TiedReportable(k: Keys, r: ActionReceipt, d: Delegation, e: Delegation)
    requires |r.delegationChain| == 2
    requires Joins(d, r.delegationChain[0], r.delegationChain[1]) && Joins(e, r.delegationChain[0], r.delegationChain[1])
    requires d.delegationId == e.delegationId && k.signing.VerifySignature(d) == k.signing.VerifySignature(e)
    ensures Reportable(k, r, [d, e], 0, MatchOf(k, d))
  {
    var from, to := r.delegationChain[0], r.delegationChain[1];
    assert [d, e] == [d] + [e] && [e] == [e] + [];
    MatchesOfCons(k, d, [e], from, to);
    MatchesOfCons(k, e, [], from, to);
    var ms := HopMatches(k, r, [d, e], 0);
    assert ms == [MatchOf(k, d), MatchOf(k, e)];
    assert ms[0] in ms;
    LessIrreflexive(d.delegationId);
  }

  // Two records of one id, both signed or both not, are reported by whichever
  // comes first.
  lemma ScopeFollowsOrder(k: Keys, r: ActionReceipt, d: Delegation, e: Delegation)
    requires |r.delegationChain| == 2
    requires Joins(d, r.delegationChain[0], r.delegationChain[1]) && Joins(e, r.delegationChain[0], r.delegationChain[1])
    requires d.delegationId == e.delegationId && k.signing.VerifySignature(d) == k.signing.VerifySignature(e)
    ensures HopAt(k, r, [d, e], 0).scope == d.scope
    ensures HopAt(k, r, [e, d], 0).scope == e.scope
  {
    TiedReportable(k, r, d, e);
    TiedReportable(k, r, e, d);
    hide HopAt, Reportable;
    assert [d, e] == [d] + [e] && [e, d] == [e] + [d];
    FrontReported(k, r, d, [e], 0);
    FrontReported(k, r, e, [d], 0);
  }
}

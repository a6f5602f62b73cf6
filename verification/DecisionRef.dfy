// NormalizeCoreDecisionOutputV1 of receiptcore/decision_ref.go.
module DecisionRef {
  import opened Prelude
  import opened Lexicographic
  import opened Sorting
  import opened Utf8
  import opened Jcs
  import opened StrictJson
  import opened ActionRef
  import Hex

  datatype CoreDecisionOutput = CoreDecisionOutput(
    profile: string,
    verdict: string,
    effectiveAuthorityRef: Option<string>,
    constraints: seq<string>,
    validUntil: Option<string>
  )

  // The normalization form, and isExactUTCMilliseconds.
  datatype Rules = Rules(nfc: string -> string, exactMilliseconds: string -> bool) {
    // What Unicode promises of a normalization form on scalar strings.
    ghost predicate Sound() {
      Idempotent(nfc) && forall s :: Valid(s) ==> Valid(nfc(s))
    }
  }

  // A denial carries neither authority nor expiry, everything else both.
  ghost predicate WellFormed(rules: Rules, o: CoreDecisionOutput) {
    && o.profile == "aps-core-decision-output-v1"
    && o.verdict in {"permit", "deny", "narrow"}
    && (o.verdict == "deny" ==> o.effectiveAuthorityRef.None? && o.validUntil.None?)
    && (o.verdict != "deny" ==>
          && o.effectiveAuthorityRef.Some? && Hex.Hex64(o.effectiveAuthorityRef.value)
          && o.validUntil.Some? && rules.exactMilliseconds(o.validUntil.value))
    && (forall c <- o.constraints :: Valid(c))
  }

  ghost predicate NormalForm(rules: Rules, o: CoreDecisionOutput, r: CoreDecisionOutput) {
    r == o.(constraints := r.constraints) && Canonical(rules.nfc, o.constraints, r.constraints)
  }

  method NormalizeCoreDecisionOutputV1(rules: Rules, input: CoreDecisionOutput) returns (r: Option<CoreDecisionOutput>)
    ensures r.Some? <==> WellFormed(rules, input)
    ensures r.Some? ==> NormalForm(rules, input, r.value)
  {
    hide Less, Valid;
    if input.profile != "aps-core-decision-output-v1" ||
       (input.verdict != "permit" && input.verdict != "deny" && input.verdict != "narrow") {
      return None;
    }
    if input.verdict == "deny" && input.effectiveAuthorityRef.Some? {
      return None;
    }
    if input.verdict != "deny" && (input.effectiveAuthorityRef.None? || !Hex.Hex64(input.effectiveAuthorityRef.value)) {
      return None;
    }
    if input.verdict == "deny" && input.validUntil.Some? {
      return None;
    }
    if input.verdict != "deny" && (input.validUntil.None? || !rules.exactMilliseconds(input.validUntil.value)) {
      return None;
    }
    var values: set<string> := {};
    for i := 0 to |input.constraints|
      invariant forall x :: x in values <==> x in Normalized(rules.nfc, input.constraints[..i])
      invariant forall k :: 0 <= k < i ==> Valid(input.constraints[k])
    {
      var constraint := input.constraints[i];
      if StrictJcs(Text(constraint)).None? {
        assert constraint in input.constraints;
        return None;
      }
      values := values + {rules.nfc(constraint)};
      assert Normalized(rules.nfc, input.constraints[..i + 1]) ==
             Normalized(rules.nfc, input.constraints[..i]) + [rules.nfc(constraint)];
    }
    assert input.constraints[..|input.constraints|] == input.constraints;
    var constraints := Drain(values);
    BytesTotalOrder(constraints);
    var sorted := LibrarySort(Less, constraints);
    SortedDistinct(constraints, sorted);
    return Some(input.(constraints := sorted));
  }

  // Iteration over a map used as a set: any order.
  method Drain(values: set<string>) returns (r: seq<string>)
    ensures Distinct(r) && forall x :: x in r <==> x in values
  {
    r := [];
    var rest := values;
    while rest != {}
      invariant rest <= values && Distinct(r)
      invariant forall x :: x in r <==> x in values && x !in rest
    {
      var value :| value in rest;
      r, rest := r + [value], rest - {value};
    }
  }

  // A normal form is well formed and its own normal form.
  lemma NormalFormStable(rules: Rules, o: CoreDecisionOutput, r: CoreDecisionOutput)
    requires rules.Sound() && WellFormed(rules, o) && NormalForm(rules, o, r)
    ensures WellFormed(rules, r) && NormalForm(rules, r, r)
  {
    NormalConstraintsValid(rules, o, r);
    CanonicalIdempotent(rules.nfc, o.constraints, r.constraints);
  }

  lemma NormalConstraintsValid(rules: Rules, o: CoreDecisionOutput, r: CoreDecisionOutput)
    requires rules.Sound() && WellFormed(rules, o) && NormalForm(rules, o, r)
    ensures forall c <- r.constraints :: Valid(c)
    ensures forall i, j :: 0 <= i < j < |r.constraints| ==> LexLess(Runes(r.constraints[i]), Runes(r.constraints[j]))
  {
    hide Valid, Less;
    forall c | c in r.constraints ensures Valid(c) {
      assert c in Normalized(rules.nfc, o.constraints);
      var j :| 0 <= j < |o.constraints| && Normalized(rules.nfc, o.constraints)[j] == c;
      assert o.constraints[j] in o.constraints;
    }
    AscendsByCodePoint(r.constraints);
  }

  // Outputs that differ in the order, repetition or spelling of constraints,
  // and only those, share a normal form.
  lemma NormalFormExactly(rules: Rules, o: CoreDecisionOutput, p: CoreDecisionOutput, r: CoreDecisionOutput, t: CoreDecisionOutput)
    requires NormalForm(rules, o, r) && NormalForm(rules, p, t)
    ensures r == t <==>
      && o.(constraints := []) == p.(constraints := [])
      && forall x :: x in Normalized(rules.nfc, o.constraints) <==> x in Normalized(rules.nfc, p.constraints)
  {
    CanonicalExactly(rules.nfc, o.constraints, p.constraints, r.constraints, t.constraints);
  }
}

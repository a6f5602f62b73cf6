// Creation and verification of receipts agree.
module ReceiptAgreement {
  import opened Prelude
  import opened Lexicographic
  import opened Sorting
  import opened Jcs
  import opened StrictJson
  import opened Digest256
  import opened Receipts
  import Hex

  // ----- VerifyReceiptV1

  datatype SignatureResult = SignatureResult(signer: string, keyId: string, valid: bool, reason: string)

  datatype Verification = Verification(
    valid: bool, receiptIdValid: bool, signatureResults: seq<SignatureResult>, errors: seq<string>)

  type Resolver = (string, string, string) -> Option<string>

  predicate ProofValid(env: Env, resolve: Resolver, r: Receipt, p: Signature) {
    && resolve(p.signer, p.keyId, r.issuedAt).Some?
    && SignaturePayload(r, p).Some?
    && env.verify(SignaturePayload(r, p).value, p.value, resolve(p.signer, p.keyId, r.issuedAt).value)
  }

  function ResultFor(env: Env, resolve: Resolver, r: Receipt, p: Signature): SignatureResult {
    SignatureResult(p.signer, p.keyId, ProofValid(env, resolve, r, p),
                    if resolve(p.signer, p.keyId, r.issuedAt).None? then "key_unresolved" else "")
  }

  ghost predicate Verifies(env: Env, resolve: Resolver, r: Receipt)
    requires FixedDigest(env.sha256)
  {
    && Valid(env, r, true)
    && ReceiptId(env, r) == Some(r.receiptId)
    && forall i :: 0 <= i < |r.signatures.value| ==> ProofValid(env, resolve, r, r.signatures.value[i])
  }

  method VerifyReceiptV1(env: Env, r: Receipt, resolve: Resolver) returns (v: Verification)
    requires FixedDigest(env.sha256)
    ensures v.valid <==> Verifies(env, resolve, r)
    ensures v.receiptIdValid <==> Valid(env, r, true) && ReceiptId(env, r) == Some(r.receiptId)
    ensures Valid(env, r, true) ==>
      && |v.signatureResults| == |r.signatures.value|
      && forall i :: 0 <= i < |v.signatureResults| ==>
           v.signatureResults[i] == ResultFor(env, resolve, r, r.signatures.value[i])
  {
    hide Valid, ReceiptId, SignaturePayload;
    var ok := ValidateReceiptV1(env, r, true);
    if !ok {
      return Verification(false, false, [], ["invalid receipt"]);
    }
    ValidHasSignatures(env, r);
    var idValid := ReceiptId(env, r) == Some(r.receiptId);
    var errors: seq<string> := if idValid then [] else ["receipt_id_mismatch"];
    var results: seq<SignatureResult> := [];
    for i := 0 to |r.signatures.value|
      invariant |results| == i
      invariant forall k :: 0 <= k < i ==> results[k] == ResultFor(env, resolve, r, r.signatures.value[k])
      invariant errors == [] <==> idValid && forall k :: 0 <= k < i ==> ProofValid(env, resolve, r, r.signatures.value[k])
    {
      var p := r.signatures.value[i];
      var publicKey := resolve(p.signer, p.keyId, r.issuedAt);
      var item := SignatureResult(p.signer, p.keyId, false, "");
      if publicKey.None? {
        item := item.(reason := "key_unresolved");
      } else {
        var payload := SignaturePayload(r, p);
        item := item.(valid := payload.Some? && env.verify(payload.value, p.value, publicKey.value));
      }
      if !item.valid {
        errors := errors + ["signature_invalid"];
      }
      results := results + [item];
    }
    return Verification(errors == [], idValid, results, errors);
  }

  lemma ValidHasSignatures(env: Env, r: Receipt)
    requires Valid(env, r, true)
    ensures r.signatures.Some?
  {
  }

  // ----- a created receipt verifies

  // A fresh signature verifies under the key the resolver gives its signer.
  ghost predicate ResolvesSigners(env: Env, resolve: Resolver, issuedAt: string, signers: seq<Signer>) {
    forall i :: 0 <= i < |signers| ==> ResolvesSigner(env, resolve, issuedAt, signers[i])
  }

  ghost predicate ResolvesSigner(env: Env, resolve: Resolver, issuedAt: string, s: Signer) {
    && resolve(s.signer, s.keyId, issuedAt).Some?
    && forall m :: env.sign(m, s.privateKey).Some? ==>
         env.verify(m, env.sign(m, s.privateKey).value, resolve(s.signer, s.keyId, issuedAt).value)
  }

  lemma CreatedReceiptVerifies(env: Env, resolve: Resolver, fields: Receipt, signers: seq<Signer>, r: Receipt)
    requires FixedDigest(env.sha256) && Creates(env, fields, signers, r)
    requires ResolvesSigners(env, resolve, fields.issuedAt, signers)
    ensures Verifies(env, resolve, r)
  {
    hide Created, ProofValid, ReceiptId;
    var refs, order :| Arranged(fields, signers, refs, order) && Created(env, fields, refs, order, r);
    SameElements(order, signers);
    forall i | 0 <= i < |order| ensures ResolvesSigner(env, resolve, fields.issuedAt, order[i]) {
      assert order[i] in signers;
      var j :| 0 <= j < |signers| && signers[j] == order[i];
    }
    SignedReceiptVerifies(env, resolve, fields, refs, order, r);
  }

  lemma SignedReceiptVerifies(env: Env, resolve: Resolver, fields: Receipt, refs: seq<EvidenceRef>,
                               signers: seq<Signer>, r: Receipt)
    requires FixedDigest(env.sha256) && Created(env, fields, refs, signers, r)
    requires ResolvesSigners(env, resolve, fields.issuedAt, signers)
    ensures Verifies(env, resolve, r)
  {
    hide Valid, SignaturePayload, ReceiptId, ReceiptValue;
    var prepared := Prepared(fields, refs);
    var id := ReceiptId(env, prepared);
    var identified := prepared.(receiptId := id.value);
    var proofs := SignAll(env, identified, signers).value;
    IdIgnoresIdAndSignatures(env, prepared, id.value, proofs);
    forall i | 0 <= i < |proofs| ensures ProofValid(env, resolve, r, proofs[i]) {
      SignAllAt(env, identified, signers, i);
      PayloadIgnoresSignatures(identified, proofs, proofs[i]);
      assert proofs[i].(value := "") == Descriptor(signers[i]);
    }
  }

  lemma IdIgnoresIdAndSignatures(env: Env, r: Receipt, id: string, proofs: seq<Signature>)
    requires FixedDigest(env.sha256)
    ensures ReceiptId(env, r.(receiptId := id, signatures := Some(proofs))) == ReceiptId(env, r)
  {
    var s := r.(receiptId := id, signatures := Some(proofs));
    assert ReceiptValue(s, false, false) == ReceiptValue(r, false, false);
  }

  // A receipt without evidence can be validated but never created: the copy of
  // an empty list is nil.
  lemma NothingCreatedWithoutEvidence(env: Env, fields: Receipt, signers: seq<Signer>, r: Receipt)
    requires FixedDigest(env.sha256) && Creates(env, fields, signers, r)
    ensures Elements(fields.evidenceRefs) != []
    ensures r.evidenceRefs.Some? && multiset(r.evidenceRefs.value) == multiset(Elements(fields.evidenceRefs))
  {
    var refs, order :| Arranged(fields, signers, refs, order) && Created(env, fields, refs, order, r);
    assert refs != [];
    SameElements(refs, Elements(fields.evidenceRefs));
  }

  lemma WithoutEvidenceHeader(env: Env, r: Receipt, requireValues: bool)
    requires HeaderOk(env, r, requireValues)
    ensures HeaderOk(env, r.(evidenceRefs := Some([])), requireValues) && RefsOk([])
  {
  }

  lemma WithoutEvidenceMembers(r: Receipt)
    ensures var s := r.(evidenceRefs := Some([]));
      && "evidence_refs" in BodyMembers(r)
      && BodyMembers(s) == BodyMembers(r)["evidence_refs" := Slice([])]
      && ExtraMembers(s, true, true) == ExtraMembers(r, true, true)
  {
    assert BodyMembers(r.(evidenceRefs := Some([])))["evidence_refs"].items == [];
  }

  lemma StrictReplaced(m: map<string, GoValue>, more: map<string, GoValue>, k: string, v: GoValue)
    requires k in m && Strict(Map(m + more)) && Strict(v)
    ensures Strict(Map(m[k := v] + more))
  {
    var old', new' := Map(m + more), Map(m[k := v] + more);
    forall key | key in new'.members ensures key in old'.members && Strict(new'.members[key]) {
      assert key in old'.members;
    }
  }

  lemma WithoutEvidenceStrict(r: Receipt)
    requires Strict(ReceiptValue(r, true, true))
    ensures Strict(ReceiptValue(r.(evidenceRefs := Some([])), true, true))
  {
    WithoutEvidenceMembers(r);
    hide BodyMembers, ExtraMembers;
    StrictReplaced(BodyMembers(r), ExtraMembers(r, true, true), "evidence_refs", Slice([]));
  }

  // Dropping the evidence of a valid receipt leaves it valid.
  lemma EvidenceNotRequired(env: Env, r: Receipt, requireValues: bool)
    requires Valid(env, r, requireValues)
    ensures Valid(env, r.(evidenceRefs := Some([])), requireValues)
  {
    hide HeaderOk, RefsOk, SignaturesOk, IssuerSigned, ReceiptValue;
    WithoutEvidenceStrict(r);
    WithoutEvidenceHeader(env, r, requireValues);
  }

  // ----- order independence

  // The same evidence and the same signers, supplied in any other order, make
  // that receipt too, and no other.
  lemma CreatedReceiptUnique(env: Env, fields: Receipt, fields': Receipt, signers: seq<Signer>, signers': seq<Signer>,
                             r: Receipt, r': Receipt)
    requires FixedDigest(env.sha256)
    requires fields' == fields.(evidenceRefs := fields'.evidenceRefs)
    requires multiset(Elements(fields.evidenceRefs)) == multiset(Elements(fields'.evidenceRefs))
    requires multiset(signers) == multiset(signers')
    requires Creates(env, fields, signers, r)
    ensures Creates(env, fields', signers', r') <==> r' == r
  {
    hide Created;
    var refs, order :| Arranged(fields, signers, refs, order) && Created(env, fields, refs, order, r);
    assert Arranged(fields', signers', refs, order);
    CreatedIgnoresRefs(env, fields, fields', refs, order, r);
    if Creates(env, fields', signers', r') {
      var refs', order' :| Arranged(fields', signers', refs', order') && Created(env, fields', refs', order', r');
      ArrangementUnique(env, fields', signers', refs', order', refs, order, r');
      assert Created(env, fields', refs, order, r) && Created(env, fields', refs, order, r');
      CreatedOnce(env, fields', refs, order, r, r');
    }
  }

  lemma CreatedIgnoresRefs(env: Env, fields: Receipt, fields': Receipt, refs: seq<EvidenceRef>, order: seq<Signer>, r: Receipt)
    requires FixedDigest(env.sha256) && fields' == fields.(evidenceRefs := fields'.evidenceRefs)
    ensures Created(env, fields, refs, order, r) == Created(env, fields', refs, order, r)
  {
    assert Prepared(fields, refs) == Prepared(fields', refs);
    hide Prepared;
  }

  lemma CreatedOnce(env: Env, fields: Receipt, refs: seq<EvidenceRef>, order: seq<Signer>, r: Receipt, r': Receipt)
    requires FixedDigest(env.sha256) && Created(env, fields, refs, order, r) && Created(env, fields, refs, order, r')
    ensures r == r'
  {
    hide Receipts.Valid, ReceiptId, SignAll;
  }

  // ----- the order sorted by and the order validated by

  // b is a followed by NUL and more.
  predicate NulExtends(a: string, b: string) {
    a + NUL <= b
  }

  lemma LessAppend(p: string, a: string, b: string)
    ensures Less(p + a, p + b) == Less(a, b)
  {
    CodesAppend(p, a);
    CodesAppend(p, b);
    LexCommonPrefix(Codes(p), Codes(a), Codes(b));
  }

  lemma LessByHead(a: string, b: string)
    requires a != "" && b != "" && a[0] != b[0]
    ensures Less(a, b) <==> a[0] < b[0]
  {
  }

  // Neither first component NUL-extends the other: sorting pairs and sorting
  // the joined keys is the same.
  lemma {:induction false} OrdersAgree(a: string, b: string, c: string, d: string)
    requires !NulExtends(a, c) && !NulExtends(c, a)
    ensures PairLess(a, b, c, d) == Less(a + NUL + b, c + NUL + d)
    decreases |a|
  {
    assert a + NUL + b == a + (NUL + b) && c + NUL + d == c + (NUL + d);
    if a == c {
      LessAppend(a, NUL + b, c[|a|..] + NUL + d);
      LessAppend(NUL, b, d);
      assert a + (NUL + b) == a + NUL + b;
      LessAppend(a + NUL, b, d);
    } else if a == "" {
      assert a + NUL + b == NUL + b && (c + NUL + d)[0] == c[0];
      assert a + NUL == NUL && (c[0] == NUL[0] ==> NUL <= c);
      LessByHead(NUL + b, c + NUL + d);
      assert Less("", c);
    } else if c == "" {
      assert c + NUL + d == NUL + d && (a + NUL + b)[0] == a[0];
      assert c + NUL == NUL && (a[0] == NUL[0] ==> NUL <= a);
      LessByHead(a + NUL + b, NUL + d);
    } else if a[0] != c[0] {
      LessByHead(a, c);
      LessByHead(a + NUL + b, c + NUL + d);
    } else {
      var h, s, t := [a[0]], a[1..], c[1..];
      assert a == h + s && c == h + t;
      assert s + NUL <= t ==> a + NUL <= c;
      assert t + NUL <= s ==> c + NUL <= a;
      OrdersAgree(s, b, t, d);
      LessAppend(h, s, t);
      LessAppend(h, s + NUL + b, t + NUL + d);
      assert a + NUL + b == h + (s + NUL + b) && c + NUL + d == h + (t + NUL + d);
    }
  }

  // Otherwise the pair order puts the shorter first, and the joined keys agree
  // only if its second component sorts below what follows the NUL.
  lemma OrdersUnderNulExtension(a: string, b: string, u: string, d: string)
    ensures PairLess(a, b, a + NUL + u, d)
    ensures Less(a + NUL + b, (a + NUL + u) + NUL + d) <==> Less(b, u + NUL + d)
  {
    assert a + "" == a;
    assert a + NUL + u == a + (NUL + u);
    LessAppend(a, "", NUL + u);
    assert (a + NUL + u) + NUL + d == (a + NUL) + (u + NUL + d);
    LessAppend(a + NUL, b, u + NUL + d);
  }

  // The first component of (c, d) extends a by NUL only if what follows it,
  // with d, sorts above b.
  predicate ExtendsAbove(a: string, b: string, c: string, d: string) {
    NulExtends(a, c) ==> Less(b, c[|a| + 1..] + NUL + d)
  }

  // For pairs in sorted order the joined keys ascend exactly when the pairs
  // differ and no NUL extension undoes the order.
  lemma KeysAscendExactly(a: string, b: string, c: string, d: string)
    requires !PairLess(c, d, a, b)
    ensures Less(a + NUL + b, c + NUL + d) <==> (a != c || b != d) && ExtendsAbove(a, b, c, d)
  {
    PairTotal(a, b, c, d);
    if a == c && b == d {
      LessIrreflexive(a + NUL + b);
    } else if NulExtends(a, c) {
      var u := c[|a| + 1..];
      assert c == a + NUL + u;
      OrdersUnderNulExtension(a, b, u, d);
    } else {
      if NulExtends(c, a) {
        var u := a[|c| + 1..];
        assert a == c + NUL + u;
        OrdersUnderNulExtension(c, d, u, b);
      }
      OrdersAgree(a, b, c, d);
    }
  }

  // Sorted references satisfy the validator's order check exactly when they
  // are distinct and no type extends an earlier one by NUL the wrong way.
  lemma SortedRefsAscendExactly(refs: seq<EvidenceRef>)
    requires Ordered(RefLess, refs)
    ensures Ascending(RefKey, refs) <==>
      forall i, j :: 0 <= i < j < |refs| ==>
        && refs[i] != refs[j]
        && ExtendsAbove(refs[i].artifactType, refs[i].sha256, refs[j].artifactType, refs[j].sha256)
  {
    hide ExtendsAbove, Less;
    forall i, j | 0 <= i < j < |refs|
      ensures Less(RefKey(refs[i]), RefKey(refs[j])) <==>
        && refs[i] != refs[j]
        && ExtendsAbove(refs[i].artifactType, refs[i].sha256, refs[j].artifactType, refs[j].sha256)
    {
      assert !RefLess(refs[j], refs[i]);
      KeysAscendExactly(refs[i].artifactType, refs[i].sha256, refs[j].artifactType, refs[j].sha256);
    }
  }

  // The signatures of sorted signers do likewise.
  lemma SortedSignersAscendExactly(proofs: seq<Signature>, signers: seq<Signer>)
    requires Ordered(SignerLess, signers) && |proofs| == |signers|
    requires forall i :: 0 <= i < |signers| ==> proofs[i].signer == signers[i].signer && proofs[i].keyId == signers[i].keyId
    ensures Ascending(SignatureKey, proofs) <==>
      forall i, j :: 0 <= i < j < |signers| ==>
        && (signers[i].signer != signers[j].signer || signers[i].keyId != signers[j].keyId)
        && ExtendsAbove(signers[i].signer, signers[i].keyId, signers[j].signer, signers[j].keyId)
  {
    hide ExtendsAbove, Less;
    forall i, j | 0 <= i < j < |signers|
      ensures Less(SignatureKey(proofs[i]), SignatureKey(proofs[j])) <==>
        && (signers[i].signer != signers[j].signer || signers[i].keyId != signers[j].keyId)
        && ExtendsAbove(signers[i].signer, signers[i].keyId, signers[j].signer, signers[j].keyId)
    {
      assert !SignerLess(signers[j], signers[i]);
      KeysAscendExactly(signers[i].signer, signers[i].keyId, signers[j].signer, signers[j].keyId);
    }
  }

  predicate NulFree(s: string) {
    NUL[0] !in s
  }

  lemma NulFreeNotExtended(a: string, b: string)
    requires NulFree(b)
    ensures !NulExtends(a, b)
  {
    assert |a| < |b| ==> b[|a|] in b;
  }

  // Without NUL in a type, distinct is all that is asked.
  lemma SortedRefsAscend(refs: seq<EvidenceRef>)
    requires Ordered(RefLess, refs)
    requires forall i :: 0 <= i < |refs| ==> NulFree(refs[i].artifactType)
    ensures Ascending(RefKey, refs) <==> forall i, j :: 0 <= i < j < |refs| ==> refs[i] != refs[j]
  {
    SortedRefsAscendExactly(refs);
    forall i, j | 0 <= i < j < |refs|
      ensures ExtendsAbove(refs[i].artifactType, refs[i].sha256, refs[j].artifactType, refs[j].sha256)
    {
      NulFreeNotExtended(refs[i].artifactType, refs[j].artifactType);
    }
    hide ExtendsAbove, Ascending;
  }

  lemma SortedSignersAscend(proofs: seq<Signature>, signers: seq<Signer>)
    requires Ordered(SignerLess, signers) && |proofs| == |signers|
    requires forall i :: 0 <= i < |signers| ==>
      NulFree(signers[i].signer) && proofs[i].signer == signers[i].signer && proofs[i].keyId == signers[i].keyId
    ensures Ascending(SignatureKey, proofs) <==>
      forall i, j :: 0 <= i < j < |signers| ==> signers[i].signer != signers[j].signer || signers[i].keyId != signers[j].keyId
  {
    SortedSignersAscendExactly(proofs, signers);
    forall i, j | 0 <= i < j < |signers|
      ensures ExtendsAbove(signers[i].signer, signers[i].keyId, signers[j].signer, signers[j].keyId)
    {
      NulFreeNotExtended(signers[i].signer, signers[j].signer);
    }
    hide ExtendsAbove, Ascending;
  }

  // With a NUL in a type the sort can undo itself: these two references are
  // distinct and sorted, and the validator calls them unsorted.
  lemma NulMisorders(hash: string)
    requires Hex.Hex64(hash)
    ensures var refs := [EvidenceRef("a", hash), EvidenceRef("a\0", hash)];
      Ordered(RefLess, refs) && refs[0] != refs[1] && !RefsOk(refs)
  {
    var x, y := EvidenceRef("a", hash), EvidenceRef("a\0", hash);
    OrdersUnderNulExtension("a", hash, "", hash);
    assert "a" + NUL + "" == "a\0";
    PairAsymmetric("a", hash, "a\0", hash);
    LessByHead(hash, "" + NUL + hash);
    assert RefKey(y) == ("a" + NUL + "") + NUL + hash;
    assert !Less(RefKey(x), RefKey(y));
    var refs := [x, y];
    assert Less(RefKey(refs[0]), RefKey(refs[1])) == false;
  }
}

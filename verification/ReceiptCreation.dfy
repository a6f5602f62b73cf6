// When CreateReceiptV1 of receiptcore/receipt.go goes through, read off its
// arguments.
module ReceiptCreation {
  import opened Prelude
  import opened Sorting
  import opened Jcs
  import opened StrictJson
  import opened Digest256
  import opened Receipts
  import opened ReceiptAgreement
  import opened ReceiptBinding
  import opened ReceiptFields
  import Hex
  import Utf8

  // ----- the condition

  predicate HeaderFieldsOk(env: Env, f: Receipt) {
    && f.profile == "aps-receipt-v1"
    && f.receiptType != "" && f.issuer != "" && f.subjectAgent != "" && f.delegationRef != ""
    && Hex.Hex64(f.actionRef)
    && (f.decisionRef.Some? ==> Hex.Hex64(f.decisionRef.value))
    && (f.prev.Some? ==> Hex.Hex64(f.prev.value))
    && env.exactUtcMillis(f.issuedAt)
  }

  predicate ResultOk(f: Receipt) {
    f.result.Some? && Strict(Map(f.result.value))
  }

  ghost predicate Pairwise<T(!new)>(rel: (T, T) -> bool, s: seq<T>) {
    forall i, j :: 0 <= i < |s| && 0 <= j < |s| && i != j ==> rel(s[i], s[j])
  }

  // Distinct, and a NUL extension does not undo the order of the two.
  predicate RefsApart(x: EvidenceRef, y: EvidenceRef) {
    x != y && ExtendsAbove(x.artifactType, x.sha256, y.artifactType, y.sha256)
  }

  predicate SignersApart(x: Signer, y: Signer) {
    && (x.signer != y.signer || x.keyId != y.keyId)
    && ExtendsAbove(x.signer, x.keyId, y.signer, y.keyId)
  }

  predicate RefUsable(ref: EvidenceRef) {
    RefOk(ref) && Utf8.Valid(ref.artifactType)
  }

  ghost predicate RefsCreatable(refs: seq<EvidenceRef>) {
    refs != [] && (forall x <- refs :: RefUsable(x)) && Pairwise(RefsApart, refs)
  }

  // A key that signs every message, with 128 hex characters.
  ghost predicate GoodKey(env: Env, key: string) {
    forall m :: env.sign(m, key).Some? && Hex.Hex128(env.sign(m, key).value)
  }

  // Whether a key signs does not depend on the message.
  ghost predicate KeysDecided(env: Env, signers: seq<Signer>) {
    forall s <- signers :: GoodKey(env, s.privateKey) || forall m :: env.sign(m, s.privateKey).None?
  }

  ghost predicate SignerUsable(env: Env, s: Signer) {
    s.signer != "" && s.keyId != "" && Utf8.Valid(s.signer) && Utf8.Valid(s.keyId) && GoodKey(env, s.privateKey)
  }

  ghost predicate SignersCreatable(env: Env, issuer: string, signers: seq<Signer>) {
    && (forall s <- signers :: SignerUsable(env, s))
    && Pairwise(SignersApart, signers)
    && exists s <- signers :: s.signer == issuer
  }

  ghost predicate Creatable(env: Env, fields: Receipt, signers: seq<Signer>) {
    && HeaderFieldsOk(env, fields) && HeaderFieldsScalar(fields) && ResultOk(fields)
    && RefsCreatable(Elements(fields.evidenceRefs))
    && SignersCreatable(env, fields.issuer, signers)
  }

  // ----- none of it depends on the order supplied

  lemma TwoPlaces<T>(s: seq<T>, x: T) returns (i: nat, j: nat)
    requires multiset(s)[x] >= 2
    ensures i < |s| && j < |s| && i != j && s[i] == x && s[j] == x
  {
    assert x in multiset(s);
    i :| 0 <= i < |s| && s[i] == x;
    var rest := s[..i] + s[i + 1..];
    Without(s, i);
    assert x in multiset(rest);
    var k :| 0 <= k < |rest| && rest[k] == x;
    j := if k < i then k else k + 1;
  }

  lemma PairwisePermutes<T(!new)>(rel: (T, T) -> bool, a: seq<T>, b: seq<T>)
    requires multiset(a) == multiset(b) && Pairwise(rel, a)
    ensures Pairwise(rel, b)
  {
    SameElements(a, b);
    forall i, j | 0 <= i < |b| && 0 <= j < |b| && i != j ensures rel(b[i], b[j]) {
      if b[i] == b[j] {
        CountsTwice(b, if i < j then i else j, if i < j then j else i);
        var p, q := TwoPlaces(a, b[i]);
        assert rel(a[p], a[q]);
      } else {
        assert b[i] in a && b[j] in a;
        var p :| 0 <= p < |a| && a[p] == b[i];
        var q :| 0 <= q < |a| && a[q] == b[j];
        assert rel(a[p], a[q]);
      }
    }
  }

  lemma RefsCreatablePermutes(a: seq<EvidenceRef>, b: seq<EvidenceRef>)
    requires multiset(a) == multiset(b) && RefsCreatable(a)
    ensures RefsCreatable(b)
  {
    hide RefsApart, RefUsable, Pairwise;
    SameElements(a, b);
    PairwisePermutes(RefsApart, a, b);
  }

  lemma SignersCreatablePermutes(env: Env, issuer: string, a: seq<Signer>, b: seq<Signer>)
    requires multiset(a) == multiset(b) && SignersCreatable(env, issuer, a)
    ensures SignersCreatable(env, issuer, b)
  {
    hide SignersApart, SignerUsable, Pairwise;
    SameElements(a, b);
    PairwisePermutes(SignersApart, a, b);
    var s :| s in a && s.signer == issuer;
    assert s in b;
  }

  // In sorted order only the pairs in that order are asked about: an extension
  // by NUL sorts behind what it extends.
  lemma ExtensionSortsBehind(a: string, b: string, c: string, d: string)
    requires !PairLess(a, b, c, d)
    ensures !NulExtends(a, c)
  {
    if NulExtends(a, c) {
      var u := c[|a| + 1..];
      assert c == a + NUL + u;
      OrdersUnderNulExtension(a, b, u, d);
    }
  }

  lemma SortedRefsPairwise(refs: seq<EvidenceRef>)
    requires Ordered(RefLess, refs)
    ensures Ascending(RefKey, refs) <==> Pairwise(RefsApart, refs)
  {
    SortedRefsAscendExactly(refs);
    forall i, j | 0 <= i < j < |refs|
      ensures refs[i] != refs[j] ==> RefsApart(refs[j], refs[i])
    {
      assert !RefLess(refs[j], refs[i]);
      ExtensionSortsBehind(refs[j].artifactType, refs[j].sha256, refs[i].artifactType, refs[i].sha256);
    }
    hide ExtendsAbove, Ascending, RefLess;
  }

  lemma SortedSignersPairwise(proofs: seq<Signature>, signers: seq<Signer>)
    requires Ordered(SignerLess, signers) && |proofs| == |signers|
    requires forall i :: 0 <= i < |signers| ==> proofs[i].signer == signers[i].signer && proofs[i].keyId == signers[i].keyId
    ensures Ascending(SignatureKey, proofs) <==> Pairwise(SignersApart, signers)
  {
    SortedSignersAscendExactly(proofs, signers);
    forall i, j | 0 <= i < j < |signers|
      ensures (signers[i].signer != signers[j].signer || signers[i].keyId != signers[j].keyId) ==> SignersApart(signers[j], signers[i])
    {
      assert !SignerLess(signers[j], signers[i]);
      ExtensionSortsBehind(signers[j].signer, signers[j].keyId, signers[i].signer, signers[i].keyId);
    }
    hide ExtendsAbove, Ascending, SignerLess;
  }

  // ----- one arrangement

  lemma HexValid(s: string)
    requires Hex.IsHex(s)
    ensures Utf8.Valid(s)
  {
    Utf8.AsciiValid(s);
  }

  lemma ConstantsValid()
    ensures Utf8.Valid("aps-receipt-v1") && Utf8.Valid(ALG) && Utf8.Valid("")
    ensures Hex.Hex64(ZERO_ID)
  {
    hide Utf8.Valid;
    Utf8.AsciiValid("aps-receipt-v1");
    Utf8.AsciiValid(ALG);
    Utf8.AsciiValid("");
  }

  lemma RefsUsable(refs: seq<EvidenceRef>)
    ensures (forall x <- refs :: RefUsable(x)) <==>
      (forall i :: 0 <= i < |refs| ==> RefOk(refs[i])) && (forall x <- refs :: RefScalar(x))
  {
    forall x | x in refs && RefOk(x) ensures RefUsable(x) == RefScalar(x) {
      HexValid(x.sha256);
    }
    hide RefScalar;
    if forall x <- refs :: RefUsable(x) {
      forall i | 0 <= i < |refs| ensures RefOk(refs[i]) {
        assert refs[i] in refs;
      }
    }
  }

  lemma HeaderScalar(env: Env, f: Receipt)
    requires HeaderFieldsOk(env, f)
    ensures Utf8.Valid(f.profile) && Utf8.Valid(f.actionRef) && OptionalScalar(f.decisionRef) && OptionalScalar(f.prev)
  {
    hide Utf8.Valid;
    ConstantsValid();
    HexValid(f.actionRef);
    if f.decisionRef.Some? {
      HexValid(f.decisionRef.value);
    }
    if f.prev.Some? {
      HexValid(f.prev.value);
    }
  }

  lemma PreparedHeader(env: Env, fields: Receipt, refs: seq<EvidenceRef>)
    ensures HeaderOk(env, Prepared(fields, refs), false) <==> HeaderFieldsOk(env, fields) && fields.result.Some? && refs != []
  {
  }

  lemma PreparedBody(env: Env, fields: Receipt, refs: seq<EvidenceRef>)
    requires HeaderFieldsOk(env, fields)
    ensures BodyScalar(Prepared(fields, refs)) <==>
      HeaderFieldsScalar(fields) && Strict(ResultValue(fields)) && forall x <- refs :: RefScalar(x)
  {
    HeaderScalar(env, fields);
    hide HeaderFieldsOk, Utf8.Valid, Strict, RefScalar;
  }

  lemma PreparedExtra(env: Env, fields: Receipt, refs: seq<EvidenceRef>)
    requires HeaderFieldsOk(env, fields)
    ensures ExtraScalar(Prepared(fields, refs), true, true)
  {
    ConstantsValid();
    HexValid(ZERO_ID);
    HeaderScalar(env, fields);
    hide HeaderFieldsOk, Utf8.Valid, OptionalScalar;
  }

  lemma PreparedStrict(env: Env, fields: Receipt, refs: seq<EvidenceRef>)
    requires HeaderFieldsOk(env, fields)
    ensures Strict(ReceiptValue(Prepared(fields, refs), true, true)) <==>
      HeaderFieldsScalar(fields) && Strict(ResultValue(fields)) && forall x <- refs :: RefScalar(x)
  {
    hide *;
    PreparedBody(env, fields, refs);
    PreparedExtra(env, fields, refs);
    ReceiptStrict(Prepared(fields, refs), true, true);
  }

  // What the fields have to satisfy before they are identified.
  lemma PreparedValid(env: Env, fields: Receipt, refs: seq<EvidenceRef>)
    requires Ordered(RefLess, refs)
    ensures Valid(env, Prepared(fields, refs), false) <==>
      HeaderFieldsOk(env, fields) && HeaderFieldsScalar(fields) && ResultOk(fields) && RefsCreatable(refs)
  {
    PreparedHeader(env, fields, refs);
    if HeaderFieldsOk(env, fields) {
      PreparedStrict(env, fields, refs);
    }
    RefsUsable(refs);
    SortedRefsPairwise(refs);
    hide HeaderFieldsOk, HeaderFieldsScalar, HeaderOk, Strict, RefOk, RefUsable, RefScalar, Ascending, Pairwise, ReceiptValue;
  }

  // ----- signing

  lemma PayloadDefined(r: Receipt, s: Signer)
    requires Strict(ReceiptValue(r, true, false)) && Utf8.Valid(s.signer) && Utf8.Valid(s.keyId)
    ensures SignaturePayload(r, Descriptor(s)).Some?
  {
    hide ReceiptValue, Utf8.Valid;
    ConstantsValid();
    OtherNamesValid();
    DescriptorStrict(Descriptor(s));
    var m := map["receipt" := ReceiptValue(r, true, false), "signer" := DescriptorValue(Descriptor(s))];
    hide DescriptorValue;
    assert m.Keys == {"receipt", "signer"};
    assert Strict(Map(m));
  }

  // The id and every signature can be computed once the receipt with its lists
  // is strict.
  lemma Identified(env: Env, prepared: Receipt)
    requires FixedDigest(env.sha256) && Strict(ReceiptValue(prepared, true, true))
    ensures ReceiptId(env, prepared).Some? && Hex.Hex64(ReceiptId(env, prepared).value)
    ensures Strict(ReceiptValue(prepared.(receiptId := ReceiptId(env, prepared).value), true, false))
  {
    ReceiptStrict(prepared, true, true);
    ReceiptStrict(prepared, false, false);
    var id := ReceiptId(env, prepared).value;
    HexValid(id);
    ReceiptStrict(prepared.(receiptId := id), true, false);
    SameBodyScalar(prepared, prepared.(receiptId := id));
    hide ReceiptValue, BodyScalar, Utf8.Valid, Strict, OptionalScalar, ProofScalar;
  }

  lemma SameBodyScalar(r: Receipt, s: Receipt)
    requires s == r.(receiptId := s.receiptId, signatures := s.signatures)
    ensures BodyScalar(s) == BodyScalar(r)
  {
    hide Strict, RefScalar, Utf8.Valid;
  }

  lemma SignedStrict(prepared: Receipt, id: string, proofs: seq<Signature>)
    requires Strict(ReceiptValue(prepared, true, true)) && Hex.Hex64(id)
    ensures Strict(ReceiptValue(prepared.(receiptId := id, signatures := Some(proofs)), true, true)) <==>
      forall i :: 0 <= i < |proofs| ==> ProofScalar(proofs[i])
  {
    var r := prepared.(receiptId := id, signatures := Some(proofs));
    HexValid(id);
    ReceiptStrict(prepared, true, true);
    ReceiptStrict(r, true, true);
    SameBodyScalar(prepared, r);
    hide ReceiptValue, BodyScalar, Utf8.Valid, Strict, OptionalScalar, ProofScalar;
  }

  lemma SignedValid(env: Env, prepared: Receipt, id: string, proofs: seq<Signature>)
    requires Valid(env, prepared, false) && Hex.Hex64(id)
    ensures Valid(env, prepared.(receiptId := id, signatures := Some(proofs)), true) <==>
      && SignaturesOk(proofs, true) && IssuerSigned(proofs, prepared.issuer)
      && forall i :: 0 <= i < |proofs| ==> ProofScalar(proofs[i])
  {
    SignedStrict(prepared, id, proofs);
    hide ReceiptValue, Strict, ProofScalar, SignaturesOk, IssuerSigned, RefsOk, Hex.Hex64;
  }

  // `proofs` are signatures of `order`, one each.
  ghost predicate ProofsOf(env: Env, r: Receipt, order: seq<Signer>, proofs: seq<Signature>) {
    |proofs| == |order| && forall i :: 0 <= i < |order| ==> SignOne(env, r, order[i]) == Some(proofs[i])
  }

  lemma ProofOf(env: Env, r: Receipt, s: Signer)
    requires SignOne(env, r, s).Some?
    ensures var p := SignOne(env, r, s).value;
      && p.signer == s.signer && p.keyId == s.keyId && p.alg == ALG
      && env.sign(SignaturePayload(r, Descriptor(s)).value, s.privateKey) == Some(p.value)
  {
    hide SignaturePayload;
  }

  lemma ProofAt(env: Env, r: Receipt, order: seq<Signer>, proofs: seq<Signature>, i: nat)
    requires ProofsOf(env, r, order, proofs) && KeysDecided(env, order) && i < |order|
    ensures proofs[i].signer == order[i].signer && proofs[i].keyId == order[i].keyId
    ensures SignatureOk(proofs[i], true) && ProofScalar(proofs[i]) <==> SignerUsable(env, order[i])
  {
    assert order[i] in order;
    ProofOf(env, r, order[i]);
    ProofUsable(env, SignaturePayload(r, Descriptor(order[i])).value, order[i], proofs[i]);
  }

  lemma ProofsFit(env: Env, r: Receipt, order: seq<Signer>, proofs: seq<Signature>)
    requires ProofsOf(env, r, order, proofs) && KeysDecided(env, order)
    ensures forall i :: 0 <= i < |order| ==> proofs[i].signer == order[i].signer && proofs[i].keyId == order[i].keyId
    ensures (forall s <- order :: SignerUsable(env, s)) <==>
      forall i :: 0 <= i < |proofs| ==> SignatureOk(proofs[i], true) && ProofScalar(proofs[i])
  {
    hide SignOne, SignatureOk, ProofScalar, SignerUsable, KeysDecided;
    forall i | 0 <= i < |order|
      ensures proofs[i].signer == order[i].signer && proofs[i].keyId == order[i].keyId
      ensures SignatureOk(proofs[i], true) && ProofScalar(proofs[i]) <==> SignerUsable(env, order[i])
    {
      ProofAt(env, r, order, proofs, i);
    }
    if forall s <- order :: SignerUsable(env, s) {
      forall i | 0 <= i < |order| ensures SignerUsable(env, order[i]) {
        assert order[i] in order;
      }
    }
  }

  // What the final checks ask of the signers whose signatures they are.
  lemma ProofsAcceptable(env: Env, r: Receipt, order: seq<Signer>, proofs: seq<Signature>)
    requires ProofsOf(env, r, order, proofs) && Ordered(SignerLess, order) && KeysDecided(env, order)
    ensures SignersCreatable(env, r.issuer, order) <==>
      && SignaturesOk(proofs, true) && IssuerSigned(proofs, r.issuer)
      && forall i :: 0 <= i < |proofs| ==> ProofScalar(proofs[i])
  {
    hide SignOne, SignatureOk, ProofScalar, SignerUsable, Ascending, Pairwise, SignerLess, KeysDecided;
    ProofsFit(env, r, order, proofs);
    SortedSignersPairwise(proofs, order);
    if exists s <- order :: s.signer == r.issuer {
      var s :| s in order && s.signer == r.issuer;
      var i :| 0 <= i < |order| && order[i] == s;
      assert proofs[i].signer == r.issuer;
    }
    if IssuerSigned(proofs, r.issuer) {
      var i :| 0 <= i < |proofs| && proofs[i].signer == r.issuer;
      assert order[i] in order;
    }
  }

  lemma ProofUsable(env: Env, m: string, s: Signer, p: Signature)
    requires GoodKey(env, s.privateKey) || forall m' :: env.sign(m', s.privateKey).None?
    requires p.signer == s.signer && p.keyId == s.keyId && p.alg == ALG && env.sign(m, s.privateKey) == Some(p.value)
    ensures SignatureOk(p, true) && ProofScalar(p) <==> SignerUsable(env, s)
  {
    ConstantsValid();
    HexValid(p.value);
    hide Utf8.Valid, Hex.IsHex;
  }

  lemma {:induction false} SignAllDefined(env: Env, r: Receipt, order: seq<Signer>) returns (proofs: seq<Signature>)
    requires Strict(ReceiptValue(r, true, false)) && forall s <- order :: SignerUsable(env, s)
    ensures SignAll(env, r, order) == Some(proofs) && ProofsOf(env, r, order, proofs)
  {
    hide ReceiptValue, Utf8.Valid, SignaturePayload, Strict;
    proofs := [];
    if order != [] {
      assert order[0] in order;
      PayloadDefined(r, order[0]);
      forall s | s in order[1..] ensures s in order {}
      var more := SignAllDefined(env, r, order[1..]);
      proofs := [SignOne(env, r, order[0]).value] + more;
    }
  }

  // ----- the whole

  lemma CreatedIsCreatable(env: Env, fields: Receipt, refs: seq<EvidenceRef>, order: seq<Signer>, r: Receipt)
    requires FixedDigest(env.sha256) && Ordered(RefLess, refs) && Ordered(SignerLess, order) && KeysDecided(env, order)
    requires Created(env, fields, refs, order, r)
    ensures HeaderFieldsOk(env, fields) && HeaderFieldsScalar(fields) && ResultOk(fields)
    ensures RefsCreatable(refs) && SignersCreatable(env, fields.issuer, order)
  {
    var prepared := Prepared(fields, refs);
    var id := ReceiptId(env, prepared).value;
    var identified := prepared.(receiptId := id);
    var proofs := SignAll(env, identified, order).value;
    PreparedValid(env, fields, refs);
    forall i | 0 <= i < |order| ensures SignOne(env, identified, order[i]) == Some(proofs[i]) {
      SignAllAt(env, identified, order, i);
    }
    hide Valid, SignOne, Strict, ReceiptValue, HeaderFieldsOk, HeaderFieldsScalar, ResultOk;
    hide RefsCreatable, SignersCreatable, Hex.IsHex, KeysDecided;
    ProofsAcceptable(env, identified, order, proofs);
    SignedValid(env, prepared, id, proofs);
  }

  lemma CreatableIsCreated(env: Env, fields: Receipt, refs: seq<EvidenceRef>, order: seq<Signer>) returns (r: Receipt)
    requires FixedDigest(env.sha256) && Ordered(RefLess, refs) && Ordered(SignerLess, order) && KeysDecided(env, order)
    requires HeaderFieldsOk(env, fields) && HeaderFieldsScalar(fields) && ResultOk(fields)
    requires RefsCreatable(refs) && SignersCreatable(env, fields.issuer, order)
    ensures Created(env, fields, refs, order, r)
  {
    var prepared := Prepared(fields, refs);
    PreparedValid(env, fields, refs);
    Identified(env, prepared);
    hide ReceiptId, Strict, ReceiptValue, HeaderFieldsOk, HeaderFieldsScalar, ResultOk, RefsCreatable;
    hide SignerUsable, Hex.IsHex, KeysDecided, RefsOk, Pairwise, HeaderOk;
    var id := ReceiptId(env, prepared).value;
    var identified := prepared.(receiptId := id);
    var proofs := SignAllDefined(env, identified, order);
    ProofsAcceptable(env, identified, order, proofs);
    SignedValid(env, prepared, id, proofs);
    r := identified.(signatures := Some(proofs));
  }

  // A receipt is created exactly when the header fields are in order and
  // scalar, the result is strict, there is evidence, each reference and signer
  // is well formed, no two are equal or undone by a NUL extension, the issuer
  // signs, and the keys sign.
  lemma CreatesExactly(env: Env, fields: Receipt, signers: seq<Signer>)
    requires FixedDigest(env.sha256) && KeysDecided(env, signers)
    ensures (exists r :: Creates(env, fields, signers, r)) <==> Creatable(env, fields, signers)
  {
    hide Created, HeaderFieldsOk, HeaderFieldsScalar, ResultOk, RefsCreatable, SignersCreatable;
    var given := Elements(fields.evidenceRefs);
    forall r | Creates(env, fields, signers, r) ensures Creatable(env, fields, signers) {
      var refs, order :| Arranged(fields, signers, refs, order) && Created(env, fields, refs, order, r);
      SameElements(order, signers);
      CreatedIsCreatable(env, fields, refs, order, r);
      RefsCreatablePermutes(refs, given);
      SignersCreatablePermutes(env, fields.issuer, order, signers);
    }
    if Creatable(env, fields, signers) {
      var refs, order := Sort(RefLess, given), Sort(SignerLess, signers);
      RefWeakOrder(given);
      SignerWeakOrder(signers);
      SortOrdered(RefLess, given);
      SortOrdered(SignerLess, signers);
      SameElements(order, signers);
      RefsCreatablePermutes(given, refs);
      SignersCreatablePermutes(env, fields.issuer, signers, order);
      var r := CreatableIsCreated(env, fields, refs, order);
      assert Arranged(fields, signers, refs, order);
      assert Creates(env, fields, signers, r);
    }
  }

  // ----- what a created receipt is

  // The signature of `s` over the receipt it stands in.
  ghost predicate SignatureBy(env: Env, r: Receipt, p: Signature, s: Signer) {
    && p.signer == s.signer && p.keyId == s.keyId && p.alg == "Ed25519"
    && SignaturePayload(r, p).Some?
    && env.sign(SignaturePayload(r, p).value, s.privateKey) == Some(p.value)
  }

  // Every field is the caller's but the id, which is recomputed, the order of
  // the evidence, and the signatures, one by each signer.
  ghost predicate Carries(env: Env, fields: Receipt, signers: seq<Signer>, r: Receipt)
    requires FixedDigest(env.sha256)
  {
    && r.profile == fields.profile && r.receiptType == fields.receiptType && r.issuer == fields.issuer
    && r.subjectAgent == fields.subjectAgent && r.actionRef == fields.actionRef && r.delegationRef == fields.delegationRef
    && r.decisionRef == fields.decisionRef && r.issuedAt == fields.issuedAt && r.result == fields.result && r.prev == fields.prev
    && ReceiptId(env, r) == Some(r.receiptId)
    && r.evidenceRefs.Some? && multiset(r.evidenceRefs.value) == multiset(Elements(fields.evidenceRefs))
    && r.signatures.Some? && |r.signatures.value| == |signers|
    && (forall p <- r.signatures.value :: exists s <- signers :: SignatureBy(env, r, p, s))
    && (forall s <- signers :: exists p <- r.signatures.value :: SignatureBy(env, r, p, s))
  }

  lemma CreatedSignature(env: Env, fields: Receipt, refs: seq<EvidenceRef>, order: seq<Signer>, r: Receipt, i: nat)
    requires FixedDigest(env.sha256) && Created(env, fields, refs, order, r) && i < |order|
    ensures r.signatures.Some? && |r.signatures.value| == |order| && SignatureBy(env, r, r.signatures.value[i], order[i])
  {
    hide Valid, ReceiptId, SignaturePayload;
    var prepared := Prepared(fields, refs);
    var identified := prepared.(receiptId := ReceiptId(env, prepared).value);
    var proofs := SignAll(env, identified, order).value;
    SignAllAt(env, identified, order, i);
    ProofOf(env, identified, order[i]);
    PayloadIgnoresSignatures(identified, proofs, proofs[i]);
    assert proofs[i].(value := "") == Descriptor(order[i]);
  }

  lemma CreatedFields(env: Env, fields: Receipt, refs: seq<EvidenceRef>, order: seq<Signer>, r: Receipt)
    requires FixedDigest(env.sha256) && Created(env, fields, refs, order, r)
    ensures r == fields.(receiptId := r.receiptId, evidenceRefs := Some(refs), signatures := r.signatures)
    ensures r.signatures.Some? && |r.signatures.value| == |order| && ReceiptId(env, r) == Some(r.receiptId)
  {
    hide ReceiptId, SignAll;
    var prepared := Prepared(fields, refs);
    var id := ReceiptId(env, prepared).value;
    IdIgnoresIdAndSignatures(env, prepared, id, r.signatures.value);
  }

  lemma CreatedCarries(env: Env, fields: Receipt, signers: seq<Signer>, r: Receipt)
    requires FixedDigest(env.sha256) && Creates(env, fields, signers, r)
    ensures Carries(env, fields, signers, r)
  {
    hide Created, SignatureBy, ReceiptId;
    var refs, order :| Arranged(fields, signers, refs, order) && Created(env, fields, refs, order, r);
    CreatedFields(env, fields, refs, order, r);
    SameElements(order, signers);
    var proofs := r.signatures.value;
    forall p | p in proofs ensures exists s <- signers :: SignatureBy(env, r, p, s) {
      var i :| 0 <= i < |proofs| && proofs[i] == p;
      CreatedSignature(env, fields, refs, order, r, i);
      assert order[i] in signers;
    }
    forall s | s in signers ensures exists p <- proofs :: SignatureBy(env, r, p, s) {
      assert s in order;
      var i :| 0 <= i < |order| && order[i] == s;
      CreatedSignature(env, fields, refs, order, r, i);
      assert proofs[i] in proofs;
    }
  }

  // ----- the call

  // What follows the sorts.
  method SignSorted(env: Env, fields: Receipt, refs: seq<EvidenceRef>, order: seq<Signer>) returns (r: Option<Receipt>)
    requires FixedDigest(env.sha256)
    ensures r.Some? ==> Created(env, fields, refs, order, r.value)
    ensures r.None? ==> forall c :: !Created(env, fields, refs, order, c)
  {
    hide Valid, ReceiptId, SignOne;
    if |order| == 0 {
      return None;
    }
    var receipt := Prepared(fields, refs);
    var ok := ValidateReceiptV1(env, receipt, false);
    if !ok {
      return None;
    }
    var id := ReceiptId(env, receipt);
    if id.None? {
      return None;
    }
    receipt := receipt.(receiptId := id.value);
    ghost var identified := receipt;
    var proofs: seq<Signature> := [];
    for i := 0 to |order|
      invariant |proofs| == i && receipt == identified.(signatures := Some(proofs))
      invariant forall k :: 0 <= k < i ==> SignOne(env, identified, order[k]) == Some(proofs[k])
    {
      SignOneIgnoresSignatures(env, identified, proofs, order[i]);
      var proof := SignOne(env, receipt, order[i]);
      if proof.None? {
        SignAllFails(env, identified, order, i);
        return None;
      }
      proofs := proofs + [proof.value];
      receipt := receipt.(signatures := Some(proofs));
    }
    SignAllIs(env, identified, order, proofs);
    ok := ValidateReceiptV1(env, receipt, true);
    return if ok then Some(receipt) else None;
  }

  method CreateReceiptV1(env: Env, fields: Receipt, signers: seq<Signer>) returns (r: Option<Receipt>)
    requires FixedDigest(env.sha256)
    ensures r.Some? ==> Creates(env, fields, signers, r.value)
    ensures r.None? ==> forall c :: !Creates(env, fields, signers, c)
    ensures KeysDecided(env, signers) ==> (r.Some? <==> Creatable(env, fields, signers))
    ensures r.Some? ==> Carries(env, fields, signers, r.value)
  {
    hide Created, Creatable, Carries;
    if KeysDecided(env, signers) {
      CreatesExactly(env, fields, signers);
    }
    RefWeakOrder(Elements(fields.evidenceRefs));
    SignerWeakOrder(signers);
    var refs := LibrarySort(RefLess, Elements(fields.evidenceRefs));
    var order := LibrarySort(SignerLess, signers);
    r := SignSorted(env, fields, refs, order);
    assert Arranged(fields, signers, refs, order);
    if r.Some? {
      CreatedCarries(env, fields, signers, r.value);
    }
    if r.None? {
      forall c, refs', order' | Arranged(fields, signers, refs', order') && Created(env, fields, refs', order', c)
        ensures refs' == refs && order' == order
      {
        ArrangementUnique(env, fields, signers, refs', order', refs, order, c);
      }
    }
  }
}

// When the value a receipt is hashed and signed as passes the strict checks,
// field by field.
module ReceiptFields {
  import opened Prelude
  import opened Jcs
  import opened StrictJson
  import opened Receipts
  import opened ReceiptBinding
  import Utf8

  predicate HeaderFieldsScalar(f: Receipt) {
    && Utf8.Valid(f.receiptType) && Utf8.Valid(f.issuer) && Utf8.Valid(f.subjectAgent)
    && Utf8.Valid(f.delegationRef) && Utf8.Valid(f.issuedAt)
  }

  lemma StrictUnion(a: map<string, GoValue>, b: map<string, GoValue>)
    requires a.Keys !! b.Keys
    ensures Strict(Map(a + b)) <==> Strict(Map(a)) && Strict(Map(b))
  {
    var u := a + b;
    forall k | k in a ensures k in u && u[k] == a[k] {
      assert k !in b.Keys;
    }
    forall k | k in b ensures k in u && u[k] == b[k] {}
  }

  lemma BodyNamesValid()
    ensures Utf8.Valid("profile") && Utf8.Valid("receipt_type") && Utf8.Valid("issuer") && Utf8.Valid("subject_agent")
    ensures Utf8.Valid("action_ref") && Utf8.Valid("delegation_ref") && Utf8.Valid("issued_at")
    ensures Utf8.Valid("result") && Utf8.Valid("evidence_refs")
  {
    hide Utf8.Valid;
    Utf8.AsciiValid("profile");
    Utf8.AsciiValid("receipt_type");
    Utf8.AsciiValid("issuer");
    Utf8.AsciiValid("subject_agent");
    Utf8.AsciiValid("action_ref");
    Utf8.AsciiValid("delegation_ref");
    Utf8.AsciiValid("issued_at");
    Utf8.AsciiValid("result");
    Utf8.AsciiValid("evidence_refs");
  }

  lemma OtherNamesValid()
    ensures Utf8.Valid("receipt_id") && Utf8.Valid("decision_ref") && Utf8.Valid("prev") && Utf8.Valid("signatures")
    ensures Utf8.Valid("artifact_type") && Utf8.Valid("sha256") && Utf8.Valid("receipt") && Utf8.Valid("signer")
    ensures Utf8.Valid("key_id") && Utf8.Valid("alg") && Utf8.Valid("value")
  {
    hide Utf8.Valid;
    Utf8.AsciiValid("receipt_id");
    Utf8.AsciiValid("decision_ref");
    Utf8.AsciiValid("prev");
    Utf8.AsciiValid("signatures");
    Utf8.AsciiValid("artifact_type");
    Utf8.AsciiValid("sha256");
    Utf8.AsciiValid("receipt");
    Utf8.AsciiValid("signer");
    Utf8.AsciiValid("key_id");
    Utf8.AsciiValid("alg");
    Utf8.AsciiValid("value");
  }

  lemma TextStrict(v: GoValue, k: string, a: string)
    requires HasText(v, k, a) && Strict(v)
    ensures Utf8.Valid(a)
  {
    assert Strict(v.members[k]);
  }

  predicate RefScalar(ref: EvidenceRef) {
    Utf8.Valid(ref.artifactType) && Utf8.Valid(ref.sha256)
  }

  lemma RefStrict(ref: EvidenceRef)
    ensures Strict(RefValue(ref)) <==> RefScalar(ref)
  {
    OtherNamesValid();
    hide Utf8.Valid;
    var m := RefValue(ref).members;
    assert m.Keys == {"artifact_type", "sha256"};
    assert Strict(m["artifact_type"]) == Utf8.Valid(ref.artifactType);
    assert Strict(m["sha256"]) == Utf8.Valid(ref.sha256);
  }

  lemma RefsStrict(refs: seq<EvidenceRef>)
    ensures Strict(RefsValue(refs)) <==> forall x <- refs :: RefScalar(x)
  {
    hide RefScalar;
    var v := RefsValue(refs);
    forall i | 0 <= i < |refs| ensures v.items[i] == RefValue(refs[i]) && (Strict(v.items[i]) <==> RefScalar(refs[i])) {
      RefStrict(refs[i]);
    }
    hide RefValue;
    if Strict(v) {
      forall x | x in refs ensures RefScalar(x) {
        var i :| 0 <= i < |refs| && refs[i] == x;
        assert Strict(v.items[i]);
      }
    }
  }

  predicate ProofScalar(p: Signature) {
    Utf8.Valid(p.signer) && Utf8.Valid(p.keyId) && Utf8.Valid(p.alg) && Utf8.Valid(p.value)
  }

  lemma ProofStrict(p: Signature)
    ensures Strict(SignatureValue(p)) <==> ProofScalar(p)
  {
    OtherNamesValid();
    hide Utf8.Valid;
    var m := SignatureValue(p).members;
    assert m.Keys == {"signer", "key_id", "alg", "value"};
    assert Strict(m["signer"]) == Utf8.Valid(p.signer);
    assert Strict(m["key_id"]) == Utf8.Valid(p.keyId);
    assert Strict(m["alg"]) == Utf8.Valid(p.alg);
    assert Strict(m["value"]) == Utf8.Valid(p.value);
  }

  lemma DescriptorStrict(p: Signature)
    requires Utf8.Valid(p.signer) && Utf8.Valid(p.keyId) && Utf8.Valid(p.alg)
    ensures Strict(DescriptorValue(p))
  {
    OtherNamesValid();
    hide Utf8.Valid;
    var m := DescriptorValue(p).members;
    assert m.Keys == {"signer", "key_id", "alg"};
  }

  function ProofsValue(proofs: seq<Signature>): GoValue {
    Slice(seq(|proofs|, i requires 0 <= i < |proofs| => SignatureValue(proofs[i])))
  }

  lemma ProofsStrict(proofs: seq<Signature>)
    ensures Strict(ProofsValue(proofs)) <==> forall i :: 0 <= i < |proofs| ==> ProofScalar(proofs[i])
  {
    hide ProofScalar;
    var v := ProofsValue(proofs);
    forall i | 0 <= i < |proofs| ensures v.items[i] == SignatureValue(proofs[i]) && (Strict(v.items[i]) <==> ProofScalar(proofs[i])) {
      ProofStrict(proofs[i]);
    }
    hide SignatureValue;
    if Strict(v) {
      forall i | 0 <= i < |proofs| ensures ProofScalar(proofs[i]) {
        assert Strict(v.items[i]);
      }
    }
  }

  predicate BodyScalar(r: Receipt) {
    && Utf8.Valid(r.profile) && Utf8.Valid(r.actionRef) && HeaderFieldsScalar(r)
    && Strict(ResultValue(r)) && forall x <- Elements(r.evidenceRefs) :: RefScalar(x)
  }

  lemma BodyKeys(r: Receipt)
    ensures BodyMembers(r).Keys == {"profile", "receipt_type", "issuer", "subject_agent", "action_ref", "delegation_ref",
                                    "issued_at", "result", "evidence_refs"}
  {
  }

  lemma BodyIsScalar(r: Receipt)
    requires Strict(Map(BodyMembers(r)))
    ensures BodyScalar(r)
  {
    var v := Map(BodyMembers(r));
    BodyFields(r);
    RefsStrict(Elements(r.evidenceRefs));
    assert Strict(v.members["result"]) && Strict(v.members["evidence_refs"]);
    hide BodyMembers, Strict, RefScalar, Utf8.Valid, RefsValue, ResultValue;
    TextStrict(v, "profile", r.profile);
    TextStrict(v, "receipt_type", r.receiptType);
    TextStrict(v, "issuer", r.issuer);
    TextStrict(v, "subject_agent", r.subjectAgent);
    TextStrict(v, "action_ref", r.actionRef);
    TextStrict(v, "delegation_ref", r.delegationRef);
    TextStrict(v, "issued_at", r.issuedAt);
  }

  lemma ScalarBody(r: Receipt)
    requires BodyScalar(r)
    ensures Strict(Map(BodyMembers(r)))
  {
    var m := BodyMembers(r);
    BodyNamesValid();
    BodyKeys(r);
    BodyFields(r);
    RefsStrict(Elements(r.evidenceRefs));
    hide BodyMembers, RefScalar, Utf8.Valid, RefsValue, ResultValue;
    forall k | k in m ensures Utf8.Valid(k) && Strict(m[k]) {
      assert k in m.Keys;
    }
  }

  lemma MemberStrict(k: string, v: GoValue)
    requires Utf8.Valid(k)
    ensures Strict(Map(map[k := v])) <==> Strict(v)
  {
    hide Utf8.Valid;
    var m := map[k := v];
    assert m[k] == v;
  }

  predicate OptionalScalar(v: Option<string>) {
    v.Some? ==> Utf8.Valid(v.value)
  }

  lemma OptionalStrict(k: string, v: Option<string>)
    requires Utf8.Valid(k)
    ensures Strict(Map(Optional(k, v))) <==> OptionalScalar(v)
  {
    if v.Some? {
      MemberStrict(k, Text(v.value));
    }
  }

  predicate ExtraScalar(r: Receipt, includeId: bool, includeSignatures: bool) {
    && (includeId ==> Utf8.Valid(r.receiptId))
    && OptionalScalar(r.decisionRef) && OptionalScalar(r.prev)
    && (includeSignatures ==> forall i :: 0 <= i < |Elements(r.signatures)| ==> ProofScalar(Elements(r.signatures)[i]))
  }

  lemma StrictUnions(a: map<string, GoValue>, b: map<string, GoValue>, c: map<string, GoValue>, d: map<string, GoValue>)
    requires a.Keys <= {"receipt_id"} && b.Keys <= {"decision_ref"} && c.Keys <= {"prev"} && d.Keys <= {"signatures"}
    ensures Strict(Map(a + b + c + d)) <==> Strict(Map(a)) && Strict(Map(b)) && Strict(Map(c)) && Strict(Map(d))
  {
    hide Strict;
    assert a.Keys !! b.Keys && (a + b).Keys !! c.Keys && (a + b + c).Keys !! d.Keys;
    StrictUnion(a, b);
    StrictUnion(a + b, c);
    StrictUnion(a + b + c, d);
  }

  function IdMember(r: Receipt, includeId: bool): map<string, GoValue> {
    if includeId then map["receipt_id" := Text(r.receiptId)] else map[]
  }

  function ProofsMember(r: Receipt, includeSignatures: bool): map<string, GoValue> {
    if includeSignatures then map["signatures" := ProofsValue(Elements(r.signatures))] else map[]
  }

  lemma ExtraParts(r: Receipt, includeId: bool, includeSignatures: bool)
    ensures ExtraMembers(r, includeId, includeSignatures) ==
      IdMember(r, includeId) + Optional("decision_ref", r.decisionRef) + Optional("prev", r.prev) + ProofsMember(r, includeSignatures)
    ensures ExtraMembers(r, includeId, includeSignatures).Keys <= {"receipt_id", "decision_ref", "prev", "signatures"}
  {
  }

  lemma IdMemberStrict(r: Receipt, includeId: bool)
    ensures Strict(Map(IdMember(r, includeId))) <==> (includeId ==> Utf8.Valid(r.receiptId))
  {
    hide Utf8.Valid;
    OtherNamesValid();
    if includeId {
      MemberStrict("receipt_id", Text(r.receiptId));
    }
  }

  lemma ProofsMemberStrict(r: Receipt, includeSignatures: bool)
    ensures Strict(Map(ProofsMember(r, includeSignatures))) <==>
      (includeSignatures ==> forall i :: 0 <= i < |Elements(r.signatures)| ==> ProofScalar(Elements(r.signatures)[i]))
  {
    OtherNamesValid();
    ProofsStrict(Elements(r.signatures));
    hide ProofScalar, Utf8.Valid;
    MemberStrict("signatures", ProofsValue(Elements(r.signatures)));
    hide ProofsValue;
  }

  lemma ExtraStrict(r: Receipt, includeId: bool, includeSignatures: bool)
    ensures Strict(Map(ExtraMembers(r, includeId, includeSignatures))) <==> ExtraScalar(r, includeId, includeSignatures)
  {
    ExtraParts(r, includeId, includeSignatures);
    OtherNamesValid();
    IdMemberStrict(r, includeId);
    ProofsMemberStrict(r, includeSignatures);
    OptionalStrict("decision_ref", r.decisionRef);
    OptionalStrict("prev", r.prev);
    hide Strict, Utf8.Valid, ProofScalar, OptionalScalar, ExtraMembers, ProofsValue;
    StrictUnions(IdMember(r, includeId), Optional("decision_ref", r.decisionRef), Optional("prev", r.prev),
                 ProofsMember(r, includeSignatures));
  }

  lemma BodyStrict(r: Receipt)
    ensures Strict(Map(BodyMembers(r))) <==> BodyScalar(r)
  {
    hide BodyMembers, BodyScalar, Strict;
    if BodyScalar(r) {
      ScalarBody(r);
    }
    if Strict(Map(BodyMembers(r))) {
      BodyIsScalar(r);
    }
  }

  lemma ReceiptStrict(r: Receipt, includeId: bool, includeSignatures: bool)
    ensures Strict(ReceiptValue(r, includeId, includeSignatures)) <==> BodyScalar(r) && ExtraScalar(r, includeId, includeSignatures)
  {
    hide BodyMembers, ExtraMembers, BodyScalar, ExtraScalar, Strict;
    BodyKeys(r);
    ExtraParts(r, includeId, includeSignatures);
    ExtraStrict(r, includeId, includeSignatures);
    BodyStrict(r);
    StrictUnion(BodyMembers(r), ExtraMembers(r, includeId, includeSignatures));
  }
}

// What a receipt's id and its signatures commit to.
module ReceiptBinding {
  import opened Prelude
  import opened Jcs
  import opened JsonReader
  import opened JcsRoundTrip
  import opened JcsIdentity
  import opened StrictJson
  import opened Digest256
  import opened Receipts
  import Hex

  // Equal in every field but id and signatures. The result is compared as the
  // JSON value it stands for; no evidence and no result read as empty ones.
  ghost predicate SameBody(r: Receipt, s: Receipt) {
    && r.profile == s.profile && r.receiptType == s.receiptType && r.issuer == s.issuer
    && r.subjectAgent == s.subjectAgent && r.actionRef == s.actionRef && r.delegationRef == s.delegationRef
    && r.decisionRef == s.decisionRef && r.issuedAt == s.issuedAt && r.prev == s.prev
    && Elements(r.evidenceRefs) == Elements(s.evidenceRefs)
    && Strict(ResultValue(r)) && Strict(ResultValue(s))
    && DenoteStrict(ResultValue(r)) == DenoteStrict(ResultValue(s))
  }

  function ResultValue(r: Receipt): GoValue {
    Map(match r.result case Some(m) => m case None => map[])
  }

  function DenoteStrict(v: GoValue): Json
    requires Strict(v)
  {
    StrictIsWritable(v);
    Denote(v)
  }

  // Equal texts stand for one value.
  lemma StrictTextBinds(v: GoValue, w: GoValue)
    requires StrictJcs(v).Some? && StrictJcs(v) == StrictJcs(w)
    ensures Strict(v) && Strict(w) && DenoteStrict(v) == DenoteStrict(w)
  {
    hide Strict;
    StrictIsWritable(v);
    StrictIsWritable(w);
    CanonEqualExactly(v, w);
  }

  lemma MembersAgree(v: GoValue, w: GoValue, k: string)
    requires v.Map? && w.Map? && Strict(v) && Strict(w) && DenoteStrict(v) == DenoteStrict(w)
    ensures k in v.members <==> k in w.members
    ensures k in v.members ==>
      && Strict(v.members[k]) && Strict(w.members[k]) && DenoteStrict(v.members[k]) == DenoteStrict(w.members[k])
  {
    var d, e := DenoteStrict(v), DenoteStrict(w);
    StrictIsWritable(v);
    StrictIsWritable(w);
    assert d.members.Keys == v.members.Keys && e.members.Keys == w.members.Keys;
    if k in v.members {
      assert d.members[k] == e.members[k];
    }
  }

  lemma ItemsAgree(v: GoValue, w: GoValue, i: nat)
    requires v.Slice? && w.Slice? && Strict(v) && Strict(w) && DenoteStrict(v) == DenoteStrict(w)
    ensures |v.items| == |w.items|
    ensures i < |v.items| ==>
      && Strict(v.items[i]) && Strict(w.items[i]) && DenoteStrict(v.items[i]) == DenoteStrict(w.items[i])
  {
    var d, e := DenoteStrict(v), DenoteStrict(w);
    StrictIsWritable(v);
    StrictIsWritable(w);
    assert |d.items| == |v.items| && |e.items| == |w.items|;
    if i < |v.items| {
      assert d.items[i] == e.items[i];
    }
  }

  lemma TextField(v: GoValue, w: GoValue, k: string, a: string, b: string)
    requires v.Map? && w.Map? && Strict(v) && Strict(w) && DenoteStrict(v) == DenoteStrict(w)
    requires k in v.members && k in w.members && v.members[k] == Text(a) && w.members[k] == Text(b)
    ensures a == b
  {
    MembersAgree(v, w, k);
  }

  lemma OptionalField(v: GoValue, w: GoValue, k: string, a: Option<string>, b: Option<string>)
    requires v.Map? && w.Map? && Strict(v) && Strict(w) && DenoteStrict(v) == DenoteStrict(w)
    requires HasOptional(v, k, a) && HasOptional(w, k, b)
    ensures a == b
  {
    MembersAgree(v, w, k);
    if a.Some? {
      TextField(v, w, k, a.value, b.value);
    }
  }

  predicate HasOptional(v: GoValue, k: string, a: Option<string>) {
    v.Map? && (k in v.members <==> a.Some?) && (a.Some? ==> v.members[k] == Text(a.value))
  }

  // ----- the fields of a receipt

  predicate HasText(v: GoValue, k: string, a: string) {
    v.Map? && k in v.members && v.members[k] == Text(a)
  }

  lemma ExtraFields(r: Receipt, includeId: bool)
    ensures var m := ExtraMembers(r, includeId, false);
      && m.Keys <= {"receipt_id", "decision_ref", "prev"}
      && HasOptional(Map(m), "decision_ref", r.decisionRef) && HasOptional(Map(m), "prev", r.prev)
      && (includeId ==> HasText(Map(m), "receipt_id", r.receiptId))
  {
  }

  lemma BodyFields(r: Receipt)
    ensures var m := BodyMembers(r);
      && m.Keys !! {"receipt_id", "decision_ref", "prev"}
      && HasText(Map(m), "profile", r.profile) && HasText(Map(m), "receipt_type", r.receiptType)
      && HasText(Map(m), "issuer", r.issuer) && HasText(Map(m), "subject_agent", r.subjectAgent)
      && HasText(Map(m), "action_ref", r.actionRef) && HasText(Map(m), "delegation_ref", r.delegationRef)
      && HasText(Map(m), "issued_at", r.issuedAt)
      && "result" in m && m["result"] == ResultValue(r)
      && "evidence_refs" in m && m["evidence_refs"] == RefsValue(Elements(r.evidenceRefs))
  {
  }

  lemma ReceiptFields(r: Receipt, includeId: bool)
    ensures var v := ReceiptValue(r, includeId, false);
      && HasText(v, "profile", r.profile) && HasText(v, "receipt_type", r.receiptType) && HasText(v, "issuer", r.issuer)
      && HasText(v, "subject_agent", r.subjectAgent) && HasText(v, "action_ref", r.actionRef)
      && HasText(v, "delegation_ref", r.delegationRef) && HasText(v, "issued_at", r.issuedAt)
      && HasOptional(v, "decision_ref", r.decisionRef) && HasOptional(v, "prev", r.prev)
      && "result" in v.members && v.members["result"] == ResultValue(r)
      && "evidence_refs" in v.members && v.members["evidence_refs"] == RefsValue(Elements(r.evidenceRefs))
      && (includeId ==> HasText(v, "receipt_id", r.receiptId))
  {
    hide BodyMembers, ExtraMembers, ResultValue, RefsValue;
    BodyFields(r);
    ExtraFields(r, includeId);
  }

  function RefsValue(refs: seq<EvidenceRef>): GoValue {
    Slice(seq(|refs|, i requires 0 <= i < |refs| => RefValue(refs[i])))
  }

  lemma RefsAgree(a: seq<EvidenceRef>, b: seq<EvidenceRef>)
    requires Strict(RefsValue(a)) && Strict(RefsValue(b)) && DenoteStrict(RefsValue(a)) == DenoteStrict(RefsValue(b))
    ensures a == b
  {
    var v, w := RefsValue(a), RefsValue(b);
    hide Strict, DenoteStrict;
    ItemsAgree(v, w, 0);
    forall i | 0 <= i < |a| ensures a[i] == b[i] {
      ItemsAgree(v, w, i);
      assert v.items[i] == RefValue(a[i]) && w.items[i] == RefValue(b[i]);
      TextField(RefValue(a[i]), RefValue(b[i]), "artifact_type", a[i].artifactType, b[i].artifactType);
      TextField(RefValue(a[i]), RefValue(b[i]), "sha256", a[i].sha256, b[i].sha256);
    }
  }

  lemma BodiesAgree(r: Receipt, s: Receipt, includeId: bool)
    requires var v, w := ReceiptValue(r, includeId, false), ReceiptValue(s, includeId, false);
      Strict(v) && Strict(w) && DenoteStrict(v) == DenoteStrict(w)
    ensures SameBody(r, s) && (includeId ==> r.receiptId == s.receiptId)
  {
    var v, w := ReceiptValue(r, includeId, false), ReceiptValue(s, includeId, false);
    ReceiptFields(r, includeId);
    ReceiptFields(s, includeId);
    hide ReceiptValue, RefsValue, Strict, DenoteStrict;
    TextField(v, w, "profile", r.profile, s.profile);
    TextField(v, w, "receipt_type", r.receiptType, s.receiptType);
    TextField(v, w, "issuer", r.issuer, s.issuer);
    TextField(v, w, "subject_agent", r.subjectAgent, s.subjectAgent);
    TextField(v, w, "action_ref", r.actionRef, s.actionRef);
    TextField(v, w, "delegation_ref", r.delegationRef, s.delegationRef);
    TextField(v, w, "issued_at", r.issuedAt, s.issuedAt);
    OptionalField(v, w, "decision_ref", r.decisionRef, s.decisionRef);
    OptionalField(v, w, "prev", r.prev, s.prev);
    MembersAgree(v, w, "result");
    MembersAgree(v, w, "evidence_refs");
    RefsAgree(Elements(r.evidenceRefs), Elements(s.evidenceRefs));
    if includeId {
      TextField(v, w, "receipt_id", r.receiptId, s.receiptId);
    }
  }

  // ----- what is hashed and what is signed

  function IdPreimage(r: Receipt): string
    requires StrictJcs(ReceiptValue(r, false, false)).Some?
  {
    RECEIPT_ID_TAG + NUL + StrictJcs(ReceiptValue(r, false, false)).value
  }

  // Receipts with one id agree on everything but id and signatures, or their
  // preimages are different byte strings with one digest.
  lemma ReceiptIdBinds(env: Env, r: Receipt, s: Receipt)
    requires FixedDigest(env.sha256)
    requires ReceiptId(env, r).Some? && ReceiptId(env, r) == ReceiptId(env, s)
    ensures SameBody(r, s) || (IdPreimage(r) != IdPreimage(s) && env.sha256(IdPreimage(r)) == env.sha256(IdPreimage(s)))
  {
    hide ReceiptValue, StrictJcs, SameBody;
    Hex.EncodeInjective(env.sha256(IdPreimage(r)), env.sha256(IdPreimage(s)));
    if IdPreimage(r) == IdPreimage(s) {
      AfterTag(RECEIPT_ID_TAG + NUL, StrictJcs(ReceiptValue(r, false, false)).value, StrictJcs(ReceiptValue(s, false, false)).value);
      StrictTextBinds(ReceiptValue(r, false, false), ReceiptValue(s, false, false));
      BodiesAgree(r, s, false);
    }
  }

  lemma AfterTag(tag: string, a: string, b: string)
    requires tag + a == tag + b
    ensures a == b
  {
    assert a == (tag + a)[|tag|..] && b == (tag + b)[|tag|..];
  }

  function Signed(r: Receipt, p: Signature): GoValue {
    Map(map["receipt" := ReceiptValue(r, true, false), "signer" := DescriptorValue(p)])
  }

  // A signed text fixes the receipt, its id, and who signs it with which key.
  lemma SignaturePayloadBinds(r: Receipt, p: Signature, s: Receipt, q: Signature)
    requires SignaturePayload(r, p).Some? && SignaturePayload(r, p) == SignaturePayload(s, q)
    ensures SameBody(r, s) && r.receiptId == s.receiptId
    ensures p.signer == q.signer && p.keyId == q.keyId && p.alg == q.alg
  {
    hide ReceiptValue, StrictJcs, SameBody, Strict, DenoteStrict;
    var v, w := Signed(r, p), Signed(s, q);
    AfterTag(RECEIPT_SIG_TAG + NUL, StrictJcs(v).value, StrictJcs(w).value);
    StrictTextBinds(v, w);
    MembersAgree(v, w, "receipt");
    MembersAgree(v, w, "signer");
    BodiesAgree(r, s, true);
    var a, b := DescriptorValue(p), DescriptorValue(q);
    TextField(a, b, "signer", p.signer, q.signer);
    TextField(a, b, "key_id", p.keyId, q.keyId);
    TextField(a, b, "alg", p.alg, q.alg);
  }

  // No signed text is hashed for an id.
  lemma TextsDisjoint(r: Receipt, s: Receipt, q: Signature)
    requires StrictJcs(ReceiptValue(r, false, false)).Some? && SignaturePayload(s, q).Some?
    ensures IdPreimage(r) != SignaturePayload(s, q).value
  {
    hide StrictJcs, ReceiptValue;
    assert IdPreimage(r)[12] == RECEIPT_ID_TAG[12] && SignaturePayload(s, q).value[12] == RECEIPT_SIG_TAG[12];
  }
}

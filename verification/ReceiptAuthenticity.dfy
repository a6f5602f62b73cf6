// What a receipt that verifies says about who signed what, and what validation
// asks of it, in terms of its fields.
module ReceiptAuthenticity {
  import opened Prelude
  import opened Lexicographic
  import opened StrictJson
  import opened Digest256
  import opened Receipts
  import opened ReceiptAgreement
  import opened ReceiptBinding
  import opened ReceiptFields
  import Hex
  import Utf8

  // `signed(key, m)`: the owner of `key` has signed `m`. Nobody else can make a
  // signature that verifies.
  ghost predicate Unforged(env: Env, signed: (string, string) -> bool) {
    forall m, value, key :: env.verify(m, value, key) ==> signed(key, m)
  }

  // `m` was signed for this receipt, by this signer with this key id.
  ghost predicate SignedFor(m: string, r: Receipt, p: Signature) {
    && SignaturePayload(r, p) == Some(m)
    && forall s, q :: SignaturePayload(s, q) == Some(m) ==> SameSigning(r, p, s, q)
  }

  // One body and id, one signer, one key id, one algorithm.
  ghost predicate SameSigning(r: Receipt, p: Signature, s: Receipt, q: Signature) {
    && SameBody(r, s) && r.receiptId == s.receiptId
    && p.signer == q.signer && p.keyId == q.keyId && p.alg == q.alg
  }

  // Everyone a valid receipt lists has signed it: its body, its id and their
  // own name and key id.
  lemma EverySignerSigned(env: Env, resolve: Resolver, r: Receipt, signed: (string, string) -> bool, i: nat)
    returns (key: string, m: string)
    requires FixedDigest(env.sha256) && Unforged(env, signed)
    requires Verifies(env, resolve, r) && r.signatures.Some? && i < |r.signatures.value|
    ensures var p := r.signatures.value[i];
      resolve(p.signer, p.keyId, r.issuedAt) == Some(key) && signed(key, m) && SignedFor(m, r, p)
  {
    hide Receipts.Valid, ReceiptId, SignaturePayload, SameBody;
    var p := r.signatures.value[i];
    assert ProofValid(env, resolve, r, p);
    key, m := resolve(p.signer, p.keyId, r.issuedAt).value, SignaturePayload(r, p).value;
    forall s, q | SignaturePayload(s, q) == Some(m) ensures SameSigning(r, p, s, q) {
      SignaturePayloadBinds(r, p, s, q);
    }
  }

  // The receipt differs, in body, id or signer, from all that the owner of the
  // key found for `p` ever signed.
  ghost predicate Altered(resolve: Resolver, r: Receipt, p: Signature, signed: (string, string) -> bool) {
    forall key, s, q ::
      resolve(p.signer, p.keyId, r.issuedAt) == Some(key) && SignedText(signed, key, s, q) ==> !SameSigning(r, p, s, q)
  }

  ghost predicate SignedText(signed: (string, string) -> bool, key: string, s: Receipt, q: Signature) {
    SignaturePayload(s, q).Some? && signed(key, SignaturePayload(s, q).value)
  }

  // Such a receipt is not valid, whatever signatures it carries.
  lemma AlteredReceiptRefused(env: Env, resolve: Resolver, r: Receipt, signed: (string, string) -> bool, i: nat)
    requires FixedDigest(env.sha256) && Unforged(env, signed) && r.signatures.Some? && i < |r.signatures.value|
    ensures Altered(resolve, r, r.signatures.value[i], signed) ==> !Verifies(env, resolve, r)
  {
    var p := r.signatures.value[i];
    if Verifies(env, resolve, r) {
      StrictBody(env, r);
      hide Receipts.Valid, ReceiptId, SignaturePayload, SameBody;
      var key, m := EverySignerSigned(env, resolve, r, signed, i);
      assert SignedText(signed, key, r, p) && SameSigning(r, p, r, p);
    }
  }

  lemma StrictBody(env: Env, r: Receipt)
    requires Receipts.Valid(env, r, true)
    ensures SameBody(r, r)
  {
    ReceiptStrict(r, true, true);
    hide ReceiptValue, Strict;
  }

  // One signature refused, or one key missing, and the receipt is not valid.
  lemma OneRefusalSuffices(env: Env, resolve: Resolver, r: Receipt, i: nat)
    requires FixedDigest(env.sha256) && r.signatures.Some? && i < |r.signatures.value|
    ensures var p := r.signatures.value[i];
      resolve(p.signer, p.keyId, r.issuedAt).None? ==> !Verifies(env, resolve, r)
    ensures var p := r.signatures.value[i];
      SignaturePayload(r, p).Some? && resolve(p.signer, p.keyId, r.issuedAt).Some? ==>
        var m, key := SignaturePayload(r, p).value, resolve(p.signer, p.keyId, r.issuedAt).value;
        !env.verify(m, p.value, key) ==> !Verifies(env, resolve, r)
  {
    hide Receipts.Valid, ReceiptId, SignaturePayload;
    if Verifies(env, resolve, r) {
      assert ProofValid(env, resolve, r, r.signatures.value[i]);
    }
  }

  // ----- validation

  predicate HexText(s: string, n: nat) {
    |s| == n && forall c <- s :: '0' <= c <= '9' || 'a' <= c <= 'f'
  }

  ghost predicate RefsInOrder(refs: seq<EvidenceRef>) {
    && (forall x <- refs :: x.artifactType != "" && HexText(x.sha256, 64))
    && forall i, j :: 0 <= i < j < |refs| ==>
         Less(refs[i].artifactType + "\0" + refs[i].sha256, refs[j].artifactType + "\0" + refs[j].sha256)
  }

  ghost predicate SignaturesInOrder(proofs: seq<Signature>, signed: bool) {
    && (forall p <- proofs :: p.signer != "" && p.keyId != "" && p.alg == "Ed25519" && (signed ==> HexText(p.value, 128)))
    && forall i, j :: 0 <= i < j < |proofs| ==>
         Less(proofs[i].signer + "\0" + proofs[i].keyId, proofs[j].signer + "\0" + proofs[j].keyId)
  }

  // All that is asked of a receipt, signed or still to be signed.
  ghost predicate Sound(env: Env, r: Receipt, signed: bool) {
    && r.profile == "aps-receipt-v1"
    && r.receiptType != "" && r.issuer != "" && r.subjectAgent != "" && r.delegationRef != ""
    && HexText(r.actionRef, 64)
    && (r.decisionRef.Some? ==> HexText(r.decisionRef.value, 64))
    && (r.prev.Some? ==> HexText(r.prev.value, 64))
    && env.exactUtcMillis(r.issuedAt)
    && r.result.Some? && r.evidenceRefs.Some? && r.signatures.Some?
    && (signed ==> HexText(r.receiptId, 64) && exists p <- r.signatures.value :: p.signer == r.issuer)
    && RefsInOrder(r.evidenceRefs.value) && SignaturesInOrder(r.signatures.value, signed)
    && BodyScalar(r) && ExtraScalar(r, true, true)
  }

  lemma HexExactly(s: string)
    ensures Hex.Hex64(s) <==> HexText(s, 64)
    ensures Hex.Hex128(s) <==> HexText(s, 128)
  {
    if forall c <- s :: '0' <= c <= '9' || 'a' <= c <= 'f' {
      forall i | 0 <= i < |s| ensures Hex.IsHexChar(s[i]) {
        assert s[i] in s;
      }
    }
  }

  lemma RefsExactly(refs: seq<EvidenceRef>)
    ensures RefsOk(refs) <==> RefsInOrder(refs)
  {
    forall x | x in refs ensures RefOk(x) <==> x.artifactType != "" && HexText(x.sha256, 64) {
      HexExactly(x.sha256);
    }
    hide Hex.Hex64, HexText, Less;
    if RefsInOrder(refs) {
      forall i | 0 <= i < |refs| ensures RefOk(refs[i]) {
        assert refs[i] in refs;
      }
    }
  }

  lemma SignaturesExactly(proofs: seq<Signature>, signed: bool)
    ensures SignaturesOk(proofs, signed) <==> SignaturesInOrder(proofs, signed)
  {
    forall p | p in proofs
      ensures SignatureOk(p, signed) <==> p.signer != "" && p.keyId != "" && p.alg == "Ed25519" && (signed ==> HexText(p.value, 128))
    {
      HexExactly(p.value);
    }
    hide Hex.Hex128, HexText, Less;
    if SignaturesInOrder(proofs, signed) {
      forall i | 0 <= i < |proofs| ensures SignatureOk(proofs[i], signed) {
        assert proofs[i] in proofs;
      }
    }
  }

  // Validation accepts exactly the sound receipts.
  lemma ValidExactly(env: Env, r: Receipt, signed: bool)
    ensures Receipts.Valid(env, r, signed) <==> Sound(env, r, signed)
  {
    HexExactly(r.receiptId);
    HexExactly(r.actionRef);
    if r.decisionRef.Some? {
      HexExactly(r.decisionRef.value);
    }
    if r.prev.Some? {
      HexExactly(r.prev.value);
    }
    if r.evidenceRefs.Some? && r.signatures.Some? {
      RefsExactly(r.evidenceRefs.value);
      SignaturesExactly(r.signatures.value, signed);
    }
    ReceiptStrict(r, true, true);
    hide Hex.Hex64, HexText, RefsOk, SignaturesOk, RefsInOrder, SignaturesInOrder, BodyScalar, ExtraScalar, ReceiptValue, Strict;
  }
}

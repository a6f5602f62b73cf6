// Which payloads an evidence proof lets through.
module EvidencePayloads {
  import opened Prelude
  import opened Sorting
  import opened Jcs
  import opened JcsRoundTrip
  import opened JcsIdentity
  import opened StrictJson
  import opened MerkleSoundness
  import opened Digest256
  import opened Evidence
  import opened EvidenceProofs
  import opened EvidenceSoundness
  import Hex

  // Two distinct texts with one digest.
  ghost predicate Collide(sha256: string -> string, s: string, t: string) {
    s != t && sha256(s) == sha256(t)
  }

  // A payload has the digest of another exactly when they are one JSON value,
  // but for a collision of their texts.
  lemma DigestsAgreeExactly(sha256: string -> string, v: GoValue, w: GoValue)
    requires FixedDigest(sha256) && Strict(v) && Strict(w)
    ensures var s, t := StrictJcs(v).value, StrictJcs(w).value;
      Sha256Hex(sha256, s) == Sha256Hex(sha256, t) <==> (Writable(v) && Writable(w) && Denote(v) == Denote(w)) || Collide(sha256, s, t)
  {
    StrictIsWritable(v);
    StrictIsWritable(w);
    hide Canon, Writable, Strict, Denote;
    CanonEqualExactly(v, w);
    if Sha256Hex(sha256, Canon(v)) == Sha256Hex(sha256, Canon(w)) {
      Hex.EncodeInjective(sha256(Canon(v)), sha256(Canon(w)));
    }
  }

  // `payload` is, as a JSON value, the one given for the proven member.
  ghost predicate IsInput(input: MemberInput, m: Member, payload: GoValue) {
    && input.memberId == m.memberId && input.memberType == m.memberType
    && Writable(input.payload) && Writable(payload) && Denote(input.payload) == Denote(payload)
  }

  // Whatever payload is accepted with a proof against a built bundle is the
  // JSON value one of the inputs gave for that member; or a collision is
  // computed, in the tree or between the two payload texts.
  lemma AcceptedPayloadSound(sha256: string -> string, inputs: seq<MemberInput>, body: Body, proof: Proof, payload: GoValue)
    requires FixedDigest(sha256) && IsBodyOf(sha256, inputs, body)
    requires Accepts(sha256, proof, body.merkleRoot) && PayloadOk(sha256, proof, Some(payload))
    ensures
      || Breaks(RawTree(sha256), EvidenceCollision(sha256, body.members, proof))
      || exists i :: 0 <= i < |inputs| && (
           || IsInput(inputs[i], proof.member, payload)
           || Collide(sha256, StrictJcs(inputs[i].payload).value, StrictJcs(payload).value))
  {
    hide Canon, Writable, Strict, Denote, RawTree, EvidenceCollision, StrictJcs, Sha256Hex, Walk, LeafText, MemberCanonical;
    AcceptedEvidenceSound(sha256, body.members, proof);
    if !Breaks(RawTree(sha256), EvidenceCollision(sha256, body.members, proof)) {
      var entries := EntriesOf(sha256, inputs);
      SameElements(body.members, entries);
      assert proof.member in entries;
      var i :| 0 <= i < |entries| && entries[i] == proof.member;
      assert InputOk(inputs[i]);
      DigestsAgreeExactly(sha256, inputs[i].payload, payload);
    }
  }

  // The proof built for member `i`, which has the given id, verifies with
  // `payload`.
  ghost predicate ProvesPayload(sha256: string -> string, body: Body, i: nat, memberId: string, payload: GoValue)
    requires FixedDigest(sha256) && i < |body.members|
  {
    && body.members[i].memberId == memberId
    && Accepts(sha256, ProofAt(sha256, body.members, i), body.merkleRoot)
    && PayloadOk(sha256, ProofAt(sha256, body.members, i), Some(payload))
  }

  // And the proof built for a member lets through every spelling of the JSON
  // value that was given for it.
  lemma EqualPayloadAccepted(sha256: string -> string, inputs: seq<MemberInput>, body: Body, k: nat, payload: GoValue)
    requires FixedDigest(sha256) && IsBodyOf(sha256, inputs, body) && k < |inputs|
    requires Strict(payload) && IsInput(inputs[k], EntryOf(sha256, inputs[k]), payload)
    ensures exists i: nat :: i < |body.members| && ProvesPayload(sha256, body, i, inputs[k].memberId, payload)
  {
    hide Canon, Writable, Strict, Denote, Accepts, StrictJcs, Sha256Hex;
    var entries := EntriesOf(sha256, inputs);
    SameElements(body.members, entries);
    assert entries[k] in body.members;
    var i :| 0 <= i < |body.members| && body.members[i] == entries[k];
    BuiltProofAccepted(sha256, body.members, i);
    assert InputOk(inputs[k]);
    DigestsAgreeExactly(sha256, payload, inputs[k].payload);
    assert ProofAt(sha256, body.members, i).member == entries[k];
    assert ProvesPayload(sha256, body, i, inputs[k].memberId, payload);
  }
}

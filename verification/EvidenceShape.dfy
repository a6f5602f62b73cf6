// When an evidence proof is accepted, said of its fields and of the bare
// siblings on its path.
module EvidenceShape {
  import opened Prelude
  import opened Utf8
  import opened MerkleTree
  import opened Digest256
  import opened Evidence
  import opened EvidenceProofs
  import opened EvidenceSoundness
  import Hex

  // Where leaf `index` of `width` leaves stands `t` levels up, and how many
  // nodes that level has.
  function IndexAt(index: nat, t: nat): nat {
    if t == 0 then index else IndexAt(index / 2, t - 1)
  }

  function WidthAt(width: nat, t: nat): nat {
    if t == 0 then width else WidthAt((width + 1) / 2, t - 1)
  }

  // An odd node has its sibling on the left, an even one on the right, and the
  // last of an odd number none.
  predicate StepFits(step: Step, index: nat, width: nat) {
    if index % 2 == 1 then step.position == "left" && Hex.Hex64(step.sha256)
    else if index + 1 < width then step.position == "right" && Hex.Hex64(step.sha256)
    else step.position == "promote" && step.sha256 == ""
  }

  predicate PathFits(index: nat, width: nat, path: seq<Step>) {
    && |path| == CeilLog2(width)
    && forall t | 0 <= t < |path| :: StepFits(path[t], IndexAt(index, t), WidthAt(width, t))
  }

  lemma {:induction false} WalkExactly(h: Hashing, digest: string, index: nat, width: nat, path: seq<Step>)
    ensures Walk(h, digest, index, width, path).Some? <==> PathFits(index, width, path)
    decreases width
  {
    if width > 1 && path != [] {
      var next := path[1..];
      assert StepOk(path[0], index, width) <==> StepFits(path[0], index, width);
      assert PathFits(index, width, path) ==> StepFits(path[0], IndexAt(index, 0), WidthAt(width, 0));
      if StepOk(path[0], index, width) {
        WalkExactly(h, Advance(h, digest, path[0]), index / 2, (width + 1) / 2, next);
        PathTail(index, width, path);
      }
    }
  }

  lemma PathTail(index: nat, width: nat, path: seq<Step>)
    requires width > 1 && path != [] && StepFits(path[0], index, width)
    ensures PathFits(index, width, path) <==> PathFits(index / 2, (width + 1) / 2, path[1..])
  {
    var next := path[1..];
    hide StepFits;
    forall t: nat ensures IndexAt(index, t + 1) == IndexAt(index / 2, t) && WidthAt(width, t + 1) == WidthAt((width + 1) / 2, t) {
    }
    if PathFits(index, width, path) {
      forall t | 0 <= t < |next| ensures StepFits(next[t], IndexAt(index / 2, t), WidthAt((width + 1) / 2, t)) {
        assert next[t] == path[t + 1];
        assert StepFits(path[t + 1], IndexAt(index, t + 1), WidthAt(width, t + 1));
      }
    }
    if PathFits(index / 2, (width + 1) / 2, next) {
      forall t | 0 <= t < |path| ensures StepFits(path[t], IndexAt(index, t), WidthAt(width, t)) {
        if t > 0 {
          assert path[t] == next[t - 1];
        }
      }
    }
  }

  // All that is asked of a proof against a trusted root.
  predicate Proves(sha256: string -> string, proof: Proof, trustedRoot: string)
    requires FixedDigest(sha256)
  {
    && proof.profile == "aps-evidence-proof-v2"
    && Hex.Hex64(trustedRoot)
    && proof.member.memberId != "" && proof.member.memberType != "" && Hex.Hex64(proof.member.sha256)
    && Valid(proof.member.memberId) && Valid(proof.member.memberType)
    && 0 <= proof.leafIndex < proof.leafCount
    && proof.path.Some? && PathFits(proof.leafIndex, proof.leafCount, proof.path.value)
    && StepsEncoded(proof.path.value)
    && var h := RawTree(sha256);
    && var head := Climb(h, h.Leaf(LeafText(proof.member)), Siblings(proof.path.value));
    && Hex.IsBytes(head) && Hex.Encode(head) == trustedRoot
  }

  // Accepted are exactly the proofs of the right shape whose bare siblings lead
  // to the trusted root.
  lemma AcceptsExactly(sha256: string -> string, proof: Proof, trustedRoot: string)
    requires FixedDigest(sha256)
    ensures Accepts(sha256, proof, trustedRoot) <==> Proves(sha256, proof, trustedRoot)
  {
    MemberCanonicalDefined(proof.member);
    if Hex.Hex64(proof.member.sha256) {
      HexIsAscii(proof.member.sha256);
    }
    hide MemberCanonical, LeafText, Hex.Hex64, Hex.Encode, Hex.IsBytes, Valid;
    if proof.path.Some? && 0 <= proof.leafIndex < proof.leafCount && Hex.Hex64(proof.member.sha256) {
      var h, path := RawTree(sha256), proof.path.value;
      var leaf := h.Leaf(LeafText(proof.member));
      WalkExactly(h, leaf, proof.leafIndex, proof.leafCount, path);
      hide PathFits, Walk;
      if PathFits(proof.leafIndex, proof.leafCount, path) {
        WalkClimbs(h, leaf, proof.leafIndex, proof.leafCount, path);
      }
    }
  }
}

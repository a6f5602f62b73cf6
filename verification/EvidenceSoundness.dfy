// What an accepted evidence proof says about the bundle.
module EvidenceSoundness {
  import opened Prelude
  import opened MerkleTree
  import opened MerkleSoundness
  import opened Digest256
  import opened Evidence
  import opened EvidenceProofs
  import Hex

  // An accepted path has one step per level of the tree, promotions included.
  lemma {:induction false} PathLength(h: Hashing, digest: string, index: nat, width: nat, path: seq<Step>)
    requires Walk(h, digest, index, width, path).Some?
    ensures |path| == CeilLog2(width)
    decreases width
  {
    if width > 1 {
      PathLength(h, Advance(h, digest, path[0]), index / 2, (width + 1) / 2, path[1..]);
    }
  }

  lemma AcceptedPathLength(sha256: string -> string, proof: Proof, trustedRoot: string)
    requires FixedDigest(sha256) && Accepts(sha256, proof, trustedRoot)
    ensures |proof.path.value| == CeilLog2(proof.leafCount)
  {
    var h := RawTree(sha256);
    PathLength(h, h.Leaf(LeafText(proof.member)), proof.leafIndex, proof.leafCount, proof.path.value);
  }

  // ----- completeness

  // One built step takes a node to its parent.
  lemma StepReachesParent(h: Hashing, level: seq<string>, i: nat)
    requires RawLevel(h, level) && i < |level|
    ensures StepOk(StepAt(level, i), i, |level|)
    ensures Advance(h, level[i], StepAt(level, i)) == ReduceLevel(h, level)[i / 2]
  {
    hide ReduceLevel, Hex.Encode, Hex.Decode;
    ReduceLevelAt(h, level, i / 2);
    if i % 2 == 1 {
      Hex.DecodeEncode(level[i - 1]);
    } else if i + 1 < |level| {
      Hex.DecodeEncode(level[i + 1]);
    }
  }

  lemma {:induction false} ShapedPathWalks(h: Hashing, level: seq<string>, i: nat)
    requires RawLevel(h, level) && i < |level|
    ensures Walk(h, level[i], i, |level|, ShapedPath(h, level, i)) == Some(FoldLevels(h, level))
    decreases |level|
  {
    if |level| > 1 {
      hide StepAt, StepOk, Advance, ReduceLevel, RawLevel;
      var next, path := ReduceLevel(h, level), ShapedPath(h, level, i);
      RawLevelReduces(h, level);
      StepReachesParent(h, level, i);
      assert path[0] == StepAt(level, i) && path[1..] == ShapedPath(h, next, i / 2);
      ShapedPathWalks(h, next, i / 2);
    }
  }

  // Every built proof verifies against the root of its bundle.
  lemma BuiltProofAccepted(sha256: string -> string, entries: seq<Member>, i: nat)
    requires FixedDigest(sha256) && EntriesOk(entries) && i < |entries|
    ensures Accepts(sha256, ProofAt(sha256, entries, i), RootHex(sha256, entries))
  {
    var h := RawTree(sha256);
    var level := Digests(h, LeafTexts(entries));
    LeavesRaw(sha256, entries);
    ShapedPathWalks(h, level, i);
    FoldIsTreeHash(h, level);
    RootIsHash(h, LeafTexts(entries));
    RootHexWidth(sha256, entries);
    assert EntryOk(entries[i]);
  }

  // ----- soundness at the claimed position

  // The bytes one upward step hashes, and those the tree hashes there.
  function StepPreimage(h: Hashing, digest: string, step: Step): string
    requires step.position == "promote" || Hex.Hex64(step.sha256)
  {
    if step.position == "left" then h.nodeTag + Hex.Decode(step.sha256) + digest
    else if step.position == "promote" then digest
    else h.nodeTag + digest + Hex.Decode(step.sha256)
  }

  function PairPreimage(h: Hashing, level: seq<string>, i: nat): string
    requires i < |level|
  {
    if i % 2 == 1 then h.nodeTag + level[i - 1] + level[i]
    else if i + 1 < |level| then h.nodeTag + level[i] + level[i + 1]
    else level[i]
  }

  // Climbs path and tree together from leaf `i`; the first pair of distinct
  // preimages with one hash is the collision.
  function PositionCollision(h: Hashing, level: seq<string>, digest: string, i: nat, path: seq<Step>): Collision
    requires i < |level|
    decreases |level|
  {
    if |level| == 1 || path == [] || !StepOk(path[0], i, |level|) then Collision("", "") else
    var mine, tree := StepPreimage(h, digest, path[0]), PairPreimage(h, level, i);
    if path[0].position != "promote" && mine != tree && h.hash(mine) == h.hash(tree) then Collision(mine, tree)
    else PositionCollision(h, ReduceLevel(h, level), Advance(h, digest, path[0]), i / 2, path[1..])
  }

  lemma {:induction false} PositionSound(h: Hashing, level: seq<string>, digest: string, i: nat, path: seq<Step>)
    requires RawLevel(h, level) && |digest| == DIGEST_WIDTH && i < |level|
    requires Walk(h, digest, i, |level|, path) == Some(FoldLevels(h, level))
    ensures digest == level[i] || Breaks(h, PositionCollision(h, level, digest, i, path))
    decreases |level|
  {
    if |level| > 1 {
      hide ReduceLevel, Advance, StepOk, StepPreimage, PairPreimage;
      AdvanceWidth(h, level, digest, path[0], i);
      RawLevelReduces(h, level);
      PositionSound(h, ReduceLevel(h, level), Advance(h, digest, path[0]), i / 2, path[1..]);
      StepPosition(h, level, digest, i, path[0]);
    }
  }

  lemma AdvanceWidth(h: Hashing, level: seq<string>, digest: string, step: Step, i: nat)
    requires RawLevel(h, level) && |digest| == DIGEST_WIDTH && StepOk(step, i, |level|)
    ensures |Advance(h, digest, step)| == DIGEST_WIDTH
  {
  }

  // A step that reaches the right parent starts from the right child.
  lemma StepPosition(h: Hashing, level: seq<string>, digest: string, i: nat, step: Step)
    requires RawLevel(h, level) && |digest| == DIGEST_WIDTH && i < |level| && |level| > 1 && StepOk(step, i, |level|)
    ensures var mine, tree := StepPreimage(h, digest, step), PairPreimage(h, level, i);
      Advance(h, digest, step) == ReduceLevel(h, level)[i / 2] ==>
        digest == level[i] || (step.position != "promote" && mine != tree && h.hash(mine) == h.hash(tree))
  {
    var mine, tree := StepPreimage(h, digest, step), PairPreimage(h, level, i);
    ReduceLevelAt(h, level, i / 2);
    if mine == tree && step.position != "promote" {
      StepInputsAgree(h, level, digest, i, step);
    }
  }

  lemma StepInputsAgree(h: Hashing, level: seq<string>, digest: string, i: nat, step: Step)
    requires RawLevel(h, level) && |digest| == DIGEST_WIDTH && i < |level|
    requires StepOk(step, i, |level|) && step.position != "promote" && |level| > 1
    requires StepPreimage(h, digest, step) == PairPreimage(h, level, i)
    ensures digest == level[i]
  {
    var sibling := Hex.Decode(step.sha256);
    if i % 2 == 1 {
      NodeInputsAgree(h.nodeTag, sibling, digest, level[i - 1], level[i]);
    } else {
      NodeInputsAgree(h.nodeTag, digest, sibling, level[i], level[i + 1]);
    }
  }

  // ----- soundness at any claimed width

  // The path as plain siblings, promotions left out.
  function Siblings(path: seq<Step>): seq<ProofNode>
    requires StepsEncoded(path)
  {
    if path == [] then []
    else if path[0].position == "promote" then Siblings(path[1..])
    else [ProofNode(Hex.Decode(path[0].sha256), path[0].position)] + Siblings(path[1..])
  }

  predicate StepsEncoded(path: seq<Step>) {
    forall k :: 0 <= k < |path| ==> path[k].position == "promote" || Hex.Hex64(path[k].sha256)
  }

  lemma {:induction false} WalkClimbs(h: Hashing, digest: string, index: nat, width: nat, path: seq<Step>)
    requires Walk(h, digest, index, width, path).Some?
    ensures StepsEncoded(path)
    ensures Climb(h, digest, Siblings(path)) == Walk(h, digest, index, width, path).value
    decreases width
  {
    if width > 1 {
      WalkClimbs(h, Advance(h, digest, path[0]), index / 2, (width + 1) / 2, path[1..]);
      assert path == [path[0]] + path[1..];
      if path[0].position != "promote" {
        assert Siblings(path)[1..] == Siblings(path[1..]);
      }
    }
  }

  // ----- the two together

  function EvidenceCollision(sha256: string -> string, entries: seq<Member>, proof: Proof): Collision
    requires entries != [] && proof.path.Some? && 0 <= proof.leafIndex && 1 <= proof.leafCount
  {
    var h, leaves := RawTree(sha256), LeafTexts(entries);
    var mine := LeafText(proof.member);
    if proof.leafCount == |entries| && proof.leafIndex < |entries| then
      var tree := leaves[proof.leafIndex];
      if mine != tree && h.Leaf(mine) == h.Leaf(tree) then Collision(h.leafTag + mine, h.leafTag + tree)
      else PositionCollision(h, Digests(h, leaves), h.Leaf(mine), proof.leafIndex, proof.path.value)
    else if StepsEncoded(proof.path.value) then InclusionCollision(h, leaves, mine, Siblings(proof.path.value))
    else Collision("", "")
  }

  lemma RootsAgree(sha256: string -> string, entries: seq<Member>, proof: Proof)
    requires FixedDigest(sha256) && EntriesOk(entries) && Accepts(sha256, proof, RootHex(sha256, entries))
    ensures var h := RawTree(sha256);
      Walk(h, h.Leaf(LeafText(proof.member)), proof.leafIndex, proof.leafCount, proof.path.value)
        == Some(Root(h, LeafTexts(entries)))
  {
    var h := RawTree(sha256);
    RootIsHash(h, LeafTexts(entries));
    Hex.EncodeInjective(
      Walk(h, h.Leaf(LeafText(proof.member)), proof.leafIndex, proof.leafCount, proof.path.value).value,
      Root(h, LeafTexts(entries)));
  }

  // With the true leaf count the member is exactly the entry at the claimed
  // index; with any other count an accepted proof still proves some entry.
  // Failing that, a collision is computed.
  lemma AcceptedEvidenceSound(sha256: string -> string, entries: seq<Member>, proof: Proof)
    requires FixedDigest(sha256) && EntriesOk(entries) && Accepts(sha256, proof, RootHex(sha256, entries))
    ensures
      || (if proof.leafCount == |entries| then proof.member == entries[proof.leafIndex] else proof.member in entries)
      || Breaks(RawTree(sha256), EvidenceCollision(sha256, entries, proof))
  {
    var h, leaves, mine := RawTree(sha256), LeafTexts(entries), LeafText(proof.member);
    assert h.Valid() by {
      assert "\0"[0] != "\U{0001}"[0];
    }
    RootsAgree(sha256, entries, proof);
    if proof.leafCount == |entries| {
      PositionCase(sha256, entries, proof);
    } else {
      WalkClimbs(h, h.Leaf(mine), proof.leafIndex, proof.leafCount, proof.path.value);
      InclusionSound(h, leaves, mine, Siblings(proof.path.value));
      if mine in leaves {
        var k :| 0 <= k < |leaves| && leaves[k] == mine;
        assert EntryOk(entries[k]);
        MemberCanonicalInjective(proof.member, entries[k]);
      }
    }
  }

  lemma PositionCase(sha256: string -> string, entries: seq<Member>, proof: Proof)
    requires FixedDigest(sha256) && EntriesOk(entries) && Accepts(sha256, proof, RootHex(sha256, entries))
    requires proof.leafCount == |entries|
    ensures proof.member == entries[proof.leafIndex] || Breaks(RawTree(sha256), EvidenceCollision(sha256, entries, proof))
  {
    var h, leaves, mine, i := RawTree(sha256), LeafTexts(entries), LeafText(proof.member), proof.leafIndex;
    var level := Digests(h, leaves);
    RootsAgree(sha256, entries, proof);
    LeavesRaw(sha256, entries);
    FoldIsTreeHash(h, level);
    PositionSound(h, level, h.Leaf(mine), i, proof.path.value);
    if mine == leaves[i] {
      assert EntryOk(entries[i]);
      MemberCanonicalInjective(proof.member, entries[i]);
    } else if h.Leaf(mine) == h.Leaf(leaves[i]) {
      if h.leafTag + mine == h.leafTag + leaves[i] {
        SplitEqual(h.leafTag, mine, h.leafTag, leaves[i]);
      }
    }
  }
}

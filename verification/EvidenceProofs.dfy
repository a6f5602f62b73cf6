// Tree-shape-bound inclusion proofs of receiptcore/supporting_record.go.
module EvidenceProofs {
  import opened Prelude
  import opened Jcs
  import opened StrictJson
  import opened MerkleTree
  import opened MerkleSoundness
  import opened Digest256
  import opened Evidence
  import Hex

  const PROFILE := "aps-evidence-proof-v2"

  datatype Step = Step(position: string, sha256: string)

  // A nil path is distinct from an empty one, and refused.
  datatype Proof = Proof(profile: string, member: Member, leafIndex: int, leafCount: int, path: Option<seq<Step>>)

  function ExpectedPosition(index: nat, width: nat): string {
    if index % 2 == 1 then "left" else if index + 1 < width then "right" else "promote"
  }

  // ----- building

  function StepAt(level: seq<string>, i: nat): Step
    requires i < |level| && forall k :: 0 <= k < |level| ==> Hex.IsBytes(level[k])
  {
    if i % 2 == 1 then Step("left", Hex.Encode(level[i - 1]))
    else if i + 1 < |level| then Step("right", Hex.Encode(level[i + 1]))
    else Step("promote", "")
  }

  ghost predicate RawLevel(h: Hashing, level: seq<string>) {
    && (forall x :: |h.hash(x)| == DIGEST_WIDTH && Hex.IsBytes(h.hash(x)))
    && (forall k :: 0 <= k < |level| ==> |level[k]| == DIGEST_WIDTH && Hex.IsBytes(level[k]))
  }

  lemma RawLevelReduces(h: Hashing, level: seq<string>)
    requires RawLevel(h, level)
    ensures RawLevel(h, ReduceLevel(h, level))
  {
    forall i | 0 <= i < |ReduceLevel(h, level)|
      ensures |ReduceLevel(h, level)[i]| == DIGEST_WIDTH && Hex.IsBytes(ReduceLevel(h, level)[i])
    {
      ReduceLevelAt(h, level, i);
    }
  }

  function ShapedPath(h: Hashing, level: seq<string>, i: nat): seq<Step>
    requires RawLevel(h, level) && i < |level|
    decreases |level|
  {
    if |level| == 1 then [] else
    RawLevelReduces(h, level);
    [StepAt(level, i)] + ShapedPath(h, ReduceLevel(h, level), i / 2)
  }

  lemma LeavesRaw(sha256: string -> string, entries: seq<Member>)
    requires FixedDigest(sha256)
    ensures RawLevel(RawTree(sha256), Digests(RawTree(sha256), LeafTexts(entries)))
  {
  }

  // Where `memberId` stands among entries that carry it once.
  predicate StandsAt(entries: seq<Member>, memberId: string, i: int) {
    0 <= i < |entries| && entries[i].memberId == memberId
  }

  function ProofAt(sha256: string -> string, entries: seq<Member>, i: nat): Proof
    requires FixedDigest(sha256) && i < |entries|
  {
    LeavesRaw(sha256, entries);
    Proof(PROFILE, entries[i], i, |entries|,
          Some(ShapedPath(RawTree(sha256), Digests(RawTree(sha256), LeafTexts(entries)), i)))
  }

  method BuildEvidenceBundleProofV2(sha256: string -> string, entries: seq<Member>, memberId: string)
    returns (r: Option<Proof>)
    requires FixedDigest(sha256)
    ensures r.Some? <==> EntriesOk(entries) && exists i :: StandsAt(entries, memberId, i)
    ensures r.Some? ==>
      && StandsAt(entries, memberId, r.value.leafIndex)
      && r.value == ProofAt(sha256, entries, r.value.leafIndex)
  {
    hide LeafText, RootHex, EntriesOk, RawLevel, ShapedPath;
    var checked := EvidenceBundleMerkleRootV2(sha256, entries);
    if checked.None? {
      return None;
    }
    var h := RawTree(sha256);
    var leafIndex := -1;
    var level: seq<string> := [];
    for i := 0 to |entries|
      invariant |level| == i && -1 <= leafIndex < i
      invariant leafIndex >= 0 ==> StandsAt(entries, memberId, leafIndex)
      invariant leafIndex < 0 ==> forall k :: 0 <= k < i ==> entries[k].memberId != memberId
      invariant forall k :: 0 <= k < i ==> level[k] == h.Leaf(LeafText(entries[k]))
    {
      if entries[i].memberId == memberId {
        leafIndex := i;
      }
      level := level + [h.Leaf(LeafText(entries[i]))];
    }
    if leafIndex < 0 {
      return None;
    }
    assert level == Digests(h, LeafTexts(entries));
    LeavesRaw(sha256, entries);
    var path := GatherShape(h, level, leafIndex);
    return Some(Proof(PROFILE, entries[leafIndex], leafIndex, |entries|, Some(path)));
  }

  method GatherShape(h: Hashing, leaves: seq<string>, leafIndex: nat) returns (path: seq<Step>)
    requires RawLevel(h, leaves) && leafIndex < |leaves|
    ensures path == ShapedPath(h, leaves, leafIndex)
  {
    path := [];
    var level, index: nat := leaves, leafIndex;
    while |level| > 1
      invariant RawLevel(h, level) && index < |level|
      invariant path + ShapedPath(h, level, index) == ShapedPath(h, leaves, leafIndex)
      decreases |level|
    {
      RawLevelReduces(h, level);
      PrependThroughAppend(path, [StepAt(level, index)], ShapedPath(h, ReduceLevel(h, level), index / 2));
      if index % 2 == 1 {
        path := path + [Step("left", Hex.Encode(level[index - 1]))];
      } else if index + 1 < |level| {
        path := path + [Step("right", Hex.Encode(level[index + 1]))];
      } else {
        path := path + [Step("promote", "")];
      }
      index := index / 2;
      level := ReduceMerkleLevel(h, level);
    }
    assert path + [] == path;
  }

  // ----- checking

  predicate StepOk(step: Step, index: nat, width: nat) {
    && step.position == ExpectedPosition(index, width)
    && if step.position == "promote" then step.sha256 == "" else Hex.Hex64(step.sha256)
  }

  function Advance(h: Hashing, digest: string, step: Step): string
    requires step.position == "promote" || Hex.Hex64(step.sha256)
  {
    if step.position == "promote" then digest
    else if step.position == "left" then h.Node(Hex.Decode(step.sha256), digest)
    else h.Node(digest, Hex.Decode(step.sha256))
  }

  // The digest the path leads to, unless its shape is not that of leaf `index`
  // in a tree of `width` leaves.
  function Walk(h: Hashing, digest: string, index: nat, width: nat, path: seq<Step>): Option<string>
    decreases width
  {
    if width <= 1 then if path == [] then Some(digest) else None
    else if path == [] || !StepOk(path[0], index, width) then None
    else Walk(h, Advance(h, digest, path[0]), index / 2, (width + 1) / 2, path[1..])
  }

  predicate HeaderOk(proof: Proof, trustedRoot: string) {
    && proof.profile == PROFILE
    && Hex.Hex64(trustedRoot)
    && proof.member.memberId != "" && proof.member.memberType != "" && Hex.Hex64(proof.member.sha256)
    && 1 <= proof.leafCount && 0 <= proof.leafIndex < proof.leafCount
    && proof.path.Some?
    && MemberCanonical(proof.member).Some?
  }

  predicate Accepts(sha256: string -> string, proof: Proof, trustedRoot: string)
    requires FixedDigest(sha256)
  {
    && HeaderOk(proof, trustedRoot)
    && var h := RawTree(sha256);
    && var end := Walk(h, h.Leaf(LeafText(proof.member)), proof.leafIndex, proof.leafCount, proof.path.value);
    && end.Some? && Hex.IsBytes(end.value) && Hex.Encode(end.value) == trustedRoot
  }

  predicate PayloadOk(sha256: string -> string, proof: Proof, payload: Option<GoValue>)
    requires FixedDigest(sha256)
  {
    payload.Some? ==> Strict(payload.value) && Sha256Hex(sha256, StrictJcs(payload.value).value) == proof.member.sha256
  }

  // VerifyEvidenceBundleProofV2 passes no payload, the Payload variant one.
  method VerifyProof(sha256: string -> string, proof: Proof, trustedRoot: string, payload: Option<GoValue>)
    returns (ok: bool)
    requires FixedDigest(sha256)
    ensures ok <==> Accepts(sha256, proof, trustedRoot) && PayloadOk(sha256, proof, payload)
  {
    if proof.profile != PROFILE || !Hex.Hex64(trustedRoot) || proof.member.memberId == "" ||
       proof.member.memberType == "" || !Hex.Hex64(proof.member.sha256) || proof.leafCount < 1 ||
       proof.leafIndex < 0 || proof.leafIndex >= proof.leafCount || proof.path.None? {
      return false;
    }
    if payload.Some? {
      var canonical := StrictJcs(payload.value);
      if canonical.None? || Sha256Hex(sha256, canonical.value) != proof.member.sha256 {
        return false;
      }
    }
    var leaf := MemberCanonical(proof.member);
    if leaf.None? {
      return false;
    }
    var h := RawTree(sha256);
    var end := WalkPath(h, h.Leaf(leaf.value), proof.leafIndex, proof.leafCount, proof.path.value);
    if end.None? {
      return false;
    }
    WalkBytes(h, h.Leaf(leaf.value), proof.leafIndex, proof.leafCount, proof.path.value);
    return Hex.Encode(end.value) == trustedRoot;
  }

  // The verifier's loop.
  method WalkPath(h: Hashing, leaf: string, leafIndex: nat, leafCount: nat, path: seq<Step>) returns (r: Option<string>)
    ensures r == Walk(h, leaf, leafIndex, leafCount, path)
  {
    var digest, index: nat, width: nat, pathIndex: nat := leaf, leafIndex, leafCount, 0;
    while width > 1
      invariant pathIndex <= |path|
      invariant Walk(h, digest, index, width, path[pathIndex..]) == Walk(h, leaf, leafIndex, leafCount, path)
      decreases width
    {
      if pathIndex >= |path| {
        return None;
      }
      var step := path[pathIndex];
      assert path[pathIndex..][0] == step && path[pathIndex..][1..] == path[pathIndex + 1..];
      pathIndex := pathIndex + 1;
      var expected := "promote";
      if index % 2 == 1 {
        expected := "left";
      } else if index + 1 < width {
        expected := "right";
      }
      if step.position != expected {
        return None;
      }
      if expected == "promote" {
        if step.sha256 != "" {
          return None;
        }
      } else {
        if !Hex.Hex64(step.sha256) {
          return None;
        }
        var sibling := Hex.Decode(step.sha256);
        if expected == "left" {
          digest := h.Node(sibling, digest);
        } else {
          digest := h.Node(digest, sibling);
        }
      }
      index := index / 2;
      width := (width + 1) / 2;
    }
    return if pathIndex == |path| then Some(digest) else None;
  }

  lemma {:induction false} WalkBytes(h: Hashing, digest: string, index: nat, width: nat, path: seq<Step>)
    requires RawLevel(h, [digest])
    ensures var end := Walk(h, digest, index, width, path);
      end.Some? ==> |end.value| == DIGEST_WIDTH && Hex.IsBytes(end.value)
    decreases width
  {
    assert [digest][0] == digest;
    if width > 1 && path != [] && StepOk(path[0], index, width) {
      WalkBytes(h, Advance(h, digest, path[0]), index / 2, (width + 1) / 2, path[1..]);
    }
  }
}

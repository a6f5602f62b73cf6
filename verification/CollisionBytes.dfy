// The pairs the soundness theorems compute are byte strings whenever what they
// are computed from is.
module CollisionBytes {
  import opened Prelude
  import opened Utf8
  import opened Jcs
  import opened StrictJson
  import opened CanonText
  import opened Digest256
  import opened MerkleTree
  import opened MerkleSoundness
  import opened Sorting
  import opened EvidenceProofs
  import opened EvidenceSoundness
  import AttributionMerkle
  import Cpa
  import CpaTop
  import Evidence
  import Hex

  ghost predicate ByteHash(h: Hashing) {
    Hex.IsBytes(h.leafTag) && Hex.IsBytes(h.nodeTag) && forall x :: Hex.IsBytes(h.hash(x))
  }

  predicate AllBytes(s: seq<string>) {
    forall i :: 0 <= i < |s| ==> Hex.IsBytes(s[i])
  }

  predicate PathBytes(path: seq<ProofNode>) {
    forall i :: 0 <= i < |path| ==> Hex.IsBytes(path[i].hash)
  }

  predicate InBytes(c: Collision) {
    Hex.IsBytes(c.a) && Hex.IsBytes(c.b)
  }

  lemma RootPreimageBytes(h: Hashing, leaves: seq<string>)
    requires ByteHash(h) && |leaves| > 0 && AllBytes(leaves)
    ensures Hex.IsBytes(RootPreimage(h, leaves))
  {
    if |leaves| > 1 {
      var k := SplitPoint(|leaves|);
      RootIsHash(h, leaves[..k]);
      RootIsHash(h, leaves[k..]);
    }
  }

  lemma ClimbPreimageBytes(h: Hashing, value: string, path: seq<ProofNode>)
    requires ByteHash(h) && Hex.IsBytes(value) && PathBytes(path)
    ensures Hex.IsBytes(ClimbPreimage(h, value, path))
  {
    if path != [] {
      ClimbIsHash(h, value, path[..|path| - 1]);
    }
  }

  lemma {:induction false} RootCollisionBytes(h: Hashing, a: seq<string>, b: seq<string>)
    requires ByteHash(h) && |a| > 0 && |b| > 0 && AllBytes(a) && AllBytes(b)
    ensures InBytes(RootCollision(h, a, b))
    decreases |a|
  {
    hide SplitPoint, Hex.IsBytes, RootPreimage;
    RootPreimageBytes(h, a);
    RootPreimageBytes(h, b);
    if RootPreimage(h, a) == RootPreimage(h, b) && |a| > 1 && |b| > 1 {
      var j, k := SplitPoint(|a|), SplitPoint(|b|);
      if a[..j] != b[..k] {
        RootCollisionBytes(h, a[..j], b[..k]);
      } else {
        RootCollisionBytes(h, a[j..], b[k..]);
      }
    }
  }

  lemma {:induction false} InclusionCollisionBytes(h: Hashing, leaves: seq<string>, value: string, path: seq<ProofNode>)
    requires ByteHash(h) && |leaves| > 0 && AllBytes(leaves) && Hex.IsBytes(value) && PathBytes(path)
    ensures InBytes(InclusionCollision(h, leaves, value, path))
    decreases |leaves|
  {
    hide SplitPoint, Hex.IsBytes, RootPreimage, ClimbPreimage;
    RootPreimageBytes(h, leaves);
    ClimbPreimageBytes(h, value, path);
    if |leaves| > 1 && path != [] {
      var k := SplitPoint(|leaves|);
      InclusionCollisionBytes(h, if path[|path| - 1].position == "left" then leaves[k..] else leaves[..k], value, path[..|path| - 1]);
    }
  }

  predicate TreeBytes(t: CpaTop.Tree) {
    match t
    case Tip(text) => Hex.IsBytes(text)
    case Fork(left, right) => TreeBytes(left) && TreeBytes(right)
  }

  lemma {:induction false} TreeCollisionBytes(h: Hashing, t: CpaTop.Tree, u: CpaTop.Tree)
    requires ByteHash(h) && TreeBytes(t) && TreeBytes(u)
    ensures InBytes(CpaTop.TreeCollision(h, t, u))
  {
    if t.Fork? && u.Fork? {
      TreeCollisionBytes(h, t.left, u.left);
      TreeCollisionBytes(h, t.right, u.right);
    }
  }

  lemma {:induction false} PositionCollisionBytes(h: Hashing, level: seq<string>, digest: string, i: nat, path: seq<Step>)
    requires ByteHash(h) && RawLevel(h, level) && Hex.IsBytes(digest) && i < |level|
    ensures InBytes(PositionCollision(h, level, digest, i, path))
    decreases |level|
  {
    if |level| > 1 && path != [] && StepOk(path[0], i, |level|) {
      RawLevelReduces(h, level);
      hide ReduceLevel;
      PositionCollisionBytes(h, ReduceLevel(h, level), Advance(h, digest, path[0]), i / 2, path[1..]);
    }
  }

  // For proofs and roots of the attribution tree, with hash outputs in bytes.
  lemma ProofCollisionBytes(sha256Hex: string -> string, leaves: seq<string>, proof: AttributionMerkle.MerkleProof)
    requires forall x :: Hex.IsBytes(sha256Hex(x))
    requires AllBytes(leaves) && Hex.IsBytes(proof.receiptHash) && PathBytes(proof.proof)
    ensures InBytes(AttributionMerkle.ProofCollision(sha256Hex, leaves, proof))
  {
    var h := AttributionMerkle.Tagged(sha256Hex);
    SortedBytes(leaves);
    hide ClimbPreimage, InclusionCollision, SortStrings;
    ClimbPreimageBytes(h, proof.receiptHash, proof.proof);
    if leaves != [] {
      InclusionCollisionBytes(h, SortStrings(leaves), proof.receiptHash, proof.proof);
    }
  }

  lemma RootsCollisionBytes(sha256Hex: string -> string, a: seq<string>, b: seq<string>)
    requires (forall x :: Hex.IsBytes(sha256Hex(x))) && AllBytes(a) && AllBytes(b)
    ensures InBytes(AttributionMerkle.RootsCollision(sha256Hex, a, b))
  {
    var h := AttributionMerkle.Tagged(sha256Hex);
    SortedBytes(a);
    SortedBytes(b);
    assert Hex.IsBytes(AttributionMerkle.EMPTY);
    assert ByteHash(h);
    hide RootPreimage, RootCollision, SortStrings, Hex.IsBytes;
    if a != [] {
      RootPreimageBytes(h, SortStrings(a));
    }
    if b != [] {
      RootPreimageBytes(h, SortStrings(b));
    }
    if a != [] && b != [] {
      RootCollisionBytes(h, SortStrings(a), SortStrings(b));
    }
  }

  lemma SortedBytes(s: seq<string>)
    requires AllBytes(s)
    ensures AllBytes(SortStrings(s)) && |SortStrings(s)| == |s|
  {
    SameElements(SortStrings(s), s);
    forall i | 0 <= i < |s| ensures Hex.IsBytes(SortStrings(s)[i]) {
      assert SortStrings(s)[i] in s;
    }
  }

  // ----- texts that are hashed are byte strings

  lemma {:induction false} ValidBytes(s: string)
    requires Valid(s)
    ensures Hex.IsBytes(s)
    decreases |s|
  {
    if s != "" {
      var n := SequenceLength(s);
      ValidBytes(s[n..]);
      assert s == s[..n] + s[n..];
    }
  }

  lemma CanonBytes(v: GoValue)
    requires Writable(v)
    ensures Hex.IsBytes(Canon(v))
  {
    hide Canon, Valid, Hex.IsBytes;
    CanonIsText(v);
    ValidBytes(Canon(v));
  }

  lemma MemberTextBytes(m: Evidence.Member)
    ensures Hex.IsBytes(Evidence.LeafText(m))
  {
    hide Canon, Strict, Writable;
    var v := Evidence.MemberValue(m);
    hide Evidence.MemberValue;
    if Strict(v) {
      StrictIsWritable(v);
      CanonBytes(v);
    }
  }

  lemma LeafTextBytes(p: Cpa.LeafPreimage)
    requires Cpa.LeafText(p).Some?
    ensures Hex.IsBytes(Cpa.LeafText(p).value)
  {
    hide Canon, Writable, Hex.IsBytes, Cpa.PreimageValue;
    CanonBytes(Cpa.PreimageValue(p));
  }

  // ----- the pairs over canonical texts need no condition but bytes from the hash

  lemma {:induction false} SiblingsBytes(path: seq<Step>)
    requires StepsEncoded(path)
    ensures PathBytes(Siblings(path))
  {
    if path != [] {
      SiblingsBytes(path[1..]);
    }
  }

  lemma EvidenceCollisionBytes(sha256: string -> string, entries: seq<Evidence.Member>, proof: Proof)
    requires FixedDigest(sha256)
    requires entries != [] && proof.path.Some? && 0 <= proof.leafIndex && 1 <= proof.leafCount
    ensures InBytes(EvidenceCollision(sha256, entries, proof))
  {
    hide Evidence.LeafText, PositionCollision, InclusionCollision, Siblings;
    var h, leaves, mine := Evidence.RawTree(sha256), Evidence.LeafTexts(entries), Evidence.LeafText(proof.member);
    MemberTextBytes(proof.member);
    forall i | 0 <= i < |leaves| ensures Hex.IsBytes(leaves[i]) {
      MemberTextBytes(entries[i]);
    }
    if proof.leafCount == |entries| && proof.leafIndex < |entries| {
      LeavesRaw(sha256, entries);
      PositionCollisionBytes(h, Digests(h, leaves), h.Leaf(mine), proof.leafIndex, proof.path.value);
    } else if StepsEncoded(proof.path.value) {
      SiblingsBytes(proof.path.value);
      InclusionCollisionBytes(h, leaves, mine, Siblings(proof.path.value));
    }
  }

  lemma {:induction false} CombineBytes(parts: seq<CpaTop.Tree>)
    requires |parts| > 0 && forall i :: 0 <= i < |parts| ==> TreeBytes(parts[i])
    ensures TreeBytes(CpaTop.Combine(parts))
    decreases |parts|
  {
    hide SplitPoint, Hex.IsBytes;
    if |parts| > 1 {
      var k := SplitPoint(|parts|);
      CombineBytes(parts[..k]);
      CombineBytes(parts[k..]);
    }
  }

  lemma PartitionTreesBytes(parts: seq<seq<Cpa.LeafPreimage>>)
    requires CpaTop.AllHashable(parts) && parts != []
    ensures TreeBytes(CpaTop.Combine(CpaTop.PartitionTrees(parts)))
  {
    hide Cpa.LeafText, CpaTop.Combine, Hex.IsBytes;
    forall i | 0 <= i < |parts| ensures TreeBytes(CpaTop.PartitionTrees(parts)[i]) {
      forall k | 0 <= k < |parts[i]| ensures TreeBytes(CpaTop.Tips(parts[i])[k]) {
        LeafTextBytes(parts[i][k]);
      }
      CombineBytes(CpaTop.Tips(parts[i]));
    }
    CombineBytes(CpaTop.PartitionTrees(parts));
  }

  lemma PreimageBytes(h: Hashing, t: CpaTop.Tree)
    requires ByteHash(h) && TreeBytes(t)
    ensures Hex.IsBytes(CpaTop.Preimage(h, t))
  {
    if t.Fork? {
      DigestBytes(h, t.left);
      DigestBytes(h, t.right);
    }
  }

  lemma DigestBytes(h: Hashing, t: CpaTop.Tree)
    requires ByteHash(h)
    ensures Hex.IsBytes(CpaTop.Digest(h, t))
  {
  }

  lemma TopCollisionBytes(sha256: string -> string, a: seq<seq<Cpa.LeafPreimage>>, b: seq<seq<Cpa.LeafPreimage>>)
    requires forall x :: Hex.IsBytes(sha256(x))
    requires CpaTop.AllHashable(a) && CpaTop.AllHashable(b)
    ensures InBytes(CpaTop.TopCollision(sha256, a, b))
  {
    var h := Cpa.Tagged(sha256);
    assert ByteHash(h) && Hex.IsBytes(Cpa.NODE_TAG + Cpa.EMPTY_SENTINEL);
    hide CpaTop.Combine, CpaTop.Preimage, CpaTop.TreeCollision, CpaTop.AllHashable, Hex.IsBytes;
    if a != [] {
      PartitionTreesBytes(a);
      PreimageBytes(h, CpaTop.Combine(CpaTop.PartitionTrees(a)));
    }
    if b != [] {
      PartitionTreesBytes(b);
      PreimageBytes(h, CpaTop.Combine(CpaTop.PartitionTrees(b)));
    }
    if a != [] && b != [] {
      TreeCollisionBytes(h, CpaTop.Combine(CpaTop.PartitionTrees(a)), CpaTop.Combine(CpaTop.PartitionTrees(b)));
    }
  }

  // For partition roots.
  lemma PartitionCollisionBytes(sha256: string -> string, a: seq<Cpa.LeafPreimage>, b: seq<Cpa.LeafPreimage>)
    requires forall x :: Hex.IsBytes(sha256(x))
    requires CpaTop.Hashable(a) && CpaTop.Hashable(b)
    ensures InBytes(RootCollision(Cpa.Tagged(sha256), Cpa.LeafTexts(a), Cpa.LeafTexts(b)))
  {
    hide Cpa.LeafText, RootCollision;
    assert ByteHash(Cpa.Tagged(sha256));
    hide Hex.IsBytes;
    forall i | 0 <= i < |a| ensures Hex.IsBytes(Cpa.LeafTexts(a)[i]) {
      LeafTextBytes(a[i]);
    }
    forall i | 0 <= i < |b| ensures Hex.IsBytes(Cpa.LeafTexts(b)[i]) {
      LeafTextBytes(b[i]);
    }
    RootCollisionBytes(Cpa.Tagged(sha256), Cpa.LeafTexts(a), Cpa.LeafTexts(b));
  }
}

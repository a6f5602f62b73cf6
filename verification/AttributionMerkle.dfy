// The Merkle helpers of attribution/attribution.go, over hex digests.
module AttributionMerkle {
  import opened Prelude
  import opened Lexicographic
  import opened Sorting
  import opened MerkleTree
  import opened MerkleSoundness

  const HEX_WIDTH := 64
  const EMPTY := "empty"

  // `sha256Hex` stands for the hash: bytes in, 64 hex characters out.
  function Tagged(sha256Hex: string -> string): Hashing {
    Hashing(sha256Hex, "\0", "\U{0001}", HEX_WIDTH)
  }

  ghost predicate FixedWidth(sha256Hex: string -> string) {
    forall x :: |sha256Hex(x)| == HEX_WIDTH
  }

  function MerkleRoot(sha256Hex: string -> string, leaves: seq<string>): string {
    if leaves == [] then sha256Hex(EMPTY) else Root(Tagged(sha256Hex), SortStrings(leaves))
  }

  method BuildMerkleRoot(sha256Hex: string -> string, leafHashes: seq<string>) returns (root: string)
    ensures root == MerkleRoot(sha256Hex, leafHashes)
  {
    if |leafHashes| == 0 {
      return sha256Hex(EMPTY);
    }
    var h := Tagged(sha256Hex);
    BytesTotalOrder(leafHashes);
    var level := LibrarySort(Less, leafHashes);
    SortStringsUnique(leafHashes, level);
    SameElements(leafHashes, level);
    ghost var sorted := level;
    for i := 0 to |level|
      invariant |level| == |sorted|
      invariant forall k :: 0 <= k < |level| ==> level[k] == if k < i then h.Leaf(sorted[k]) else sorted[k]
    {
      level := level[i := h.Leaf(level[i])];
    }
    assert level == Digests(h, sorted);
    FoldIsTreeHash(h, level);
    while |level| > 1
      invariant |level| > 0 && FoldLevels(h, level) == MerkleRoot(sha256Hex, leafHashes)
      decreases |level|
    {
      level := ReduceMerkleLevel(h, level);
    }
    return level[0];
  }

  // ----- proofs

  datatype MerkleProof = MerkleProof(receiptHash: string, root: string, proof: seq<ProofNode>, index: nat)

  function IndexOf(haystack: seq<string>, needle: string): (i: nat)
    ensures i <= |haystack|
    ensures i < |haystack| ==> haystack[i] == needle
    ensures needle in haystack <==> i < |haystack|
    ensures needle !in haystack[..i]
  {
    if haystack == [] || haystack[0] == needle then 0 else
    assert haystack == [haystack[0]] + haystack[1..];
    1 + IndexOf(haystack[1..], needle)
  }

  // The proof of `target`, or None when it is absent: the audit path of
  // RFC 6962 over the sorted leaves.
  function ProofFor(sha256Hex: string -> string, leaves: seq<string>, target: string): Option<MerkleProof> {
    if target !in leaves then None else
    var sorted := SortStrings(leaves);
    SameElements(leaves, sorted);
    var i := IndexOf(sorted, target);
    Some(MerkleProof(target, MerkleRoot(sha256Hex, leaves), AuditPath(Tagged(sha256Hex), i, Digests(Tagged(sha256Hex), sorted)), i))
  }

  method GenerateMerkleProof(sha256Hex: string -> string, leafHashes: seq<string>, targetHash: string)
    returns (r: Option<MerkleProof>)
    ensures r == ProofFor(sha256Hex, leafHashes, targetHash)
    ensures r.None? <==> targetHash !in leafHashes
  {
    if |leafHashes| == 0 {
      return None;
    }
    var h := Tagged(sha256Hex);
    BytesTotalOrder(leafHashes);
    var sorted := LibrarySort(Less, leafHashes);
    SortStringsUnique(leafHashes, sorted);
    SameElements(leafHashes, sorted);
    var targetIndex := IndexOf(sorted, targetHash);
    if targetIndex == |sorted| {
      return None;
    }
    var level := seq(|sorted|, i requires 0 <= i < |sorted| => h.Leaf(sorted[i]));
    assert level == Digests(h, sorted);
    var proof, root := GatherSiblings(h, level, targetIndex);
    SiblingPathIsAuditPath(h, level, targetIndex);
    FoldIsTreeHash(h, level);
    return Some(MerkleProof(targetHash, root, proof, targetIndex));
  }

  // The loop of GenerateMerkleProof.
  method GatherSiblings(h: Hashing, leaves: seq<string>, leafIndex: nat) returns (proof: seq<ProofNode>, root: string)
    requires leafIndex < |leaves|
    ensures proof == SiblingPath(h, leaves, leafIndex)
    ensures root == FoldLevels(h, leaves)
  {
    proof := [];
    var level, index: nat := leaves, leafIndex;
    while |level| > 1
      invariant index < |level|
      invariant proof + SiblingPath(h, level, index) == SiblingPath(h, leaves, leafIndex)
      invariant FoldLevels(h, level) == FoldLevels(h, leaves)
      decreases |level|
    {
      var isRightChild := index % 2 == 1;
      var siblingIndex := if isRightChild then index - 1 else index + 1;
      PrependThroughAppend(proof, Sibling(level, index), SiblingPath(h, ReduceLevel(h, level), index / 2));
      if siblingIndex < |level| {
        var pos := if isRightChild then "left" else "right";
        proof := proof + [ProofNode(level[siblingIndex], pos)];
      } else {
        assert proof + [] == proof;
      }
      level := ReduceMerkleLevel(h, level);
      index := index / 2;
    }
    assert proof + [] == proof;
    return proof, level[0];
  }

  predicate Accepts(sha256Hex: string -> string, proof: MerkleProof, trustedRoot: string) {
    Climb(Tagged(sha256Hex), Tagged(sha256Hex).Leaf(proof.receiptHash), proof.proof) == trustedRoot
  }

  method VerifyMerkleProofAgainstRoot(sha256Hex: string -> string, proof: MerkleProof, trustedRoot: string)
    returns (ok: bool)
    ensures ok <==> Accepts(sha256Hex, proof, trustedRoot)
  {
    var h := Tagged(sha256Hex);
    var hash := h.Leaf(proof.receiptHash);
    for i := 0 to |proof.proof|
      invariant Climb(h, hash, proof.proof[i..]) == Climb(h, h.Leaf(proof.receiptHash), proof.proof)
    {
      var node := proof.proof[i];
      if node.position == "left" {
        hash := h.Node(node.hash, hash);
      } else {
        hash := h.Node(hash, node.hash);
      }
      assert proof.proof[i..][1..] == proof.proof[i + 1..];
    }
    return hash == trustedRoot;
  }

  // ----- completeness

  // A generated proof verifies against the root of its leaves and is no longer
  // than the tree is high.
  lemma GeneratedProofAccepted(sha256Hex: string -> string, leaves: seq<string>, target: string)
    requires target in leaves
    ensures var p := ProofFor(sha256Hex, leaves, target).value;
      && Accepts(sha256Hex, p, MerkleRoot(sha256Hex, leaves))
      && p.root == MerkleRoot(sha256Hex, leaves)
      && |p.proof| <= CeilLog2(|leaves|)
  {
    var h := Tagged(sha256Hex);
    var sorted := SortStrings(leaves);
    SameElements(leaves, sorted);
    var i, d := IndexOf(sorted, target), Digests(h, sorted);
    AuditPathClimbs(h, i, d);
    SiblingPathIsAuditPath(h, d, i);
    SiblingPathHeight(h, d, i);
  }

  // ----- soundness

  function ProofCollision(sha256Hex: string -> string, leaves: seq<string>, proof: MerkleProof): Collision {
    var h := Tagged(sha256Hex);
    if leaves == [] then Collision(ClimbPreimage(h, proof.receiptHash, proof.proof), EMPTY) else
    SameElements(leaves, SortStrings(leaves));
    InclusionCollision(h, SortStrings(leaves), proof.receiptHash, proof.proof)
  }

  lemma NotTheEmptyPreimage(sha256Hex: string -> string, x: string)
    requires "\0" <= x || "\U{0001}" <= x
    ensures x != EMPTY
  {
    assert x[0] == '\0' || x[0] == '\U{0001}';
  }

  // Acceptance proves membership, or computes a collision; against the root of
  // the empty list it always computes one.
  lemma AcceptedProofSound(sha256Hex: string -> string, leaves: seq<string>, proof: MerkleProof)
    requires FixedWidth(sha256Hex)
    requires Accepts(sha256Hex, proof, MerkleRoot(sha256Hex, leaves))
    ensures proof.receiptHash in leaves || Breaks(Tagged(sha256Hex), ProofCollision(sha256Hex, leaves, proof))
  {
    var h := Tagged(sha256Hex);
    if leaves == [] {
      ClimbIsHash(h, proof.receiptHash, proof.proof);
      NotTheEmptyPreimage(sha256Hex, ClimbPreimage(h, proof.receiptHash, proof.proof));
    } else {
      SameElements(leaves, SortStrings(leaves));
      InclusionSound(h, SortStrings(leaves), proof.receiptHash, proof.proof);
    }
  }

  function RootsCollision(sha256Hex: string -> string, a: seq<string>, b: seq<string>): Collision {
    var h := Tagged(sha256Hex);
    SameElements(a, SortStrings(a));
    SameElements(b, SortStrings(b));
    if a == [] && b == [] then Collision(EMPTY, EMPTY)
    else if a == [] then Collision(EMPTY, RootPreimage(h, SortStrings(b)))
    else if b == [] then Collision(RootPreimage(h, SortStrings(a)), EMPTY)
    else RootCollision(h, SortStrings(a), SortStrings(b))
  }

  // Equal roots mean the same leaves with the same multiplicities, across
  // lengths and the empty list, or a computed collision.
  lemma RootBindsMultiset(sha256Hex: string -> string, a: seq<string>, b: seq<string>)
    requires FixedWidth(sha256Hex)
    requires MerkleRoot(sha256Hex, a) == MerkleRoot(sha256Hex, b)
    ensures multiset(a) == multiset(b) || Breaks(Tagged(sha256Hex), RootsCollision(sha256Hex, a, b))
  {
    var h := Tagged(sha256Hex);
    SameElements(a, SortStrings(a));
    SameElements(b, SortStrings(b));
    if a != [] {
      RootIsHash(h, SortStrings(a));
    }
    if b != [] {
      RootIsHash(h, SortStrings(b));
    }
    if a != [] && b != [] {
      RootBinds(h, SortStrings(a), SortStrings(b));
    } else if a != [] {
      NotTheEmptyPreimage(sha256Hex, RootPreimage(h, SortStrings(a)));
    } else if b != [] {
      NotTheEmptyPreimage(sha256Hex, RootPreimage(h, SortStrings(b)));
    }
  }

  // ... and the root does depend on nothing else.
  lemma RootOfPermutation(sha256Hex: string -> string, a: seq<string>, b: seq<string>)
    requires multiset(a) == multiset(b)
    ensures MerkleRoot(sha256Hex, a) == MerkleRoot(sha256Hex, b)
  {
    SameElements(a, b);
    BytesTotalOrder(a);
    SortOrdered(Less, a);
    SortStringsUnique(b, SortStrings(a));
  }
}

// The Merkle tree head of section 2.1 of RFC 6962 as a relation, and the roots
// of the three components as the heads it defines.
module MerkleReference {
  import opened Lexicographic
  import opened Sorting
  import opened MerkleTree
  import opened MerkleSoundness
  import opened Digest256
  import AttributionMerkle
  import Cpa
  import Evidence
  import Hex

  // The left part is as many leaves as the largest power of two below their
  // number.
  ghost predicate TreeHead(hash: string -> string, leafTag: string, nodeTag: string, leaves: seq<string>, head: string)
    decreases |leaves|, 1
  {
    if |leaves| == 0 then false
    else if |leaves| == 1 then head == hash(leafTag + leaves[0])
    else exists k: nat, left, right :: SplitHead(hash, leafTag, nodeTag, leaves, head, k, left, right)
  }

  ghost predicate SplitHead(hash: string -> string, leafTag: string, nodeTag: string, leaves: seq<string>, head: string,
                            k: nat, left: string, right: string)
    decreases |leaves|, 0
  {
    && PowerOfTwo(k) && k < |leaves| <= 2 * k
    && TreeHead(hash, leafTag, nodeTag, leaves[..k], left)
    && TreeHead(hash, leafTag, nodeTag, leaves[k..], right)
    && head == hash(nodeTag + left + right)
  }

  lemma {:induction false} PowersApart(j: nat, k: nat)
    requires PowerOfTwo(j) && PowerOfTwo(k) && j < k
    ensures 2 * j <= k
  {
    if j > 1 {
      PowersApart(j / 2, k / 2);
    }
  }

  lemma SplitUnique(n: nat, k: nat)
    requires n > 1 && PowerOfTwo(k) && k < n <= 2 * k
    ensures k == SplitPoint(n)
  {
    var s := SplitPoint(n);
    if s < k {
      PowersApart(s, k);
    } else if k < s {
      PowersApart(k, s);
    }
  }

  lemma PartsOfHead(hash: string -> string, leafTag: string, nodeTag: string, leaves: seq<string>, head: string)
    returns (k: nat, left: string, right: string)
    requires |leaves| > 1 && TreeHead(hash, leafTag, nodeTag, leaves, head)
    ensures SplitHead(hash, leafTag, nodeTag, leaves, head, k, left, right)
  {
    hide SplitHead;
    k, left, right :| SplitHead(hash, leafTag, nodeTag, leaves, head, k, left, right);
  }

  lemma HeadOfParts(hash: string -> string, leafTag: string, nodeTag: string, leaves: seq<string>, head: string,
                    k: nat, left: string, right: string)
    requires |leaves| > 1 && SplitHead(hash, leafTag, nodeTag, leaves, head, k, left, right)
    ensures TreeHead(hash, leafTag, nodeTag, leaves, head)
  {
    hide SplitHead;
  }

  lemma {:induction false} RootExactly(h: Hashing, leaves: seq<string>, head: string)
    requires |leaves| > 0
    ensures head == Root(h, leaves) <==> TreeHead(h.hash, h.leafTag, h.nodeTag, leaves, head)
    decreases |leaves|
  {
    hide SplitPoint, PowerOfTwo;
    RootIsHash(h, leaves);
    if |leaves| > 1 {
      var k := SplitPoint(|leaves|);
      var left, right := Root(h, leaves[..k]), Root(h, leaves[k..]);
      hide Root, TreeHead;
      RootExactly(h, leaves[..k], left);
      RootExactly(h, leaves[k..], right);
      if head == h.hash(h.nodeTag + left + right) {
        HeadOfParts(h.hash, h.leafTag, h.nodeTag, leaves, head, k, left, right);
      }
      if TreeHead(h.hash, h.leafTag, h.nodeTag, leaves, head) {
        var j, a, b := PartsOfHead(h.hash, h.leafTag, h.nodeTag, leaves, head);
        SplitUnique(|leaves|, j);
        RootExactly(h, leaves[..k], a);
        RootExactly(h, leaves[k..], b);
      }
    }
  }

  // ----- the three roots

  // A list of leaves in ascending byte order.
  ghost predicate InByteOrder(leaves: seq<string>, sorted: seq<string>) {
    && multiset(sorted) == multiset(leaves)
    && forall i, j :: 0 <= i < j < |sorted| ==> !Less(sorted[j], sorted[i])
  }

  // attribution: the head over the sorted leaves, and of none a fixed digest.
  lemma AttributionRootMeans(sha256Hex: string -> string, leaves: seq<string>, root: string)
    ensures root == AttributionMerkle.MerkleRoot(sha256Hex, leaves) <==>
      if leaves == [] then root == sha256Hex("empty")
      else exists sorted :: InByteOrder(leaves, sorted) && TreeHead(sha256Hex, "\0", "\U{0001}", sorted, root)
  {
    if leaves != [] {
      var sorted := SortStrings(leaves);
      SameElements(sorted, leaves);
      BytesTotalOrder(leaves);
      SortOrdered(Less, leaves);
      RootExactly(AttributionMerkle.Tagged(sha256Hex), sorted, root);
      hide Root, TreeHead, Less;
      assert InByteOrder(leaves, sorted);
      forall s | InByteOrder(leaves, s) ensures s == sorted {
        SortStringsUnique(leaves, s);
      }
    }
  }

  // A generated proof is for the target, at its first place in that order.
  lemma ProofPlace(sha256Hex: string -> string, leaves: seq<string>, target: string)
    requires target in leaves
    ensures var p := AttributionMerkle.ProofFor(sha256Hex, leaves, target).value;
      p.receiptHash == target && exists sorted :: InByteOrder(leaves, sorted) && FirstAt(sorted, target, p.index)
  {
    var sorted := SortStrings(leaves);
    SameElements(sorted, leaves);
    BytesTotalOrder(leaves);
    SortOrdered(Less, leaves);
    hide Less, Sort;
    assert InByteOrder(leaves, sorted);
    var i := AttributionMerkle.IndexOf(sorted, target);
    forall j | 0 <= j < i ensures sorted[j] != target {
      assert sorted[..i][j] == sorted[j];
    }
    assert FirstAt(sorted, target, i);
  }

  predicate FirstAt(s: seq<string>, x: string, i: nat) {
    i < |s| && s[i] == x && forall j :: 0 <= j < i ==> s[j] != x
  }

  // cpa: the head over the canonical texts in the order hashed.
  lemma PartitionRootMeans(sha256: string -> string, leaves: seq<Cpa.LeafPreimage>, root: string)
    requires leaves != [] && Cpa.Encodable(leaves)
    ensures root == Root(Cpa.Tagged(sha256), Cpa.LeafTexts(leaves)) <==>
      TreeHead(sha256, "CPA:v0.1:leaf\n", "CPA:v0.1:node\n", Cpa.LeafTexts(leaves), root)
  {
    RootExactly(Cpa.Tagged(sha256), Cpa.LeafTexts(leaves), root);
    hide Root, TreeHead, Cpa.LeafText;
  }

  // receiptcore: the head over the members' texts, in hex.
  lemma EvidenceRootMeans(sha256: string -> string, entries: seq<Evidence.Member>, root: string)
    requires FixedDigest(sha256) && entries != []
    ensures root == Evidence.RootHex(sha256, entries) <==>
      exists head :: Hex.IsBytes(head) && root == Hex.Encode(head)
        && TreeHead(sha256, "\0", "\U{0001}", Evidence.LeafTexts(entries), head)
  {
    var head := Root(Evidence.RawTree(sha256), Evidence.LeafTexts(entries));
    RootIsHash(Evidence.RawTree(sha256), Evidence.LeafTexts(entries));
    forall d ensures d == head <==> TreeHead(sha256, "\0", "\U{0001}", Evidence.LeafTexts(entries), d) {
      RootExactly(Evidence.RawTree(sha256), Evidence.LeafTexts(entries), d);
    }
    hide TreeHead, Evidence.LeafText, Hex.Encode;
  }
}

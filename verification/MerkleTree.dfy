// The tree shared by attribution/attribution.go, receiptcore/supporting_record.go
// and cpa/cpa.go: a level-by-level fold with odd promotion over tagged hashes,
// against the recursive tree of section 2.1 of RFC 6962.
module MerkleTree {

  // The hash is abstract: all that is used of it is its fixed output width.
  // Nothing says it is injective.
  datatype Hashing = Hashing(hash: string -> string, leafTag: string, nodeTag: string, width: nat) {
    ghost predicate Valid() {
      && |leafTag| == |nodeTag|
      && leafTag != nodeTag
      && forall x :: |hash(x)| == width
    }

    function Leaf(x: string): string {
      hash(leafTag + x)
    }

    function Node(left: string, right: string): string {
      hash(nodeTag + left + right)
    }
  }

  // ----- the level-by-level fold

  function ReduceLevel(h: Hashing, level: seq<string>): (next: seq<string>)
    ensures |next| == (|level| + 1) / 2
  {
    if |level| < 2 then level
    else [h.Node(level[0], level[1])] + ReduceLevel(h, level[2..])
  }

  function FoldLevels(h: Hashing, level: seq<string>): string
    requires |level| > 0
    decreases |level|
  {
    if |level| == 1 then level[0] else FoldLevels(h, ReduceLevel(h, level))
  }

  lemma {:induction false} ReduceLevelAt(h: Hashing, level: seq<string>, i: nat)
    requires i < (|level| + 1) / 2
    ensures ReduceLevel(h, level)[i] ==
      if 2 * i + 1 < |level| then h.Node(level[2 * i], level[2 * i + 1]) else level[2 * i]
  {
    if |level| >= 2 && i > 0 {
      ReduceLevelAt(h, level[2..], i - 1);
    }
  }

  method ReduceMerkleLevel(h: Hashing, level: seq<string>) returns (next: seq<string>)
    ensures next == ReduceLevel(h, level)
  {
    next := [];
    var i := 0;
    while i < |level|
      invariant i % 2 == 0 && i <= |level| + 1
      invariant |next| == i / 2
      invariant forall k :: 0 <= k < |next| ==> next[k] == ReduceLevel(h, level)[k]
    {
      ReduceLevelAt(h, level, i / 2);
      if i + 1 < |level| {
        next := next + [h.Node(level[i], level[i + 1])];
      } else {
        next := next + [level[i]];
      }
      i := i + 2;
    }
  }

  method FoldToRoot(h: Hashing, leaves: seq<string>) returns (root: string)
    requires |leaves| > 0
    ensures root == FoldLevels(h, leaves)
  {
    var level := leaves;
    while |level| > 1
      invariant |level| > 0 && FoldLevels(h, level) == FoldLevels(h, leaves)
      decreases |level|
    {
      level := ReduceMerkleLevel(h, level);
    }
    return level[0];
  }

  // ----- the recursive tree

  predicate PowerOfTwo(k: nat) {
    k == 1 || (k > 1 && k % 2 == 0 && PowerOfTwo(k / 2))
  }

  // The largest power of two smaller than n.
  function SplitPoint(n: nat): (k: nat)
    requires n > 1
    ensures PowerOfTwo(k) && k < n <= 2 * k
  {
    if n == 2 then 1 else 2 * SplitPoint((n + 1) / 2)
  }

  function TreeHash(h: Hashing, digests: seq<string>): string
    requires |digests| > 0
    decreases |digests|
  {
    if |digests| == 1 then digests[0] else
    var k := SplitPoint(|digests|);
    h.Node(TreeHash(h, digests[..k]), TreeHash(h, digests[k..]))
  }

  lemma {:induction false} ReduceSplits(h: Hashing, level: seq<string>, k: nat)
    requires k % 2 == 0 && k <= |level|
    ensures ReduceLevel(h, level) == ReduceLevel(h, level[..k]) + ReduceLevel(h, level[k..])
  {
    if k > 0 {
      ReduceSplits(h, level[2..], k - 2);
      assert level[2..][..k - 2] == level[..k][2..];
      assert level[2..][k - 2..] == level[k..];
    } else {
      assert level[0..] == level;
    }
  }

  // One level of folding does not change the recursive tree.
  lemma {:induction false} TreeHashOfReduced(h: Hashing, level: seq<string>)
    requires |level| > 0
    ensures TreeHash(h, ReduceLevel(h, level)) == TreeHash(h, level)
    decreases |level|
  {
    if |level| > 2 {
      var k := SplitPoint(|level|);
      ReduceSplits(h, level, k);
      var next := ReduceLevel(h, level);
      assert next[..k / 2] == ReduceLevel(h, level[..k]);
      assert next[k / 2..] == ReduceLevel(h, level[k..]);
      TreeHashOfReduced(h, level[..k]);
      TreeHashOfReduced(h, level[k..]);
    } else if |level| == 2 {
      assert level[..1] == [level[0]] && level[1..] == [level[1]];
      assert ReduceLevel(h, level) == [h.Node(level[0], level[1])];
    }
  }

  lemma {:induction false} FoldIsTreeHash(h: Hashing, level: seq<string>)
    requires |level| > 0
    ensures FoldLevels(h, level) == TreeHash(h, level)
    decreases |level|
  {
    TreeHashOfReduced(h, level);
    if |level| > 1 {
      FoldIsTreeHash(h, ReduceLevel(h, level));
    }
  }

  // ----- audit paths

  // One sibling. Every position other than "left" is read as "right".
  datatype ProofNode = ProofNode(hash: string, position: string)

  function Hop(h: Hashing, digest: string, node: ProofNode): string {
    if node.position == "left" then h.Node(node.hash, digest) else h.Node(digest, node.hash)
  }

  function Climb(h: Hashing, digest: string, path: seq<ProofNode>): string
    decreases |path|
  {
    if path == [] then digest else Climb(h, Hop(h, digest, path[0]), path[1..])
  }

  lemma {:induction false} ClimbAppend(h: Hashing, digest: string, path: seq<ProofNode>, more: seq<ProofNode>)
    ensures Climb(h, digest, path + more) == Climb(h, Climb(h, digest, path), more)
    decreases |path|
  {
    if path == [] {
      assert path + more == more;
    } else {
      assert (path + more)[1..] == path[1..] + more;
      ClimbAppend(h, Hop(h, digest, path[0]), path[1..], more);
    }
  }

  // The sibling of `i` on its level: none for a promoted node.
  function Sibling(level: seq<string>, i: nat): seq<ProofNode>
    requires i < |level|
  {
    if i % 2 == 1 then [ProofNode(level[i - 1], "left")]
    else if i + 1 < |level| then [ProofNode(level[i + 1], "right")]
    else []
  }

  // Siblings gathered level by level.
  function SiblingPath(h: Hashing, level: seq<string>, i: nat): seq<ProofNode>
    requires i < |level|
    decreases |level|
  {
    if |level| == 1 then []
    else Sibling(level, i) + SiblingPath(h, ReduceLevel(h, level), i / 2)
  }

  // The audit path of section 2.1.1 of RFC 6962, from the leaf upwards.
  function AuditPath(h: Hashing, i: nat, digests: seq<string>): seq<ProofNode>
    requires i < |digests|
    decreases |digests|
  {
    if |digests| == 1 then [] else
    var k := SplitPoint(|digests|);
    if i < k then AuditPath(h, i, digests[..k]) + [ProofNode(TreeHash(h, digests[k..]), "right")]
    else AuditPath(h, i - k, digests[k..]) + [ProofNode(TreeHash(h, digests[..k]), "left")]
  }

  // Both halves of a split level fold into the halves of the folded level.
  lemma ReducedHalves(h: Hashing, d: seq<string>)
    requires |d| > 2
    ensures var k, next := SplitPoint(|d|), ReduceLevel(h, d);
      && k % 2 == 0 && k / 2 == SplitPoint(|next|)
      && next[..k / 2] == ReduceLevel(h, d[..k]) && next[k / 2..] == ReduceLevel(h, d[k..])
      && TreeHash(h, next[..k / 2]) == TreeHash(h, d[..k]) && TreeHash(h, next[k / 2..]) == TreeHash(h, d[k..])
  {
    var k := SplitPoint(|d|);
    ReduceSplits(h, d, k);
    TreeHashOfReduced(h, d[..k]);
    TreeHashOfReduced(h, d[k..]);
  }

  lemma AuditPathUnfolds(h: Hashing, i: nat, d: seq<string>, k: nat)
    requires i < |d| && |d| > 1 && k == SplitPoint(|d|)
    ensures i < k ==> AuditPath(h, i, d) == AuditPath(h, i, d[..k]) + [ProofNode(TreeHash(h, d[k..]), "right")]
    ensures i >= k ==> AuditPath(h, i, d) == AuditPath(h, i - k, d[k..]) + [ProofNode(TreeHash(h, d[..k]), "left")]
  {
  }

  ghost predicate AuditPathReduces(h: Hashing, i: nat, d: seq<string>)
    requires i < |d|
  {
    AuditPath(h, i, d) == Sibling(d, i) + AuditPath(h, i / 2, ReduceLevel(h, d))
  }

  lemma AuditPathReducesLeft(h: Hashing, i: nat, d: seq<string>, k: nat)
    requires |d| > 2 && i < k == SplitPoint(|d|) && AuditPathReduces(h, i, d[..k])
    ensures AuditPathReduces(h, i, d)
  {
    hide TreeHash, ReduceLevel, SplitPoint, AuditPath;
    var next, up := ReduceLevel(h, d), [ProofNode(TreeHash(h, d[k..]), "right")];
    ReducedHalves(h, d);
    AuditPathUnfolds(h, i, d, k);
    AuditPathUnfolds(h, i / 2, next, k / 2);
    assert Sibling(d[..k], i) == Sibling(d, i);
    assert AuditPath(h, i / 2, next) == AuditPath(h, i / 2, next[..k / 2]) + up;
    PrependThroughAppend(Sibling(d, i), AuditPath(h, i / 2, next[..k / 2]), up);
  }

  lemma HalfDifference(i: nat, k: nat)
    requires k <= i && k % 2 == 0
    ensures (i - k) / 2 == i / 2 - k / 2 && (i - k) % 2 == i % 2
  {
  }

  lemma AuditPathReducesRight(h: Hashing, i: nat, d: seq<string>, k: nat)
    requires |d| > 2 && k == SplitPoint(|d|) <= i < |d| && AuditPathReduces(h, i - k, d[k..])
    ensures AuditPathReduces(h, i, d)
  {
    hide TreeHash, ReduceLevel, SplitPoint, AuditPath;
    var next, up := ReduceLevel(h, d), [ProofNode(TreeHash(h, d[..k]), "left")];
    ReducedHalves(h, d);
    AuditPathUnfolds(h, i, d, k);
    AuditPathUnfolds(h, i / 2, next, k / 2);
    HalfDifference(i, k);
    assert Sibling(d[k..], i - k) == Sibling(d, i);
    assert AuditPath(h, i / 2, next) == AuditPath(h, i / 2 - k / 2, next[k / 2..]) + up;
    PrependThroughAppend(Sibling(d, i), AuditPath(h, i / 2 - k / 2, next[k / 2..]), up);
  }

  lemma {:induction false} AuditPathOfReduced(h: Hashing, i: nat, d: seq<string>)
    requires i < |d|
    ensures AuditPathReduces(h, i, d)
    decreases |d|
  {
    if |d| == 2 {
      assert d[..1] == [d[0]] && d[1..] == [d[1]];
    } else if |d| > 2 {
      var k := SplitPoint(|d|);
      if i < k {
        AuditPathOfReduced(h, i, d[..k]);
        AuditPathReducesLeft(h, i, d, k);
      } else {
        AuditPathOfReduced(h, i - k, d[k..]);
        AuditPathReducesRight(h, i, d, k);
      }
    }
  }

  lemma PrependThroughAppend<T>(a: seq<T>, b: seq<T>, c: seq<T>)
    ensures (a + b) + c == a + (b + c)
  {
  }

  lemma {:induction false} SiblingPathIsAuditPath(h: Hashing, level: seq<string>, i: nat)
    requires i < |level|
    ensures SiblingPath(h, level, i) == AuditPath(h, i, level)
    decreases |level|
  {
    if |level| > 1 {
      AuditPathOfReduced(h, i, level);
      SiblingPathIsAuditPath(h, ReduceLevel(h, level), i / 2);
    }
  }

  lemma {:induction false} AuditPathClimbs(h: Hashing, i: nat, d: seq<string>)
    requires i < |d|
    ensures Climb(h, d[i], AuditPath(h, i, d)) == TreeHash(h, d)
    decreases |d|
  {
    if |d| > 1 {
      var k := SplitPoint(|d|);
      var below := if i < k then d[..k] else d[k..];
      var j := if i < k then i else i - k;
      var top := AuditPath(h, i, d)[|AuditPath(h, i, d)| - 1..];
      AuditPathClimbs(h, j, below);
      ClimbAppend(h, d[i], AuditPath(h, j, below), top);
    }
  }

  // ----- heights

  function Pow2(n: nat): (p: nat)
    ensures p > 0
  {
    if n == 0 then 1 else 2 * Pow2(n - 1)
  }

  // How many levels of folding n nodes take: the least c with n <= 2^c.
  function CeilLog2(n: nat): (c: nat)
    ensures n <= Pow2(c)
    ensures c > 0 ==> Pow2(c - 1) < n
  {
    if n <= 1 then 0 else 1 + CeilLog2((n + 1) / 2)
  }

  lemma {:induction false} SiblingPathHeight(h: Hashing, level: seq<string>, i: nat)
    requires i < |level|
    ensures |SiblingPath(h, level, i)| <= CeilLog2(|level|)
    decreases |level|
  {
    if |level| > 1 {
      SiblingPathHeight(h, ReduceLevel(h, level), i / 2);
    }
  }
}

// What the top root of cpa/cpa.go commits to across partitions.
module CpaTop {
  import opened Prelude
  import opened MerkleTree
  import opened MerkleSoundness
  import opened Cpa

  // The hash tree as a value.
  datatype Tree = Tip(text: string) | Fork(left: Tree, right: Tree)

  function Digest(h: Hashing, t: Tree): string {
    match t
    case Tip(text) => h.Leaf(text)
    case Fork(left, right) => h.Node(Digest(h, left), Digest(h, right))
  }

  function Preimage(h: Hashing, t: Tree): string {
    match t
    case Tip(text) => h.leafTag + text
    case Fork(left, right) => h.nodeTag + Digest(h, left) + Digest(h, right)
  }

  function TreeCollision(h: Hashing, t: Tree, u: Tree): Collision {
    var p, q := Preimage(h, t), Preimage(h, u);
    if p != q || t.Tip? || u.Tip? then Collision(p, q)
    else if t.left != u.left then TreeCollision(h, t.left, u.left)
    else TreeCollision(h, t.right, u.right)
  }

  // A digest determines the whole tree, shape included.
  lemma {:induction false} TreeBinds(h: Hashing, t: Tree, u: Tree)
    requires h.Valid() && Digest(h, t) == Digest(h, u)
    ensures t == u || Breaks(h, TreeCollision(h, t, u))
  {
    var p, q := Preimage(h, t), Preimage(h, u);
    if p == q {
      if t.Tip? && u.Tip? {
        SplitEqual(h.leafTag, t.text, h.leafTag, u.text);
      } else if t.Tip? {
        TagsDisagree(h, t.text, Digest(h, u.left), Digest(h, u.right));
      } else if u.Tip? {
        TagsDisagree(h, u.text, Digest(h, t.left), Digest(h, t.right));
      } else {
        NodeInputsAgree(h.nodeTag, Digest(h, t.left), Digest(h, t.right), Digest(h, u.left), Digest(h, u.right));
        if t.left != u.left {
          TreeBinds(h, t.left, u.left);
        } else {
          TreeBinds(h, t.right, u.right);
        }
      }
    }
  }

  // ----- the tree of a level

  function Combine(parts: seq<Tree>): Tree
    requires |parts| > 0
    decreases |parts|
  {
    if |parts| == 1 then parts[0] else
    var k := SplitPoint(|parts|);
    Fork(Combine(parts[..k]), Combine(parts[k..]))
  }

  function TreeDigests(h: Hashing, parts: seq<Tree>): (r: seq<string>)
    ensures |r| == |parts|
    ensures forall i :: 0 <= i < |r| ==> r[i] == Digest(h, parts[i])
  {
    seq(|parts|, i requires 0 <= i < |parts| => Digest(h, parts[i]))
  }

  lemma {:induction false} CombineDigest(h: Hashing, parts: seq<Tree>)
    requires |parts| > 0
    ensures Digest(h, Combine(parts)) == TreeHash(h, TreeDigests(h, parts))
    decreases |parts|
  {
    if |parts| > 1 {
      var k := SplitPoint(|parts|);
      CombineDigest(h, parts[..k]);
      CombineDigest(h, parts[k..]);
      assert TreeDigests(h, parts)[..k] == TreeDigests(h, parts[..k]);
      assert TreeDigests(h, parts)[k..] == TreeDigests(h, parts[k..]);
    }
  }

  function Flatten(t: Tree): seq<string> {
    match t
    case Tip(text) => [text]
    case Fork(left, right) => Flatten(left) + Flatten(right)
  }

  function Concat<T>(parts: seq<seq<T>>): seq<T> {
    if parts == [] then [] else parts[0] + Concat(parts[1..])
  }

  lemma {:induction false} ConcatAppend<T>(a: seq<seq<T>>, b: seq<seq<T>>)
    ensures Concat(a + b) == Concat(a) + Concat(b)
  {
    if a == [] {
      assert a + b == b;
    } else {
      assert (a + b)[1..] == a[1..] + b;
      ConcatAppend(a[1..], b);
    }
  }

  function Flattened(parts: seq<Tree>): (r: seq<seq<string>>)
    ensures |r| == |parts|
    ensures forall i :: 0 <= i < |r| ==> r[i] == Flatten(parts[i])
  {
    seq(|parts|, i requires 0 <= i < |parts| => Flatten(parts[i]))
  }

  lemma {:induction false} FlattenCombine(parts: seq<Tree>)
    requires |parts| > 0
    ensures Flatten(Combine(parts)) == Concat(Flattened(parts))
    decreases |parts|
  {
    var f := Flattened(parts);
    if |parts| == 1 {
      assert f == [f[0]] && f[1..] == [];
      assert f[0] + [] == f[0];
    } else {
      var k := SplitPoint(|parts|);
      FlattenCombine(parts[..k]);
      FlattenCombine(parts[k..]);
      assert f[..k] == Flattened(parts[..k]) && f[k..] == Flattened(parts[k..]);
      assert f == f[..k] + f[k..];
      ConcatAppend(f[..k], f[k..]);
    }
  }

  // ----- partitions

  predicate Hashable(part: seq<LeafPreimage>) {
    part != [] && Encodable(part)
  }

  function Tips(part: seq<LeafPreimage>): (r: seq<Tree>)
    requires Hashable(part)
    ensures |r| == |part|
    ensures forall i :: 0 <= i < |r| ==> r[i] == Tip(LeafText(part[i]).value)
  {
    seq(|part|, i requires 0 <= i < |part| => Tip(LeafText(part[i]).value))
  }

  function PartitionRoot(sha256: string -> string, part: seq<LeafPreimage>): string
    requires Hashable(part)
  {
    Root(Tagged(sha256), LeafTexts(part))
  }

  predicate AllHashable(parts: seq<seq<LeafPreimage>>) {
    forall i :: 0 <= i < |parts| ==> Hashable(parts[i])
  }

  function PartitionRoots(sha256: string -> string, parts: seq<seq<LeafPreimage>>): (r: seq<string>)
    requires AllHashable(parts)
    ensures |r| == |parts|
    ensures forall i :: 0 <= i < |r| ==> r[i] == PartitionRoot(sha256, parts[i])
  {
    seq(|parts|, i requires 0 <= i < |parts| => PartitionRoot(sha256, parts[i]))
  }

  function PartitionTrees(parts: seq<seq<LeafPreimage>>): (r: seq<Tree>)
    requires AllHashable(parts)
    ensures |r| == |parts|
    ensures forall i :: 0 <= i < |r| ==> r[i] == Combine(Tips(parts[i]))
  {
    seq(|parts|, i requires 0 <= i < |parts| => Combine(Tips(parts[i])))
  }

  lemma PartitionTreeDigest(sha256: string -> string, part: seq<LeafPreimage>)
    requires Hashable(part)
    ensures Digest(Tagged(sha256), Combine(Tips(part))) == PartitionRoot(sha256, part)
  {
    var h := Tagged(sha256);
    CombineDigest(h, Tips(part));
    assert TreeDigests(h, Tips(part)) == Digests(h, LeafTexts(part));
  }

  lemma TopTreeDigest(sha256: string -> string, parts: seq<seq<LeafPreimage>>)
    requires AllHashable(parts) && parts != []
    ensures Digest(Tagged(sha256), Combine(PartitionTrees(parts))) == TopRoot(sha256, PartitionRoots(sha256, parts))
  {
    var h := Tagged(sha256);
    forall i | 0 <= i < |parts| ensures Digest(h, PartitionTrees(parts)[i]) == PartitionRoots(sha256, parts)[i] {
      PartitionTreeDigest(sha256, parts[i]);
    }
    CombineDigest(h, PartitionTrees(parts));
    assert TreeDigests(h, PartitionTrees(parts)) == PartitionRoots(sha256, parts);
  }

  lemma {:induction false} ConcatEncodable(parts: seq<seq<LeafPreimage>>)
    requires AllHashable(parts)
    ensures Encodable(Concat(parts))
  {
    hide LeafText;
    if parts != [] {
      assert AllHashable(parts[1..]);
      ConcatEncodable(parts[1..]);
      EncodableAppend(parts[0], Concat(parts[1..]));
    }
  }

  lemma EncodableAppend(a: seq<LeafPreimage>, b: seq<LeafPreimage>)
    requires Encodable(a) && Encodable(b)
    ensures Encodable(a + b) && LeafTexts(a + b) == LeafTexts(a) + LeafTexts(b)
  {
    hide LeafText;
  }

  lemma {:induction false} TipTexts(part: seq<LeafPreimage>)
    requires Hashable(part)
    ensures Concat(Flattened(Tips(part))) == LeafTexts(part)
    decreases |part|
  {
    hide LeafText;
    var f := Flattened(Tips(part));
    if |part| == 1 {
      assert f == [[LeafText(part[0]).value]] && f[1..] == [];
      assert LeafTexts(part) == [LeafText(part[0]).value] + [];
    } else {
      TipTexts(part[1..]);
      assert f[1..] == Flattened(Tips(part[1..]));
      assert LeafTexts(part) == [LeafText(part[0]).value] + LeafTexts(part[1..]);
    }
  }

  lemma {:induction false} TreeTexts(parts: seq<seq<LeafPreimage>>)
    requires AllHashable(parts)
    ensures Encodable(Concat(parts))
    ensures Concat(Flattened(PartitionTrees(parts))) == LeafTexts(Concat(parts))
  {
    hide LeafText;
    ConcatEncodable(parts);
    if parts != [] {
      var f := Flattened(PartitionTrees(parts));
      assert AllHashable(parts[1..]);
      FlattenCombine(Tips(parts[0]));
      TipTexts(parts[0]);
      TreeTexts(parts[1..]);
      assert f[1..] == Flattened(PartitionTrees(parts[1..]));
      EncodableAppend(parts[0], Concat(parts[1..]));
    }
  }

  function TopCollision(sha256: string -> string, a: seq<seq<LeafPreimage>>, b: seq<seq<LeafPreimage>>): Collision
    requires AllHashable(a) && AllHashable(b)
  {
    var h := Tagged(sha256);
    if a != [] && b != [] then TreeCollision(h, Combine(PartitionTrees(a)), Combine(PartitionTrees(b)))
    else Collision(
           if a == [] then NODE_TAG + EMPTY_SENTINEL else Preimage(h, Combine(PartitionTrees(a))),
           if b == [] then NODE_TAG + EMPTY_SENTINEL else Preimage(h, Combine(PartitionTrees(b))))
  }

  lemma NotTheEmptySentinel(sha256: string -> string, t: Tree)
    requires FixedWidth(sha256)
    ensures Preimage(Tagged(sha256), t) != NODE_TAG + EMPTY_SENTINEL
    ensures Digest(Tagged(sha256), t) == sha256(Preimage(Tagged(sha256), t))
  {
    var h := Tagged(sha256);
    if t.Tip? {
      TaggedValid(sha256);
      TagsDisagree(h, t.text, EMPTY_SENTINEL, "");
      assert NODE_TAG + EMPTY_SENTINEL + "" == NODE_TAG + EMPTY_SENTINEL;
    } else {
      assert |Preimage(h, t)| == |NODE_TAG| + |Digest(h, t.left)| + |Digest(h, t.right)|;
      assert |Digest(h, t.left)| == WIDTH;
    }
  }

  // All that the top root is computed from: the tree the partitions combine to.
  function TopTree(parts: seq<seq<LeafPreimage>>): Option<Tree>
    requires AllHashable(parts)
  {
    if parts == [] then None else Some(Combine(PartitionTrees(parts)))
  }

  lemma TopRootOfTree(sha256: string -> string, parts: seq<seq<LeafPreimage>>)
    requires AllHashable(parts)
    ensures TopRoot(sha256, PartitionRoots(sha256, parts)) ==
      match TopTree(parts) case None => sha256(NODE_TAG + EMPTY_SENTINEL) case Some(t) => Digest(Tagged(sha256), t)
  {
    if parts != [] {
      TopTreeDigest(sha256, parts);
    }
  }

  // Top roots are equal exactly when the partitions combine to the same tree,
  // up to a computed collision.
  lemma TopRootExactly(sha256: string -> string, a: seq<seq<LeafPreimage>>, b: seq<seq<LeafPreimage>>)
    requires FixedWidth(sha256) && AllHashable(a) && AllHashable(b)
    ensures TopTree(a) == TopTree(b) ==>
      TopRoot(sha256, PartitionRoots(sha256, a)) == TopRoot(sha256, PartitionRoots(sha256, b))
    ensures TopRoot(sha256, PartitionRoots(sha256, a)) == TopRoot(sha256, PartitionRoots(sha256, b)) ==>
      TopTree(a) == TopTree(b) || Breaks(Tagged(sha256), TopCollision(sha256, a, b))
  {
    hide Hashable, LeafText, TopRoot, Combine;
    TopRootOfTree(sha256, a);
    TopRootOfTree(sha256, b);
    TaggedValid(sha256);
    if a != [] {
      NotTheEmptySentinel(sha256, Combine(PartitionTrees(a)));
    }
    if b != [] {
      NotTheEmptySentinel(sha256, Combine(PartitionTrees(b)));
    }
    if a != [] && b != [] && Digest(Tagged(sha256), TopTree(a).value) == Digest(Tagged(sha256), TopTree(b).value) {
      TreeBinds(Tagged(sha256), TopTree(a).value, TopTree(b).value);
    }
  }

  // The tree keeps the leaves and their order across all partitions.
  lemma TopTreeBindsLeaves(a: seq<seq<LeafPreimage>>, b: seq<seq<LeafPreimage>>)
    requires AllHashable(a) && AllHashable(b) && TopTree(a) == TopTree(b)
    ensures Concat(a) == Concat(b)
  {
    hide Hashable, LeafText, Combine;
    if a != [] {
      FlattenCombine(PartitionTrees(a));
      FlattenCombine(PartitionTrees(b));
      TreeTexts(a);
      TreeTexts(b);
      TextsDetermineLeaves(Concat(a), Concat(b));
    }
  }

  // Equal top roots mean the same leaves in the same order across all
  // partitions, none added, lost or moved past another; or a computed collision.
  lemma TopRootBindsLeaves(sha256: string -> string, a: seq<seq<LeafPreimage>>, b: seq<seq<LeafPreimage>>)
    requires FixedWidth(sha256) && AllHashable(a) && AllHashable(b)
    requires TopRoot(sha256, PartitionRoots(sha256, a)) == TopRoot(sha256, PartitionRoots(sha256, b))
    ensures Concat(a) == Concat(b) || Breaks(Tagged(sha256), TopCollision(sha256, a, b))
  {
    hide TopRoot, TopTree;
    TopRootExactly(sha256, a, b);
    if TopTree(a) == TopTree(b) {
      TopTreeBindsLeaves(a, b);
    }
  }

  // The boundaries between partitions are not committed to: two leaves in one
  // partition and the same leaves in two partitions combine to one tree.
  lemma BoundariesNotBound(sha256: string -> string, a: LeafPreimage, b: LeafPreimage)
    requires LeafText(a).Some? && LeafText(b).Some?
    ensures AllHashable([[a, b]]) && AllHashable([[a], [b]]) && TopTree([[a, b]]) == TopTree([[a], [b]])
    ensures TopRoot(sha256, PartitionRoots(sha256, [[a, b]])) == TopRoot(sha256, PartitionRoots(sha256, [[a], [b]]))
  {
    assert Hashable([a, b]) && Hashable([a]) && Hashable([b]);
    hide LeafText;
    TwoTips(a, b);
    TopRootOfTree(sha256, [[a, b]]);
    TopRootOfTree(sha256, [[a], [b]]);
  }

  lemma TwoTips(a: LeafPreimage, b: LeafPreimage)
    requires LeafText(a).Some? && LeafText(b).Some? && Hashable([a, b]) && Hashable([a]) && Hashable([b])
    ensures TopTree([[a, b]]) == TopTree([[a], [b]])
  {
    hide LeafText;
    var s, t := Tip(LeafText(a).value), Tip(LeafText(b).value);
    assert SplitPoint(2) == 1;
    assert Tips([a, b]) == [s, t] && Tips([a]) == [s] && Tips([b]) == [t];
    assert [s, t][..1] == [s] && [s, t][1..] == [t];
    assert Combine([s, t]) == Fork(s, t) && Combine([s]) == s && Combine([t]) == t;
    assert PartitionTrees([[a, b]]) == [Fork(s, t)] && PartitionTrees([[a], [b]]) == [s, t];
  }

  // What a caller must keep to for the boundaries to be recoverable: one
  // channel per partition, and a different one in the next.
  predicate OneChannelEach(parts: seq<seq<LeafPreimage>>) {
    && (forall i :: 0 <= i < |parts| ==> parts[i] != [])
    && (forall i, j :: 0 <= i < |parts| && 0 <= j < |parts[i]| ==> parts[i][j].channel == parts[i][0].channel)
    && (forall i :: 0 < i < |parts| ==> parts[i - 1][0].channel != parts[i][0].channel)
  }

  // The first partition is the first run of one channel.
  lemma FirstRun(a: seq<seq<LeafPreimage>>)
    requires OneChannelEach(a) && a != []
    ensures var all, n := Concat(a), |a[0]|;
      && 0 < n <= |all| && all[..n] == a[0] && all[n..] == Concat(a[1..])
      && (forall j :: 0 <= j < n ==> all[j].channel == all[0].channel)
      && (n < |all| ==> all[n].channel != all[0].channel)
  {
    var all, n := Concat(a), |a[0]|;
    assert all == a[0] + Concat(a[1..]);
    if n < |all| {
      assert a[1..] != [] && a[1..][0] == a[1];
      assert all[n] == Concat(a[1..])[0] == a[1][0];
    }
  }

  lemma {:induction false} BoundariesRecoverable(a: seq<seq<LeafPreimage>>, b: seq<seq<LeafPreimage>>)
    requires OneChannelEach(a) && OneChannelEach(b) && Concat(a) == Concat(b)
    ensures a == b
  {
    if a != [] {
      FirstRun(a);
    }
    if b != [] {
      FirstRun(b);
    }
    if a != [] && b != [] {
      RunsEndTogether(Concat(a), |a[0]|, |b[0]|);
      BoundariesRecoverable(a[1..], b[1..]);
      assert a == [a[0]] + a[1..] && b == [b[0]] + b[1..];
    }
  }

  lemma RunsEndTogether(all: seq<LeafPreimage>, m: nat, n: nat)
    requires 0 < m <= |all| && 0 < n <= |all|
    requires forall j :: 0 <= j < m ==> all[j].channel == all[0].channel
    requires forall j :: 0 <= j < n ==> all[j].channel == all[0].channel
    requires m < |all| ==> all[m].channel != all[0].channel
    requires n < |all| ==> all[n].channel != all[0].channel
    ensures m == n
  {
  }

  // With one channel per partition the top root determines every partition.
  lemma TopRootBindsPartitions(sha256: string -> string, a: seq<seq<LeafPreimage>>, b: seq<seq<LeafPreimage>>)
    requires FixedWidth(sha256) && AllHashable(a) && AllHashable(b)
    requires OneChannelEach(a) && OneChannelEach(b)
    requires TopRoot(sha256, PartitionRoots(sha256, a)) == TopRoot(sha256, PartitionRoots(sha256, b))
    ensures a == b || Breaks(Tagged(sha256), TopCollision(sha256, a, b))
  {
    TopRootBindsLeaves(sha256, a, b);
    if Concat(a) == Concat(b) {
      BoundariesRecoverable(a, b);
    }
  }
}

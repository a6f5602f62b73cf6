// What acceptance against a Merkle root commits to. A hash of fixed width has
// collisions, so "or a collision exists" would say nothing: every claim below
// comes with a function that computes the colliding pair from the very inputs
// that were accepted.
module MerkleSoundness {
  import opened MerkleTree

  datatype Collision = Collision(a: string, b: string)

  predicate Breaks(h: Hashing, c: Collision) {
    c.a != c.b && h.hash(c.a) == h.hash(c.b)
  }

  function Digests(h: Hashing, leaves: seq<string>): (r: seq<string>)
    ensures |r| == |leaves|
    ensures forall i :: 0 <= i < |r| ==> r[i] == h.Leaf(leaves[i])
  {
    seq(|leaves|, i requires 0 <= i < |leaves| => h.Leaf(leaves[i]))
  }

  lemma DigestsSlice(h: Hashing, leaves: seq<string>, k: nat)
    requires k <= |leaves|
    ensures Digests(h, leaves)[..k] == Digests(h, leaves[..k])
    ensures Digests(h, leaves)[k..] == Digests(h, leaves[k..])
  {
  }

  function Root(h: Hashing, leaves: seq<string>): string
    requires |leaves| > 0
  {
    TreeHash(h, Digests(h, leaves))
  }

  // The bytes whose hash is the root.
  function RootPreimage(h: Hashing, leaves: seq<string>): string
    requires |leaves| > 0
  {
    if |leaves| == 1 then h.leafTag + leaves[0] else
    var k := SplitPoint(|leaves|);
    h.nodeTag + Root(h, leaves[..k]) + Root(h, leaves[k..])
  }

  lemma RootOfHalves(h: Hashing, leaves: seq<string>)
    requires |leaves| > 1
    ensures var k := SplitPoint(|leaves|); Root(h, leaves) == h.Node(Root(h, leaves[..k]), Root(h, leaves[k..]))
  {
    DigestsSlice(h, leaves, SplitPoint(|leaves|));
  }

  lemma RootIsHash(h: Hashing, leaves: seq<string>)
    requires |leaves| > 0
    ensures Root(h, leaves) == h.hash(RootPreimage(h, leaves))
  {
    if |leaves| > 1 {
      RootOfHalves(h, leaves);
    }
  }

  lemma TreeHashWidth(h: Hashing, leaves: seq<string>)
    requires h.Valid() && |leaves| > 0
    ensures |Root(h, leaves)| == h.width
  {
    RootIsHash(h, leaves);
  }

  // ----- inclusion

  // The bytes the last hash of a climb is taken over.
  function ClimbPreimage(h: Hashing, value: string, path: seq<ProofNode>): string {
    if path == [] then h.leafTag + value else
    var below := Climb(h, h.Leaf(value), path[..|path| - 1]);
    var top := path[|path| - 1];
    if top.position == "left" then h.nodeTag + top.hash + below else h.nodeTag + below + top.hash
  }

  lemma ClimbIsHash(h: Hashing, value: string, path: seq<ProofNode>)
    ensures Climb(h, h.Leaf(value), path) == h.hash(ClimbPreimage(h, value, path))
  {
    if path != [] {
      var below, top := path[..|path| - 1], path[|path| - 1..];
      assert path == below + top;
      ClimbAppend(h, h.Leaf(value), below, top);
      assert Climb(h, Climb(h, h.Leaf(value), below), top) == Hop(h, Climb(h, h.Leaf(value), below), top[0]);
    }
  }

  // Walks the tree and the climb down from their common root until the hashed
  // bytes differ.
  function InclusionCollision(h: Hashing, leaves: seq<string>, value: string, path: seq<ProofNode>): Collision
    requires |leaves| > 0
    decreases |leaves|
  {
    var mine, tree := ClimbPreimage(h, value, path), RootPreimage(h, leaves);
    if mine != tree || |leaves| == 1 || path == [] then Collision(mine, tree) else
    var k := SplitPoint(|leaves|);
    var half := if path[|path| - 1].position == "left" then leaves[k..] else leaves[..k];
    InclusionCollision(h, half, value, path[..|path| - 1])
  }

  lemma SplitEqual(a: string, b: string, c: string, d: string)
    requires a + b == c + d && (|a| == |c| || |b| == |d|)
    ensures a == c && b == d
  {
    assert |a + b| == |c + d|;
    assert (a + b)[..|a|] == a && (a + b)[|a|..] == b;
    assert (c + d)[..|c|] == c && (c + d)[|c|..] == d;
  }

  // Nothing but the order of its children can change under a node's tag.
  lemma NodeInputsAgree(tag: string, a: string, b: string, c: string, d: string)
    requires tag + a + b == tag + c + d && (|a| == |c| || |b| == |d|)
    ensures a == c && b == d
  {
    assert tag + a + b == tag + (a + b) && tag + c + d == tag + (c + d);
    SplitEqual(tag, a + b, tag, c + d);
    SplitEqual(a, b, c, d);
  }

  lemma TagsDisagree(h: Hashing, x: string, l: string, r: string)
    requires h.Valid()
    ensures h.leafTag + x != h.nodeTag + l + r
  {
    assert (h.leafTag + x)[..|h.leafTag|] == h.leafTag;
    assert (h.nodeTag + l + r)[..|h.nodeTag|] == h.nodeTag;
  }

  // Siblings of any length whatever: acceptance proves membership, or the
  // function above hands over a collision.
  lemma {:induction false} InclusionSound(h: Hashing, leaves: seq<string>, value: string, path: seq<ProofNode>)
    requires h.Valid() && |leaves| > 0
    requires Climb(h, h.Leaf(value), path) == Root(h, leaves)
    ensures value in leaves || Breaks(h, InclusionCollision(h, leaves, value, path))
    decreases |leaves|
  {
    var mine, tree := ClimbPreimage(h, value, path), RootPreimage(h, leaves);
    ClimbIsHash(h, value, path);
    RootIsHash(h, leaves);
    if mine == tree {
      if |leaves| == 1 {
        if path == [] {
          SplitEqual(h.leafTag, value, h.leafTag, leaves[0]);
        } else {
          ClimbTagged(h, value, path);
          TagsDisagree(h, leaves[0], mine[|h.nodeTag|..], "");
        }
      } else if path == [] {
        var k := SplitPoint(|leaves|);
        TagsDisagree(h, value, Root(h, leaves[..k]), Root(h, leaves[k..]));
      } else {
        var k := SplitPoint(|leaves|);
        HalfClimbs(h, leaves, value, path, k);
        var half := if path[|path| - 1].position == "left" then leaves[k..] else leaves[..k];
        InclusionSound(h, half, value, path[..|path| - 1]);
      }
    }
  }

  lemma ClimbTagged(h: Hashing, value: string, path: seq<ProofNode>)
    requires path != []
    ensures var mine := ClimbPreimage(h, value, path);
      |h.nodeTag| <= |mine| && mine == h.nodeTag + mine[|h.nodeTag|..] + ""
  {
  }

  lemma HalfClimbs(h: Hashing, leaves: seq<string>, value: string, path: seq<ProofNode>, k: nat)
    requires h.Valid() && |leaves| > 1 && path != [] && k == SplitPoint(|leaves|)
    requires ClimbPreimage(h, value, path) == RootPreimage(h, leaves)
    ensures var half := if path[|path| - 1].position == "left" then leaves[k..] else leaves[..k];
      Climb(h, h.Leaf(value), path[..|path| - 1]) == Root(h, half)
  {
    hide Root, TreeHash;
    var below, top := Climb(h, h.Leaf(value), path[..|path| - 1]), path[|path| - 1];
    var l, r := Root(h, leaves[..k]), Root(h, leaves[k..]);
    ClimbIsHash(h, value, path[..|path| - 1]);
    TreeHashWidth(h, leaves[..k]);
    TreeHashWidth(h, leaves[k..]);
    if top.position == "left" {
      NodeInputsAgree(h.nodeTag, top.hash, below, l, r);
    } else {
      NodeInputsAgree(h.nodeTag, below, top.hash, l, r);
    }
  }

  // ----- a root binds its leaves

  function RootCollision(h: Hashing, a: seq<string>, b: seq<string>): Collision
    requires |a| > 0 && |b| > 0
    decreases |a|
  {
    var pa, pb := RootPreimage(h, a), RootPreimage(h, b);
    if pa != pb || |a| == 1 || |b| == 1 then Collision(pa, pb) else
    var j, k := SplitPoint(|a|), SplitPoint(|b|);
    if a[..j] != b[..k] then RootCollision(h, a[..j], b[..k]) else RootCollision(h, a[j..], b[k..])
  }

  // Equal roots mean equal leaf lists, whatever their lengths.
  lemma {:induction false} RootBinds(h: Hashing, a: seq<string>, b: seq<string>)
    requires h.Valid() && |a| > 0 && |b| > 0
    requires Root(h, a) == Root(h, b)
    ensures a == b || Breaks(h, RootCollision(h, a, b))
    decreases |a|
  {
    hide SplitPoint, Root;
    var pa, pb := RootPreimage(h, a), RootPreimage(h, b);
    RootIsHash(h, a);
    RootIsHash(h, b);
    if pa == pb && a != b {
      if |a| == 1 && |b| == 1 {
        SplitEqual(h.leafTag, a[0], h.leafTag, b[0]);
      } else if |a| == 1 {
        var k := SplitPoint(|b|);
        TagsDisagree(h, a[0], Root(h, b[..k]), Root(h, b[k..]));
      } else if |b| == 1 {
        var k := SplitPoint(|a|);
        TagsDisagree(h, b[0], Root(h, a[..k]), Root(h, a[k..]));
      } else {
        var j, k := SplitPoint(|a|), SplitPoint(|b|);
        HalvesAgree(h, a, b);
        assert a == a[..j] + a[j..] && b == b[..k] + b[k..];
        if a[..j] != b[..k] {
          RootBinds(h, a[..j], b[..k]);
        } else {
          RootBinds(h, a[j..], b[k..]);
        }
      }
    }
  }

  lemma HalvesAgree(h: Hashing, a: seq<string>, b: seq<string>)
    requires h.Valid() && |a| > 1 && |b| > 1 && RootPreimage(h, a) == RootPreimage(h, b)
    ensures var j, k := SplitPoint(|a|), SplitPoint(|b|);
      Root(h, a[..j]) == Root(h, b[..k]) && Root(h, a[j..]) == Root(h, b[k..])
  {
    hide Root;
    var j, k := SplitPoint(|a|), SplitPoint(|b|);
    TreeHashWidth(h, a[..j]);
    TreeHashWidth(h, b[..k]);
    NodeInputsAgree(h.nodeTag, Root(h, a[..j]), Root(h, a[j..]), Root(h, b[..k]), Root(h, b[k..]));
  }
}

// The Context Provenance Attestation commitments of cpa/cpa.go.
module Cpa {
  import opened Prelude
  import opened Lexicographic
  import opened Sorting
  import opened Utf8
  import opened Decimals
  import opened Jcs
  import opened JsonReader
  import opened JcsRoundTrip
  import opened JcsIdentity
  import opened MerkleTree
  import opened MerkleSoundness

  const LEAF_TAG := "CPA:v0.1:leaf\n"
  const NODE_TAG := "CPA:v0.1:node\n"
  const EMPTY_SENTINEL := "EMPTY"
  const WIDTH := 32

  function Tagged(sha256: string -> string): Hashing {
    Hashing(sha256, LEAF_TAG, NODE_TAG, WIDTH)
  }

  ghost predicate FixedWidth(sha256: string -> string) {
    forall x :: |sha256(x)| == WIDTH
  }

  lemma TaggedValid(sha256: string -> string)
    requires FixedWidth(sha256)
    ensures Tagged(sha256).Valid()
  {
    assert LEAF_TAG[9] != NODE_TAG[9];
  }

  datatype LeafPreimage = LeafPreimage(byteLen: Int64, channel: string, contentRef: string, ctxId: string)

  function PreimageValue(p: LeafPreimage): GoValue {
    Map(map[
      "byte_len" := Integer(p.byteLen),
      "channel" := Text(p.channel),
      "content_ref" := Text(p.contentRef),
      "ctx_id" := Text(p.ctxId)
    ])
  }

  // None when some string is not valid UTF-8.
  function LeafText(p: LeafPreimage): Option<string> {
    if Writable(PreimageValue(p)) then Some(Canon(PreimageValue(p))) else None
  }

  lemma DecimalOfIntInjective(i: int, j: int)
    requires DecimalOfInt(i) == DecimalOfInt(j)
    ensures i == j
  {
    if i != 0 && j != 0 {
      var a, b := Itoa(Abs(i)), Itoa(Abs(j));
      assert a == TrimZeros(a) + Zeros(|a| - |TrimZeros(a)|);
      assert b == TrimZeros(b) + Zeros(|b| - |TrimZeros(b)|);
      assert DigitsValue(a) == DigitsValue(b);
    }
  }

  lemma DenotePreimage(p: LeafPreimage)
    requires Writable(PreimageValue(p))
    ensures Denote(PreimageValue(p)) == JObject(map[
      "byte_len" := JNumber(DecimalOfInt(p.byteLen)),
      "channel" := JString(p.channel),
      "content_ref" := JString(p.contentRef),
      "ctx_id" := JString(p.ctxId)
    ])
  {
    hide Valid, DecimalOfInt;
    var members := PreimageValue(p).members;
    assert members.Keys == {"byte_len", "channel", "content_ref", "ctx_id"};
  }

  // The leaf text determines all four committed fields.
  lemma LeafTextInjective(p: LeafPreimage, q: LeafPreimage)
    requires LeafText(p).Some? && LeafText(p) == LeafText(q)
    ensures p == q
  {
    hide Canon, Writable, Denote, PreimageValue, DecimalOfInt;
    CanonEqualExactly(PreimageValue(p), PreimageValue(q));
    DenotePreimage(p);
    DenotePreimage(q);
    var m, n := Denote(PreimageValue(p)).members, Denote(PreimageValue(q)).members;
    assert m["byte_len"] == n["byte_len"] && m["channel"] == n["channel"];
    assert m["content_ref"] == n["content_ref"] && m["ctx_id"] == n["ctx_id"];
    DecimalOfIntInjective(p.byteLen, q.byteLen);
  }

  // ----- partition roots

  predicate LessByCtxId(a: LeafPreimage, b: LeafPreimage) {
    Less(a.ctxId, b.ctxId)
  }

  lemma CtxIdWeakOrder(s: seq<LeafPreimage>)
    ensures WeakOrder(LessByCtxId, s)
  {
    var ids := seq(|s|, i requires 0 <= i < |s| => s[i].ctxId);
    BytesTotalOrder(ids);
    forall x | x in s ensures x.ctxId in ids {
      var i :| 0 <= i < |s| && s[i] == x;
      assert ids[i] == x.ctxId;
    }
  }

  ghost predicate DistinctCtxIds(leaves: seq<LeafPreimage>) {
    forall i, j :: 0 <= i < j < |leaves| ==> leaves[i].ctxId != leaves[j].ctxId
  }

  // The leaves in the order they are hashed.
  ghost predicate SortedLeaves(leaves: seq<LeafPreimage>, sorted: seq<LeafPreimage>) {
    && multiset(sorted) == multiset(leaves)
    && forall i, j :: 0 <= i < j < |sorted| ==> LessByCtxId(sorted[i], sorted[j])
  }

  lemma CtxIdsDistinctAfter(a: seq<LeafPreimage>, b: seq<LeafPreimage>)
    requires multiset(a) == multiset(b) && DistinctCtxIds(a)
    ensures DistinctCtxIds(b)
  {
    var id := (p: LeafPreimage) => p.ctxId;
    assert DistinctKeys(id, a);
    DistinctKeysPermute(id, a, b);
    forall i, j | 0 <= i < j < |b| ensures b[i].ctxId != b[j].ctxId {
      assert id(b[i]) != id(b[j]);
    }
  }

  method SortLeaves(leaves: seq<LeafPreimage>) returns (r: Option<seq<LeafPreimage>>)
    ensures r.Some? <==> DistinctCtxIds(leaves)
    ensures r.Some? ==> SortedLeaves(leaves, r.value)
  {
    CtxIdWeakOrder(leaves);
    var out := LibrarySort(LessByCtxId, leaves);
    var i := 1;
    while i < |out|
      invariant 1 <= i
      invariant forall j, k :: 0 <= j < k < i && k < |out| ==> LessByCtxId(out[j], out[k])
    {
      if out[i].ctxId == out[i - 1].ctxId {
        if DistinctCtxIds(leaves) {
          CtxIdsDistinctAfter(leaves, out);
        }
        return None;
      }
      LessTotal(out[i - 1].ctxId, out[i].ctxId);
      forall j | 0 <= j < i ensures LessByCtxId(out[j], out[i]) {
        if j < i - 1 {
          LessTransitive(out[j].ctxId, out[i - 1].ctxId, out[i].ctxId);
        }
      }
      i := i + 1;
    }
    forall j, k | 0 <= j < k < |out| ensures out[j].ctxId != out[k].ctxId {
      LessIrreflexive(out[j].ctxId);
    }
    CtxIdsDistinctAfter(out, leaves);
    return Some(out);
  }

  lemma SortedLeavesUnique(a: seq<LeafPreimage>, b: seq<LeafPreimage>, x: seq<LeafPreimage>, y: seq<LeafPreimage>)
    requires multiset(a) == multiset(b) && SortedLeaves(a, x) && SortedLeaves(b, y)
    ensures x == y
  {
    CtxIdWeakOrder(x);
    forall p, q | p in x && q in x && p != q ensures LessByCtxId(p, q) || LessByCtxId(q, p) {
      var i :| 0 <= i < |x| && x[i] == p;
      var j :| 0 <= j < |x| && x[j] == q;
    }
    SortedIsOrdered(a, x);
    SortedIsOrdered(b, y);
    OrderedUnique(LessByCtxId, x, y);
  }

  lemma SortedIsOrdered(a: seq<LeafPreimage>, x: seq<LeafPreimage>)
    requires SortedLeaves(a, x)
    ensures Ordered(LessByCtxId, x)
  {
    forall i, j | 0 <= i < j < |x| ensures !LessByCtxId(x[j], x[i]) {
      if LessByCtxId(x[j], x[i]) {
        LessTransitive(x[i].ctxId, x[j].ctxId, x[i].ctxId);
        LessIrreflexive(x[i].ctxId);
      }
    }
  }

  predicate Encodable(leaves: seq<LeafPreimage>) {
    forall i :: 0 <= i < |leaves| ==> LeafText(leaves[i]).Some?
  }

  function LeafTexts(leaves: seq<LeafPreimage>): (r: seq<string>)
    requires Encodable(leaves)
    ensures |r| == |leaves|
    ensures forall i :: 0 <= i < |r| ==> r[i] == LeafText(leaves[i]).value
  {
    seq(|leaves|, i requires 0 <= i < |leaves| => LeafText(leaves[i]).value)
  }

  // `root` commits to `leaves` hashed in the order `sorted`.
  ghost predicate IsPartitionRoot(sha256: string -> string, leaves: seq<LeafPreimage>, sorted: seq<LeafPreimage>, root: string) {
    && leaves != []
    && SortedLeaves(leaves, sorted)
    && Encodable(sorted)
    && |sorted| > 0
    && root == Root(Tagged(sha256), LeafTexts(sorted))
  }

  method Reduce(h: Hashing, level: seq<string>) returns (r: Option<string>)
    ensures r == if level == [] then None else Some(TreeHash(h, level))
  {
    if |level| == 0 {
      return None;
    }
    var current := level;
    FoldIsTreeHash(h, level);
    while |current| > 1
      invariant |current| > 0 && FoldLevels(h, current) == FoldLevels(h, level)
      decreases |current|
    {
      current := ReduceMerkleLevel(h, current);
    }
    return Some(current[0]);
  }

  method BuildPartitionRootBytes(sha256: string -> string, leaves: seq<LeafPreimage>)
    returns (r: Option<string>, ghost sorted: seq<LeafPreimage>)
    ensures r.Some? <==> leaves != [] && DistinctCtxIds(leaves) && Encodable(leaves)
    ensures r.Some? ==> IsPartitionRoot(sha256, leaves, sorted, r.value)
  {
    hide LeafText, Root, TreeHash, LessByCtxId;
    sorted := [];
    if |leaves| == 0 {
      return None, sorted;
    }
    var h := Tagged(sha256);
    var ordered := SortLeaves(leaves);
    if ordered.None? {
      return None, sorted;
    }
    sorted := ordered.value;
    SameElements(leaves, sorted);
    var digests: seq<string> := [];
    for i := 0 to |ordered.value|
      invariant |digests| == i
      invariant forall k :: 0 <= k < i ==> LeafText(sorted[k]).Some? && digests[k] == h.Leaf(LeafText(sorted[k]).value)
    {
      var text := LeafText(ordered.value[i]);
      if text.None? {
        EncodableEverywhere(leaves, sorted);
        return None, sorted;
      }
      digests := digests + [h.Leaf(text.value)];
    }
    EncodableEverywhere(leaves, sorted);
    assert digests == Digests(h, LeafTexts(sorted));
    r := Reduce(h, digests);
    RootIsTreeHash(h, LeafTexts(sorted));
  }

  lemma RootIsTreeHash(h: Hashing, texts: seq<string>)
    requires |texts| > 0
    ensures Root(h, texts) == TreeHash(h, Digests(h, texts))
  {
  }

  lemma EncodableEverywhere(a: seq<LeafPreimage>, b: seq<LeafPreimage>)
    requires multiset(a) == multiset(b)
    ensures Encodable(a) <==> Encodable(b)
  {
    hide LeafText;
    SameElements(a, b);
    forall i | 0 <= i < |a| ensures exists j :: 0 <= j < |b| && b[j] == a[i] {
      assert a[i] in b;
    }
    forall i | 0 <= i < |b| ensures exists j :: 0 <= j < |a| && a[j] == b[i] {
      assert b[i] in a;
    }
  }

  // The root depends on the leaves alone, not on the order they came in.
  lemma PartitionRootOfPermutation(sha256: string -> string, a: seq<LeafPreimage>, b: seq<LeafPreimage>,
                                   x: seq<LeafPreimage>, y: seq<LeafPreimage>, r: string, s: string)
    requires multiset(a) == multiset(b)
    requires IsPartitionRoot(sha256, a, x, r) && IsPartitionRoot(sha256, b, y, s)
    ensures r == s
  {
    SortedLeavesUnique(a, b, x, y);
  }

  lemma {:induction false} TextsDetermineLeaves(x: seq<LeafPreimage>, y: seq<LeafPreimage>)
    requires Encodable(x) && Encodable(y) && LeafTexts(x) == LeafTexts(y)
    ensures x == y
  {
    assert |x| == |LeafTexts(x)| == |y|;
    forall i | 0 <= i < |x| ensures x[i] == y[i] {
      assert LeafTexts(x)[i] == LeafTexts(y)[i];
      LeafTextInjective(x[i], y[i]);
    }
  }

  // Equal partition roots mean the same leaves, or a computed collision.
  lemma PartitionRootBinds(sha256: string -> string, a: seq<LeafPreimage>, b: seq<LeafPreimage>,
                           x: seq<LeafPreimage>, y: seq<LeafPreimage>, root: string)
    requires FixedWidth(sha256)
    requires IsPartitionRoot(sha256, a, x, root) && IsPartitionRoot(sha256, b, y, root)
    ensures multiset(a) == multiset(b) || Breaks(Tagged(sha256), RootCollision(Tagged(sha256), LeafTexts(x), LeafTexts(y)))
  {
    TaggedValid(sha256);
    RootBinds(Tagged(sha256), LeafTexts(x), LeafTexts(y));
    if LeafTexts(x) == LeafTexts(y) {
      TextsDetermineLeaves(x, y);
    }
  }

  // ----- the top root

  function TopRoot(sha256: string -> string, partitionRoots: seq<string>): string {
    if partitionRoots == [] then sha256(NODE_TAG + EMPTY_SENTINEL) else TreeHash(Tagged(sha256), partitionRoots)
  }

  method BuildTopRootBytes(sha256: string -> string, partitionRoots: seq<string>) returns (r: string)
    ensures r == TopRoot(sha256, partitionRoots)
  {
    if |partitionRoots| == 0 {
      return sha256(NODE_TAG + EMPTY_SENTINEL);
    }
    var root := Reduce(Tagged(sha256), partitionRoots);
    return root.value;
  }
}

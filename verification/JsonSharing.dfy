// What validateJSONValue's answer means: which shapes in memory it accepts,
// and that an accepted one is a finite value.
module JsonSharing {
  import opened Prelude
  import opened Utf8
  import opened Jcs
  import opened StrictJson
  import opened JsonHeap

  // ----- a value in memory as a tree

  predicate Unfolds(h: Heap, r: Ref, t: GoValue)
    decreases t, 0
  {
    match r
    case Leaf(v) => t == v
    case SliceRef(ptr, len) =>
      t.Slice? && |t.items| == len && forall i | 0 <= i < len :: ElementUnfolds(h, ptr + i, t.items[i])
    case MapRef(ptr) =>
      (ptr == 0 || ptr in h.maps) && t.Map? && t.members.Keys == h.Members(ptr).Keys &&
      forall k | k in t.members :: Unfolds(h, h.Members(ptr)[k], t.members[k])
  }

  predicate ElementUnfolds(h: Heap, a: nat, t: GoValue)
    decreases t, 1
  {
    a in h.cells && Unfolds(h, h.cells[a], t)
  }

  lemma {:induction false} UnfoldsUnique(h: Heap, r: Ref, t: GoValue, u: GoValue)
    requires Unfolds(h, r, t) && Unfolds(h, r, u)
    ensures t == u
    decreases t
  {
    match r
    case Leaf(_) =>
    case SliceRef(ptr, len) =>
      forall i | 0 <= i < len ensures t.items[i] == u.items[i] {
        assert ElementUnfolds(h, ptr + i, t.items[i]) && ElementUnfolds(h, ptr + i, u.items[i]);
        UnfoldsUnique(h, h.cells[ptr + i], t.items[i], u.items[i]);
      }
    case MapRef(ptr) =>
      forall k | k in t.members ensures t.members[k] == u.members[k] {
        UnfoldsUnique(h, h.Members(ptr)[k], t.members[k], u.members[k]);
      }
      assert t.members == u.members;
  }

  function Unfold(h: Heap, r: Ref, marked: set<Visit>): GoValue
    requires h.Closed() && h.Points(r) && Accepted(h, r, marked)
    decreases |h.Ids() - marked|
  {
    match r
    case Leaf(v) => v
    case SliceRef(ptr, len) =>
      Slice(seq(len, i requires 0 <= i < len =>
        (AcceptedAt(h, r, ptr + i, marked);
         Unfold(h, h.cells[ptr + i], marked + {SliceId(ptr)}))))
    case MapRef(ptr) =>
      Map(map k | k in h.Members(ptr) ::
        (AcceptedMember(h, r, k, marked);
         Unfold(h, h.Members(ptr)[k], marked + {MapId(ptr)})))
  }

  lemma AcceptedAt(h: Heap, r: Ref, a: nat, marked: set<Visit>)
    requires h.Closed() && h.Points(r) && Accepted(h, r, marked) && r.SliceRef? && r.ptr <= a < r.ptr + r.len
    ensures a in h.cells && h.Points(h.cells[a]) && Accepted(h, h.cells[a], marked + {SliceId(r.ptr)})
    ensures |h.Ids() - (marked + {SliceId(r.ptr)})| < |h.Ids() - marked|
  {
    AcceptedElements(h, r, marked);
    assert Element(h, r, a, marked);
    PointsAtElement(h, r, a);
    FewerLeft(h, marked, SliceId(r.ptr));
  }

  lemma AcceptedMember(h: Heap, r: Ref, k: string, marked: set<Visit>)
    requires h.Closed() && h.Points(r) && Accepted(h, r, marked) && r.MapRef? && k in h.Members(r.ptr)
    ensures Valid(k) && h.Points(h.Members(r.ptr)[k]) && Accepted(h, h.Members(r.ptr)[k], marked + {MapId(r.ptr)})
    ensures |h.Ids() - (marked + {MapId(r.ptr)})| < |h.Ids() - marked|
  {
    FewerLeft(h, marked, MapId(r.ptr));
  }

  lemma UnfoldElement(h: Heap, r: Ref, i: nat, marked: set<Visit>)
    requires h.Closed() && h.Points(r) && Accepted(h, r, marked) && r.SliceRef? && i < r.len
    ensures var t := Unfold(h, r, marked);
      && t.Slice? && |t.items| == r.len
      && r.ptr + i in h.cells && h.Points(h.cells[r.ptr + i])
      && Accepted(h, h.cells[r.ptr + i], marked + {SliceId(r.ptr)})
      && t.items[i] == Unfold(h, h.cells[r.ptr + i], marked + {SliceId(r.ptr)})
  {
    hide Accepted, Strict, Valid;
    AcceptedAt(h, r, r.ptr + i, marked);
  }

  lemma UnfoldMember(h: Heap, r: Ref, k: string, marked: set<Visit>)
    requires h.Closed() && h.Points(r) && Accepted(h, r, marked) && r.MapRef? && k in h.Members(r.ptr)
    ensures var t := Unfold(h, r, marked);
      && t.Map? && k in t.members && Valid(k)
      && h.Points(h.Members(r.ptr)[k]) && Accepted(h, h.Members(r.ptr)[k], marked + {MapId(r.ptr)})
      && t.members[k] == Unfold(h, h.Members(r.ptr)[k], marked + {MapId(r.ptr)})
  {
    hide Accepted, Valid;
    AcceptedMember(h, r, k, marked);
  }

  lemma UnfoldShape(h: Heap, r: Ref, marked: set<Visit>)
    requires h.Closed() && h.Points(r) && Accepted(h, r, marked)
    ensures var t := Unfold(h, r, marked);
      match r
      case Leaf(v) => t == v
      case SliceRef(_, len) => t.Slice? && |t.items| == len
      case MapRef(ptr) => t.Map? && t.members.Keys == h.Members(ptr).Keys && (ptr == 0 || ptr in h.maps)
  {
    hide Accepted, Valid, Strict;
  }

  // An accepted value is a finite strict value, so everything that walks it
  // afterwards ends.
  lemma {:induction false} AcceptedUnfolds(h: Heap, r: Ref, marked: set<Visit>)
    requires h.Closed() && h.Points(r) && Accepted(h, r, marked)
    ensures var t := Unfold(h, r, marked); Unfolds(h, r, t) && Strict(t)
    decreases |h.Ids() - marked|
  {
    hide *;
    var t := Unfold(h, r, marked);
    UnfoldShape(h, r, marked);
    match r
    case Leaf(v) =>
      LeafUnfolds(h, v, marked);
    case SliceRef(ptr, len) =>
      forall i | 0 <= i < len ensures ElementUnfolds(h, ptr + i, t.items[i]) && Strict(t.items[i]) {
        UnfoldElement(h, r, i, marked);
        AcceptedAt(h, r, ptr + i, marked);
        AcceptedUnfolds(h, h.cells[ptr + i], marked + {SliceId(ptr)});
        ElementOf(h, ptr + i, t.items[i]);
      }
      SliceUnfolds(h, ptr, t.items);
    case MapRef(ptr) =>
      forall k | k in t.members
        ensures Unfolds(h, h.Members(ptr)[k], t.members[k]) && Valid(k) && Strict(t.members[k])
      {
        UnfoldMember(h, r, k, marked);
        AcceptedMember(h, r, k, marked);
        AcceptedUnfolds(h, h.Members(ptr)[k], marked + {MapId(ptr)});
      }
      MapUnfolds(h, ptr, t.members);
  }

  lemma LeafUnfolds(h: Heap, v: GoValue, marked: set<Visit>)
    requires h.Closed() && h.Points(Leaf(v)) && Accepted(h, Leaf(v), marked)
    ensures Unfolds(h, Leaf(v), v) && Strict(v)
  {
    hide Strict;
  }

  lemma ElementOf(h: Heap, a: nat, t: GoValue)
    requires a in h.cells && Unfolds(h, h.cells[a], t)
    ensures ElementUnfolds(h, a, t)
  {
  }

  lemma SliceUnfolds(h: Heap, ptr: nat, items: seq<GoValue>)
    requires forall i :: 0 <= i < |items| ==> ElementUnfolds(h, ptr + i, items[i]) && Strict(items[i])
    ensures Unfolds(h, SliceRef(ptr, |items|), Slice(items)) && Strict(Slice(items))
  {
    hide ElementUnfolds;
  }

  lemma MapUnfolds(h: Heap, ptr: nat, members: map<string, GoValue>)
    requires (ptr == 0 || ptr in h.maps) && members.Keys == h.Members(ptr).Keys
    requires forall k <- members :: Unfolds(h, h.Members(ptr)[k], members[k]) && Valid(k) && Strict(members[k])
    ensures Unfolds(h, MapRef(ptr), Map(members)) && Strict(Map(members))
  {
    hide Valid;
  }

  method StrictJcsOf(h: Heap, r: Ref) returns (text: Option<string>)
    requires h.Closed() && h.Points(r)
    ensures text.Some? <==> Accepted(h, r, {})
    ensures text.Some? ==> exists t :: Unfolds(h, r, t) && StrictJcs(t) == text
  {
    var ancestors := new Ancestors();
    var ok := ValidateJSONValue(h, r, ancestors);
    if !ok {
      return None;
    }
    var t := Unfold(h, r, {});
    AcceptedUnfolds(h, r, {});
    StrictIsWritable(t);
    var canonical := Canonicalize(t);
    return Some(canonical.value);
  }

  // ----- paths from a value to its descendants

  predicate Child(h: Heap, r: Ref, c: Ref) {
    match r
    case Leaf(_) => false
    case SliceRef(ptr, len) => exists a | ptr <= a < ptr + len :: a in h.cells && h.cells[a] == c
    case MapRef(ptr) => exists k <- h.Members(ptr) :: h.Members(ptr)[k] == c
  }

  predicate Path(h: Heap, p: seq<Ref>) {
    p != [] && forall i | 0 <= i < |p| - 1 :: Child(h, p[i], p[i + 1])
  }

  // The nil slice is never taken for an ancestor.
  function IdsOf(r: Ref): set<Visit> {
    match r
    case Leaf(_) => {}
    case SliceRef(ptr, _) => if ptr == 0 then {} else {SliceId(ptr)}
    case MapRef(ptr) => {MapId(ptr)}
  }

  function IdsAlong(p: seq<Ref>): set<Visit> {
    if p == [] then {} else IdsOf(p[0]) + IdsAlong(p[1..])
  }

  // What is checked of a value without looking at its elements.
  predicate Sound(h: Heap, r: Ref) {
    match r
    case Leaf(v) => Strict(v)
    case SliceRef(_, _) => true
    case MapRef(ptr) => forall k <- h.Members(ptr) :: Valid(k)
  }

  // The end of the path is sound and no container of `marked` or of the path
  // before it.
  predicate GoodEnd(h: Heap, p: seq<Ref>, marked: set<Visit>)
    requires p != []
  {
    Sound(h, p[|p| - 1]) && IdsOf(p[|p| - 1]) !! marked + IdsAlong(p[..|p| - 1])
  }

  lemma AcceptedChild(h: Heap, r: Ref, c: Ref, marked: set<Visit>)
    requires h.Closed() && h.Points(r) && Accepted(h, r, marked) && Child(h, r, c)
    ensures h.Points(c) && Accepted(h, c, marked + IdsOf(r))
  {
    if r.SliceRef? {
      var a :| r.ptr <= a < r.ptr + r.len && a in h.cells && h.cells[a] == c;
      PointsAtElement(h, r, a);
      AcceptedElements(h, r, marked);
      assert Element(h, r, a, marked);
    } else {
      AcceptedMembers(h, r, marked);
      var k :| k in h.Members(r.ptr) && h.Members(r.ptr)[k] == c;
      assert MemberOk(h, r, k, marked);
    }
  }

  lemma PathTail(h: Heap, p: seq<Ref>)
    requires Path(h, p) && |p| > 1
    ensures Path(h, p[1..]) && Child(h, p[0], p[1])
  {
    forall i | 0 <= i < |p| - 2 ensures Child(h, p[1..][i], p[1..][i + 1]) {
      assert Child(h, p[i + 1], p[i + 2]);
    }
  }

  lemma {:induction false} AcceptedPath(h: Heap, p: seq<Ref>, marked: set<Visit>)
    requires h.Closed() && Path(h, p) && h.Points(p[0]) && Accepted(h, p[0], marked)
    ensures GoodEnd(h, p, marked)
  {
    if |p| == 1 {
      AcceptedEnd(h, p[0], marked);
    } else {
      PathTail(h, p);
      AcceptedChild(h, p[0], p[1], marked);
      AcceptedPath(h, p[1..], marked + IdsOf(p[0]));
      assert p[..|p| - 1][1..] == p[1..][..|p| - 2];
    }
  }

  lemma AcceptedEnd(h: Heap, r: Ref, marked: set<Visit>)
    requires h.Closed() && h.Points(r) && Accepted(h, r, marked)
    ensures Sound(h, r) && IdsOf(r) !! marked
  {
  }

  lemma LongerPath(h: Heap, r: Ref, rest: seq<Ref>, marked: set<Visit>)
    requires Path(h, rest) && Child(h, r, rest[0])
    ensures Path(h, [r] + rest)
    ensures GoodEnd(h, [r] + rest, marked) <==> GoodEnd(h, rest, marked + IdsOf(r))
  {
    hide Child, Sound, IdsOf;
    var p := [r] + rest;
    assert (p[..|p| - 1])[1..] == rest[..|rest| - 1];
    forall i | 0 <= i < |p| - 1 ensures Child(h, p[i], p[i + 1]) {
      assert i > 0 ==> p[i] == rest[i - 1];
    }
  }

  // A refused value has a path to the reason.
  lemma {:induction false} RefusedPath(h: Heap, r: Ref, marked: set<Visit>) returns (p: seq<Ref>)
    requires h.Closed() && h.Points(r) && !Accepted(h, r, marked)
    ensures Path(h, p) && p[0] == r && !GoodEnd(h, p, marked)
    decreases |h.Ids() - marked|
  {
    hide Accepted, Sound, IdsOf, Child;
    if !Sound(h, r) || !(IdsOf(r) !! marked) {
      return [r];
    }
    var c := RefusedChild(h, r, marked);
    var rest := RefusedPath(h, c, marked + IdsOf(r));
    p := [r] + rest;
    LongerPath(h, r, rest, marked);
  }

  lemma RefusedChild(h: Heap, r: Ref, marked: set<Visit>) returns (c: Ref)
    requires h.Closed() && h.Points(r) && !Accepted(h, r, marked)
    requires Sound(h, r) && IdsOf(r) !! marked
    ensures Child(h, r, c) && h.Points(c) && !Accepted(h, c, marked + IdsOf(r))
    ensures |h.Ids() - (marked + IdsOf(r))| < |h.Ids() - marked|
  {
    if r.SliceRef? {
      AcceptedElements(h, r, marked);
      var a :| r.ptr <= a < r.ptr + r.len && !Element(h, r, a, marked);
      PointsAtElement(h, r, a);
      FewerLeft(h, marked, SliceId(r.ptr));
      return h.cells[a];
    } else {
      AcceptedMembers(h, r, marked);
      var k :| k in h.Members(r.ptr) && !MemberOk(h, r, k, marked);
      FewerLeft(h, marked, MapId(r.ptr));
      return h.Members(r.ptr)[k];
    }
  }

  // A nil error means exactly this: from the value no path meets a bad scalar
  // or name, or comes back to a slice pointer or map it has been through.
  lemma AcceptedExactly(h: Heap, r: Ref)
    requires h.Closed() && h.Points(r)
    ensures Accepted(h, r, {}) <==> forall p :: Path(h, p) && p[0] == r ==> GoodEnd(h, p, {})
  {
    if Accepted(h, r, {}) {
      forall p | Path(h, p) && p[0] == r ensures GoodEnd(h, p, {}) {
        AcceptedPath(h, p, {});
      }
    } else {
      var p := RefusedPath(h, r, {});
    }
  }

  // That is more than the absence of cycles: a slice holding an empty slice of
  // itself is a finite value, and is refused as cyclic.
  lemma FiniteYetRefused(ptr: nat)
    requires ptr > 0
    ensures var h := Heap(map[ptr := SliceRef(ptr, 0)], map[]);
      && h.Closed() && h.Points(SliceRef(ptr, 1))
      && Unfolds(h, SliceRef(ptr, 1), Slice([Slice([])])) && Strict(Slice([Slice([])]))
      && !Accepted(h, SliceRef(ptr, 1), {})
  {
    var h, t := Heap(map[ptr := SliceRef(ptr, 0)], map[]), Slice([Slice([])]);
    assert ElementUnfolds(h, ptr + 0, t.items[0]);
    var p := [SliceRef(ptr, 1), SliceRef(ptr, 0)];
    assert ptr in h.cells;
    assert Child(h, p[0], p[1]);
    assert p[..1][1..] == [] && SliceId(ptr) in IdsAlong(p[..1]);
    assert !GoodEnd(h, p, {});
    AcceptedExactly(h, SliceRef(ptr, 1));
  }
}

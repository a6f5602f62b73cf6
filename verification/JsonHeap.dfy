// Go values in memory, where slices and maps are references that can be shared
// and can close a cycle; and validateJSONValue of receiptcore/jcs.go, which
// walks them with one shared set of ancestors.
module JsonHeap {
  import opened Utf8
  import opened Jcs
  import opened StrictJson

  // A slice is a pointer to its first cell and a length, so two slices can
  // overlap; pointer 0 is the nil slice or map.
  datatype Ref =
    | Leaf(v: GoValue)
    | SliceRef(ptr: nat, len: nat)
    | MapRef(ptr: nat)

  datatype Heap = Heap(cells: map<nat, Ref>, maps: map<nat, map<string, Ref>>) {
    function Members(ptr: nat): map<string, Ref> {
      if ptr != 0 && ptr in maps then maps[ptr] else map[]
    }

    predicate Points(r: Ref) {
      match r
      case Leaf(v) => !v.Slice? && !v.Map?
      case SliceRef(ptr, len) => len > 0 ==> ptr > 0 && forall a | ptr <= a < ptr + len :: a in cells
      case MapRef(ptr) => ptr == 0 || ptr in maps
    }

    // What Go's memory safety guarantees of every reachable value.
    ghost predicate Closed() {
      && 0 !in maps
      && (forall a <- cells :: Points(cells[a]))
      && (forall a <- maps, k | k in maps[a] :: Points(maps[a][k]))
    }

    // The containers that can have elements.
    function Ids(): set<Visit> {
      (set a | a in cells :: SliceId(a)) + (set a | a in maps :: MapId(a))
    }
  }

  datatype Visit = SliceId(ptr: nat) | MapId(ptr: nat)

  lemma FewerLeft(h: Heap, marked: set<Visit>, id: Visit)
    requires id in h.Ids() && id !in marked
    ensures |h.Ids() - (marked + {id})| < |h.Ids() - marked|
  {
    assert h.Ids() - (marked + {id}) == (h.Ids() - marked) - {id};
  }

  lemma PointsAtElement(h: Heap, r: Ref, a: nat)
    requires h.Closed() && h.Points(r) && r.SliceRef? && r.ptr <= a < r.ptr + r.len
    ensures a in h.cells && h.Points(h.cells[a]) && SliceId(r.ptr) in h.Ids()
  {
    assert r.ptr in h.cells;
  }

  // No descendant of the value is one of `marked` or of its own ancestors.
  predicate Accepted(h: Heap, r: Ref, marked: set<Visit>)
    requires h.Closed() && h.Points(r)
    decreases |h.Ids() - marked|
  {
    match r
    case Leaf(v) => Strict(v)
    case SliceRef(ptr, len) =>
      (ptr != 0 ==> SliceId(ptr) !in marked) &&
      forall a | ptr <= a < ptr + len ::
        PointsAtElement(h, r, a);
        FewerLeft(h, marked, SliceId(ptr));
        Accepted(h, h.cells[a], marked + {SliceId(ptr)})
    case MapRef(ptr) =>
      MapId(ptr) !in marked &&
      forall k | k in h.Members(ptr) ::
        FewerLeft(h, marked, MapId(ptr));
        Valid(k) && Accepted(h, h.Members(ptr)[k], marked + {MapId(ptr)})
  }

  // The ancestors map, shared by reference through the recursion.
  class Ancestors {
    var marked: set<Visit>

    constructor ()
      ensures marked == {}
    {
      marked := {};
    }
  }

  // It terminates on every finite memory, cyclic or not, and leaves the set of
  // ancestors as it found it.
  method ValidateJSONValue(h: Heap, r: Ref, ancestors: Ancestors) returns (ok: bool)
    requires h.Closed() && h.Points(r) && SliceId(0) !in ancestors.marked
    modifies ancestors
    ensures ok <==> Accepted(h, r, old(ancestors.marked))
    ensures ancestors.marked == old(ancestors.marked)
    decreases |h.Ids() - ancestors.marked|, 1
  {
    match r
    case Leaf(v) =>
      ok := Strict(v);
    case SliceRef(_, _) =>
      ok := ValidateSlice(h, r, ancestors);
    case MapRef(_) =>
      ok := ValidateMap(h, r, ancestors);
  }

  // Its case for a slice. The deferred delete runs on every way out.
  method ValidateSlice(h: Heap, r: Ref, ancestors: Ancestors) returns (ok: bool)
    requires h.Closed() && h.Points(r) && r.SliceRef? && SliceId(0) !in ancestors.marked
    modifies ancestors
    ensures ok <==> Accepted(h, r, old(ancestors.marked))
    ensures ancestors.marked == old(ancestors.marked)
    decreases |h.Ids() - ancestors.marked|, 0
  {
    hide Strict, Accepted;
    ghost var marked := ancestors.marked;
    AcceptedElements(h, r, marked);
    var ptr, identity := r.ptr, SliceId(r.ptr);
    if ptr != 0 && identity in ancestors.marked {
      return false;
    }
    ancestors.marked := ancestors.marked + {identity};
    ok := true;
    var i := 0;
    while i < r.len && ok
      invariant 0 <= i <= r.len && ancestors.marked == marked + {identity}
      invariant ok ==> forall a :: ptr <= a < ptr + i ==> Element(h, r, a, marked)
      invariant !ok ==> exists a :: ptr <= a < ptr + r.len && !Element(h, r, a, marked)
    {
      PointsAtElement(h, r, ptr + i);
      FewerLeft(h, marked, identity);
      ok := ValidateJSONValue(h, h.cells[ptr + i], ancestors);
      assert ok <==> Element(h, r, ptr + i, marked);
      i := i + 1;
    }
    ancestors.marked := ancestors.marked - {identity};
  }

  // Its case for a map, whose members come in any order.
  method ValidateMap(h: Heap, r: Ref, ancestors: Ancestors) returns (ok: bool)
    requires h.Closed() && h.Points(r) && r.MapRef? && SliceId(0) !in ancestors.marked
    modifies ancestors
    ensures ok <==> Accepted(h, r, old(ancestors.marked))
    ensures ancestors.marked == old(ancestors.marked)
    decreases |h.Ids() - ancestors.marked|, 0
  {
    hide Strict, Valid, Accepted;
    ghost var marked := ancestors.marked;
    AcceptedMembers(h, r, marked);
    var identity, members := MapId(r.ptr), h.Members(r.ptr);
    if identity in ancestors.marked {
      return false;
    }
    ancestors.marked := ancestors.marked + {identity};
    ok := true;
    var rest := members.Keys;
    while rest != {} && ok
      invariant rest <= members.Keys && ancestors.marked == marked + {identity}
      invariant ok ==> forall k :: k in members && k !in rest ==> MemberOk(h, r, k, marked)
      invariant !ok ==> exists k :: k in members && !MemberOk(h, r, k, marked)
      decreases |rest|
    {
      var key :| key in rest;
      FewerLeft(h, marked, identity);
      ok := Valid(key);
      if ok {
        ok := ValidateJSONValue(h, members[key], ancestors);
      }
      assert ok <==> MemberOk(h, r, key, marked);
      rest := rest - {key};
    }
    ancestors.marked := ancestors.marked - {identity};
  }

  ghost predicate Element(h: Heap, r: Ref, a: nat, marked: set<Visit>)
    requires h.Closed() && h.Points(r) && r.SliceRef? && r.ptr <= a < r.ptr + r.len
  {
    PointsAtElement(h, r, a);
    Accepted(h, h.cells[a], marked + {SliceId(r.ptr)})
  }

  ghost predicate MemberOk(h: Heap, r: Ref, k: string, marked: set<Visit>)
    requires h.Closed() && h.Points(r) && r.MapRef? && k in h.Members(r.ptr)
  {
    Valid(k) && Accepted(h, h.Members(r.ptr)[k], marked + {MapId(r.ptr)})
  }

  lemma AcceptedElements(h: Heap, r: Ref, marked: set<Visit>)
    requires h.Closed() && h.Points(r) && r.SliceRef?
    ensures Accepted(h, r, marked) <==>
      (r.ptr != 0 ==> SliceId(r.ptr) !in marked) && forall a :: r.ptr <= a < r.ptr + r.len ==> Element(h, r, a, marked)
  {
    hide Strict;
    forall a | r.ptr <= a < r.ptr + r.len && (r.ptr != 0 ==> SliceId(r.ptr) !in marked)
      ensures a in h.cells && h.Points(h.cells[a])
      ensures Element(h, r, a, marked) == Accepted(h, h.cells[a], marked + {SliceId(r.ptr)})
    {
      PointsAtElement(h, r, a);
    }
  }

  lemma AcceptedMembers(h: Heap, r: Ref, marked: set<Visit>)
    requires h.Closed() && h.Points(r) && r.MapRef?
    ensures Accepted(h, r, marked) <==>
      MapId(r.ptr) !in marked && forall k :: k in h.Members(r.ptr) ==> MemberOk(h, r, k, marked)
  {
  }
}

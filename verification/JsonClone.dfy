// cloneJSONValue of receiptcore/jcs.go: a copy that shares nothing.
module JsonClone {
  import opened Jcs
  import opened JsonHeap
  import opened JsonSharing

  ghost predicate Extends(h: Heap, g: Heap) {
    && (forall a <- h.cells :: a in g.cells && g.cells[a] == h.cells[a])
    && (forall a <- h.maps :: a in g.maps && g.maps[a] == h.maps[a])
  }

  lemma ExtendsTransitive(f: Heap, g: Heap, h: Heap)
    requires Extends(f, g) && Extends(g, h)
    ensures Extends(f, h)
  {
  }

  // The memory at or above an address.
  function From(h: Heap, base: nat): Heap {
    Heap(map a | a in h.cells && a >= base :: h.cells[a], map a | a in h.maps && a >= base :: h.maps[a])
  }

  lemma {:induction false} UnfoldsExtends(h: Heap, g: Heap, r: Ref, t: GoValue)
    requires Extends(h, g) && Unfolds(h, r, t)
    ensures Unfolds(g, r, t)
    decreases t
  {
    match r
    case Leaf(_) =>
    case SliceRef(ptr, len) =>
      forall i | 0 <= i < len ensures ElementUnfolds(g, ptr + i, t.items[i]) {
        assert ElementUnfolds(h, ptr + i, t.items[i]);
        UnfoldsExtends(h, g, h.cells[ptr + i], t.items[i]);
      }
    case MapRef(ptr) =>
      forall k | k in t.members ensures Unfolds(g, g.Members(ptr)[k], t.members[k]) {
        UnfoldsExtends(h, g, h.Members(ptr)[k], t.members[k]);
      }
  }

  // A write below the copy does not reach it.
  lemma KeptAbove(h: Heap, g: Heap, low: nat, base: nat, c: Ref, t: GoValue)
    requires low >= base && Unfolds(From(h, low), c, t)
    requires forall a <- h.cells :: a >= base ==> a in g.cells && g.cells[a] == h.cells[a]
    requires forall a <- h.maps :: a >= base ==> a in g.maps && g.maps[a] == h.maps[a]
    ensures Unfolds(From(g, base), c, t)
  {
    UnfoldsExtends(From(h, low), From(g, base), c, t);
  }

  // Memory that is only ever extended at fresh addresses or written where the
  // writer has just allocated.
  class Memory {
    var heap: Heap
    var next: nat

    ghost predicate Valid()
      reads this
    {
      && next > 0
      && (forall a <- heap.cells :: a < next)
      && (forall a <- heap.maps :: a < next)
    }

    // make([]interface{}, len).
    method MakeSlice(len: nat) returns (ptr: nat)
      requires Valid()
      modifies this
      ensures Valid() && ptr == old(next) && next == old(next) + len + 1
      ensures Extends(old(heap), heap)
      ensures forall a :: ptr <= a < ptr + len ==> a in heap.cells
    {
      ptr := next;
      ghost var before := heap;
      for a := ptr to ptr + len
        invariant Extends(before, heap) && heap.maps == before.maps
        invariant forall b :: ptr <= b < a ==> b in heap.cells
        invariant forall b <- heap.cells :: b < a
      {
        heap := heap.(cells := heap.cells[a := Leaf(Nil)]);
      }
      next := ptr + len + 1;
    }

    method SetElement(ghost before: Heap, a: nat, item: Ref)
      requires Valid() && Extends(before, heap) && a in heap.cells && a !in before.cells
      modifies this`heap
      ensures Valid() && Extends(before, heap)
      ensures heap == old(heap).(cells := old(heap).cells[a := item])
    {
      heap := heap.(cells := heap.cells[a := item]);
    }

    method SetMember(ghost before: Heap, ptr: nat, key: string, item: Ref)
      requires Valid() && Extends(before, heap) && ptr in heap.maps && ptr !in before.maps
      modifies this`heap
      ensures Valid() && Extends(before, heap)
      ensures heap == old(heap).(maps := old(heap).maps[ptr := old(heap).maps[ptr][key := item]])
    {
      heap := heap.(maps := heap.maps[ptr := heap.maps[ptr][key := item]]);
    }

    // make(map[string]interface{}).
    method MakeMap() returns (ptr: nat)
      requires Valid()
      modifies this
      ensures Valid() && ptr == old(next) && next == old(next) + 1
      ensures Extends(old(heap), heap) && ptr in heap.maps && heap.maps[ptr] == map[]
    {
      ptr := next;
      heap := heap.(maps := heap.maps[ptr := map[]]);
      next := ptr + 1;
    }
  }

  // The copy is the same tree, made of new memory alone: it unfolds where
  // everything older has been taken away, and nothing older has changed.
  method CloneJSONValue(m: Memory, r: Ref, ghost t: GoValue) returns (c: Ref)
    requires m.Valid() && Unfolds(m.heap, r, t)
    modifies m
    ensures m.Valid() && Extends(old(m.heap), m.heap) && m.next >= old(m.next)
    ensures Unfolds(From(m.heap, old(m.next)), c, t)
    decreases t, 3
  {
    match r
    case Leaf(v) =>
      c := r;
    case SliceRef(ptr, len) =>
      c := CloneSlice(m, r, t);
    case MapRef(ptr) =>
      c := CloneMap(m, r, t);
  }

  ghost predicate CopiedElements(h: Heap, base: nat, out: nat, t: GoValue, n: nat)
    requires t.Slice? && n <= |t.items|
  {
    forall a :: out <= a < out + n ==> a in h.cells && Unfolds(From(h, base), h.cells[a], t.items[a - out])
  }

  method CloneSlice(m: Memory, r: Ref, ghost t: GoValue) returns (c: Ref)
    requires m.Valid() && Unfolds(m.heap, r, t) && r.SliceRef?
    modifies m
    ensures m.Valid() && Extends(old(m.heap), m.heap) && m.next >= old(m.next)
    ensures Unfolds(From(m.heap, old(m.next)), c, t)
    decreases t, 1
  {
    ghost var before := m.heap;
    ElementsUnfold(before, r, t);
    hide Unfolds, From, ElementUnfolds;
    var out := m.MakeSlice(r.len);
    ghost var base := m.next;
    var i := 0;
    while i < r.len
      invariant 0 <= i <= r.len && m.Valid() && m.next >= base
      invariant Extends(before, m.heap)
      invariant forall a :: out <= a < out + r.len ==> a in m.heap.cells
      invariant CopiedElements(m.heap, base, out, t, i)
    {
      ghost var h0 := m.heap;
      CloneElement(m, m.heap.cells[r.ptr + i], out, i, before, base, t);
      StillThere(h0, m.heap, out, r.len);
      i := i + 1;
    }
    c := SliceRef(out, r.len);
    SliceCopied(m.heap, base, out, r.len, t);
  }

  lemma ElementsUnfold(h: Heap, r: Ref, t: GoValue)
    requires Unfolds(h, r, t) && r.SliceRef?
    ensures t.Slice? && |t.items| == r.len
    ensures forall a :: r.ptr <= a < r.ptr + r.len ==> a in h.cells && Unfolds(h, h.cells[a], t.items[a - r.ptr])
  {
    forall a | r.ptr <= a < r.ptr + r.len ensures a in h.cells && Unfolds(h, h.cells[a], t.items[a - r.ptr]) {
      assert ElementUnfolds(h, r.ptr + (a - r.ptr), t.items[a - r.ptr]);
    }
  }

  lemma StillThere(h: Heap, g: Heap, out: nat, len: nat)
    requires forall a <- h.cells :: a in g.cells
    requires forall a :: out <= a < out + len ==> a in h.cells
    ensures forall a :: out <= a < out + len ==> a in g.cells
  {
  }

  // out[i] = cloneJSONValue(item).
  method CloneElement(m: Memory, item: Ref, out: nat, i: nat, ghost before: Heap, ghost base: nat, ghost t: GoValue)
    requires m.Valid() && out + i < base <= m.next && Extends(before, m.heap)
    requires out + i !in before.cells && out + i in m.heap.cells
    requires t.Slice? && i < |t.items| && Unfolds(before, item, t.items[i])
    requires CopiedElements(m.heap, base, out, t, i)
    modifies m
    ensures m.Valid() && m.next >= old(m.next) && Extends(before, m.heap)
    ensures forall a <- old(m.heap.cells) :: a in m.heap.cells
    ensures CopiedElements(m.heap, base, out, t, i + 1)
    decreases t, 0
  {
    hide Unfolds, From;
    UnfoldsExtends(before, m.heap, item, t.items[i]);
    ghost var h0, n0 := m.heap, m.next;
    var copy := CloneJSONValue(m, item, t.items[i]);
    ghost var h1 := m.heap;
    ExtendsTransitive(before, h0, h1);
    m.SetElement(before, out + i, copy);
    CopiedStay(h0, h1, m.heap, base, out, t, i);
    KeptAbove(h1, m.heap, n0, base, copy, t.items[i]);
  }

  // Elements copied so far survive the next copy and the write of its result.
  lemma CopiedStay(h0: Heap, h1: Heap, h2: Heap, base: nat, out: nat, t: GoValue, n: nat)
    requires t.Slice? && n < |t.items| && CopiedElements(h0, base, out, t, n)
    requires Extends(h0, h1) && out + n < base && out + n in h1.cells && out + n in h2.cells
    requires h2 == h1.(cells := h1.cells[out + n := h2.cells[out + n]])
    ensures CopiedElements(h2, base, out, t, n)
  {
    forall a | out <= a < out + n ensures a in h2.cells && Unfolds(From(h2, base), h2.cells[a], t.items[a - out]) {
      UnfoldsExtends(From(h0, base), From(h2, base), h0.cells[a], t.items[a - out]);
    }
  }

  lemma SliceCopied(h: Heap, base: nat, out: nat, len: nat, t: GoValue)
    requires t.Slice? && len == |t.items| && out <= base && CopiedElements(h, base, out, t, len)
    ensures Unfolds(From(h, out), SliceRef(out, len), t)
  {
    forall i | 0 <= i < len ensures ElementUnfolds(From(h, out), out + i, t.items[i]) {
      var a := out + i;
      assert a in h.cells;
      UnfoldsExtends(From(h, base), From(h, out), h.cells[a], t.items[i]);
    }
  }

  ghost predicate CopiedMembers(h: Heap, base: nat, out: nat, t: GoValue, done: set<string>)
    requires t.Map?
  {
    out in h.maps && h.maps[out].Keys == done && done <= t.members.Keys &&
    forall k <- done :: Unfolds(From(h, base), h.maps[out][k], t.members[k])
  }

  lemma MembersUnfold(h: Heap, r: Ref, t: GoValue)
    requires Unfolds(h, r, t) && r.MapRef?
    ensures t.Map? && t.members.Keys == h.Members(r.ptr).Keys
    ensures forall k <- t.members :: Unfolds(h, h.Members(r.ptr)[k], t.members[k])
  {
  }

  method CloneMap(m: Memory, r: Ref, ghost t: GoValue) returns (c: Ref)
    requires m.Valid() && Unfolds(m.heap, r, t) && r.MapRef?
    modifies m
    ensures m.Valid() && Extends(old(m.heap), m.heap) && m.next >= old(m.next)
    ensures Unfolds(From(m.heap, old(m.next)), c, t)
    decreases t, 2
  {
    hide Unfolds, From;
    ghost var before := m.heap;
    var members := m.heap.Members(r.ptr);
    MembersUnfold(before, r, t);
    var out := m.MakeMap();
    CloneMembers(m, members, out, before, t);
    c := MapRef(out);
    MapCopied(m.heap, out + 1, out, t);
  }

  method CloneMembers(m: Memory, members: map<string, Ref>, out: nat, ghost before: Heap, ghost t: GoValue)
    requires m.Valid() && m.next == out + 1 && Extends(before, m.heap) && out !in before.maps
    requires t.Map? && t.members.Keys == members.Keys
    requires forall k <- members :: Unfolds(before, members[k], t.members[k])
    requires out in m.heap.maps && m.heap.maps[out] == map[]
    modifies m
    ensures m.Valid() && m.next > out && Extends(before, m.heap)
    ensures CopiedMembers(m.heap, out + 1, out, t, t.members.Keys)
    decreases t, 1
  {
    hide Unfolds, CopiedMembers, Extends;
    NothingCopied(m.heap, out + 1, out, t);
    var rest := members.Keys;
    assert members.Keys - rest == {};
    while rest != {}
      invariant rest <= members.Keys && m.Valid() && m.next > out
      invariant Extends(before, m.heap)
      invariant CopiedMembers(m.heap, out + 1, out, t, members.Keys - rest)
      decreases |rest|
    {
      var key :| key in rest;
      CloneMember(m, members[key], out, key, before, out + 1, t, members.Keys - rest);
      assert members.Keys - (rest - {key}) == members.Keys - rest + {key};
      rest := rest - {key};
    }
    assert members.Keys - rest == t.members.Keys;
  }

  lemma NothingCopied(h: Heap, base: nat, out: nat, t: GoValue)
    requires t.Map? && out in h.maps && h.maps[out] == map[]
    ensures CopiedMembers(h, base, out, t, {})
  {
  }

  // out[key] = cloneJSONValue(item).
  method CloneMember(m: Memory, item: Ref, out: nat, key: string,
                     ghost before: Heap, ghost base: nat, ghost t: GoValue, ghost done: set<string>)
    requires m.Valid() && out < base <= m.next && Extends(before, m.heap) && out !in before.maps
    requires t.Map? && key in t.members && Unfolds(before, item, t.members[key])
    requires CopiedMembers(m.heap, base, out, t, done)
    modifies m
    ensures m.Valid() && m.next >= old(m.next) && Extends(before, m.heap)
    ensures CopiedMembers(m.heap, base, out, t, done + {key})
    decreases t, 0
  {
    hide Unfolds, From;
    UnfoldsExtends(before, m.heap, item, t.members[key]);
    ghost var h0, n0 := m.heap, m.next;
    var copy := CloneJSONValue(m, item, t.members[key]);
    ghost var h1 := m.heap;
    ExtendsTransitive(before, h0, h1);
    m.SetMember(before, out, key, copy);
    KeptAbove(h1, m.heap, n0, base, copy, t.members[key]);
    MembersStay(h0, h1, m.heap, base, out, t, done, key);
  }

  lemma MembersStay(h0: Heap, h1: Heap, h2: Heap, base: nat, out: nat, t: GoValue, done: set<string>, key: string)
    requires t.Map? && CopiedMembers(h0, base, out, t, done) && key in t.members
    requires Extends(h0, h1) && out < base && out in h2.maps && key in h2.maps[out]
    requires h2 == h1.(maps := h1.maps[out := h1.maps[out][key := h2.maps[out][key]]])
    requires Unfolds(From(h2, base), h2.maps[out][key], t.members[key])
    ensures CopiedMembers(h2, base, out, t, done + {key})
  {
    forall k | k in done + {key} ensures Unfolds(From(h2, base), h2.maps[out][k], t.members[k]) {
      if k != key {
        UnfoldsExtends(From(h0, base), From(h2, base), h0.maps[out][k], t.members[k]);
      }
    }
  }

  lemma MapCopied(h: Heap, base: nat, out: nat, t: GoValue)
    requires t.Map? && 0 < out <= base && CopiedMembers(h, base, out, t, t.members.Keys)
    ensures Unfolds(From(h, out), MapRef(out), t)
  {
    forall k | k in t.members ensures Unfolds(From(h, out), From(h, out).Members(out)[k], t.members[k]) {
      UnfoldsExtends(From(h, base), From(h, out), h.maps[out][k], t.members[k]);
    }
  }

  // Whatever is written to older memory afterwards, the copy stays.
  lemma CopyIsIsolated(h: Heap, base: nat, c: Ref, t: GoValue, g: Heap)
    requires Unfolds(From(h, base), c, t)
    requires forall a <- h.cells :: a >= base ==> a in g.cells && g.cells[a] == h.cells[a]
    requires forall a <- h.maps :: a >= base ==> a in g.maps && g.maps[a] == h.maps[a]
    ensures Unfolds(g, c, t)
  {
    UnfoldsExtends(From(h, base), g, c, t);
  }
}

// What a stable sort puts first, of all elements or of those one looks for.
module StableSort {
  import opened Sorting

  function PickIndex<T>(s: seq<T>, pick: T -> bool): (i: nat)
    ensures i <= |s|
    ensures i < |s| ==> pick(s[i])
    ensures forall j :: 0 <= j < i ==> !pick(s[j])
  {
    if s == [] || pick(s[0]) then 0 else 1 + PickIndex(s[1..], pick)
  }

  // No element looked for sorts below `x`, which is one.
  ghost predicate Least<T(!new)>(less: (T, T) -> bool, s: seq<T>, pick: T -> bool, x: T) {
    pick(x) && forall y <- s :: pick(y) ==> !less(y, x)
  }

  // The first such element in the order supplied.
  ghost predicate FirstLeast<T(!new)>(less: (T, T) -> bool, s: seq<T>, pick: T -> bool, j: nat) {
    && j < |s| && Least(less, s, pick, s[j])
    && forall i :: 0 <= i < j ==> !Least(less, s, pick, s[i])
  }

  lemma {:induction false} InsertSkips<T>(less: (T, T) -> bool, x: T, t: seq<T>, pick: T -> bool)
    requires !pick(x) && PickIndex(t, pick) < |t|
    ensures var r := Insert(less, x, t); PickIndex(r, pick) < |r| && r[PickIndex(r, pick)] == t[PickIndex(t, pick)]
  {
    var r := Insert(less, x, t);
    if t == [] || !less(t[0], x) {
      assert r[1..] == t;
    } else {
      assert r[1..] == Insert(less, x, t[1..]);
      if !pick(t[0]) {
        InsertSkips(less, x, t[1..], pick);
      }
    }
  }

  // `x` comes before the first element looked for unless that sorts below it.
  lemma {:induction false} InsertBefore<T>(less: (T, T) -> bool, x: T, t: seq<T>, pick: T -> bool)
    requires pick(x) && (PickIndex(t, pick) < |t| ==> !less(t[PickIndex(t, pick)], x))
    ensures var r := Insert(less, x, t); PickIndex(r, pick) < |r| && r[PickIndex(r, pick)] == x
  {
    var r := Insert(less, x, t);
    if t != [] && less(t[0], x) {
      assert r[1..] == Insert(less, x, t[1..]);
      InsertBefore(less, x, t[1..], pick);
    }
  }

  lemma {:induction false} InsertAfter<T(!new)>(less: (T, T) -> bool, x: T, t: seq<T>, pick: T -> bool)
    requires WeakOrder(less, [x] + t) && Ordered(less, t)
    requires PickIndex(t, pick) < |t| && less(t[PickIndex(t, pick)], x)
    ensures var r := Insert(less, x, t); PickIndex(r, pick) < |r| && r[PickIndex(r, pick)] == t[PickIndex(t, pick)]
  {
    var r, i := Insert(less, x, t), PickIndex(t, pick);
    assert x in [x] + t && t[0] in [x] + t && t[i] in [x] + t;
    assert less(t[0], x);
    assert r[1..] == Insert(less, x, t[1..]);
    if !pick(t[0]) {
      forall y | y in [x] + t[1..] ensures y in [x] + t {}
      InsertAfter(less, x, t[1..], pick);
    }
  }

  // Of the elements looked for, the sort puts first the first least one.
  lemma {:induction false} SortPicks<T(!new)>(less: (T, T) -> bool, s: seq<T>, pick: T -> bool) returns (j: nat)
    requires WeakOrder(less, s) && exists x <- s :: pick(x)
    ensures FirstLeast(less, s, pick, j)
    ensures var r := Sort(less, s); PickIndex(r, pick) < |r| && r[PickIndex(r, pick)] == s[j]
  {
    var x, rest := s[0], s[1..];
    var t := Sort(less, rest);
    assert s == [x] + rest;
    SameElements(t, rest);
    OrderOfSome(less, s, rest);
    OrderOfSome(less, s, [x] + t);
    SortOrdered(less, rest);
    if exists y <- rest :: pick(y) {
      var k := SortPicks(less, rest, pick);
      var h := rest[k];
      assert h in rest && h in s && x in s;
      if !pick(x) {
        InsertSkips(less, x, t, pick);
        j := k + 1;
      } else if less(h, x) {
        InsertAfter(less, x, t, pick);
        j := k + 1;
      } else {
        InsertBefore(less, x, t, pick);
        j := 0;
      }
      PickedFirst(less, s, pick, k, j);
    } else {
      j := 0;
      forall i | 0 <= i < |t| ensures !pick(t[i]) {
        assert t[i] in rest;
      }
      InsertBefore(less, x, t, pick);
      assert pick(x);
      assert Least(less, s, pick, s[0]);
    }
  }

  lemma PickedFirst<T(!new)>(less: (T, T) -> bool, s: seq<T>, pick: T -> bool, k: nat, j: nat)
    requires WeakOrder(less, s) && s != [] && FirstLeast(less, s[1..], pick, k)
    requires j == if pick(s[0]) && !less(s[1..][k], s[0]) then 0 else k + 1
    ensures FirstLeast(less, s, pick, j)
  {
    var rest := s[1..];
    var h := rest[k];
    assert s[0] in s && h in rest && h in s;
    if j == 0 {
      forall y | y in s && pick(y) ensures !less(y, s[0]) {
        if y in rest {
          assert !less(y, h);
        }
      }
    } else {
      assert s[j] == h;
      forall y | y in s && pick(y) ensures !less(y, h) {
        assert y == s[0] || y in rest;
      }
      forall i | 0 <= i < j ensures !Least(less, s, pick, s[i]) {
        if i > 0 {
          assert s[i] == rest[i - 1];
        }
      }
    }
  }
}

// What the library sorts promise, and when the promise pins down the result.
module Sorting {
  import opened Lexicographic

  ghost predicate Ordered<T>(less: (T, T) -> bool, s: seq<T>) {
    forall i, j :: 0 <= i < j < |s| ==> !less(s[j], s[i])
  }

  // A strict order whose ties are transitive, on the elements of `s`.
  ghost predicate WeakOrder<T(!new)>(less: (T, T) -> bool, s: seq<T>) {
    && (forall x, y :: x in s && y in s && less(x, y) ==> !less(y, x))
    && (forall x, y, z :: x in s && y in s && z in s && !less(x, y) && !less(y, z) ==> !less(x, z))
  }

  // ... with no ties but between equal elements.
  ghost predicate TotalOrder<T(!new)>(less: (T, T) -> bool, s: seq<T>) {
    && WeakOrder(less, s)
    && (forall x, y :: x in s && y in s && x != y ==> less(x, y) || less(y, x))
  }

  // Ties keep their order.
  function Insert<T>(less: (T, T) -> bool, x: T, s: seq<T>): (r: seq<T>)
    ensures multiset(r) == multiset(s) + multiset{x}
  {
    if s == [] || !less(s[0], x) then
      assert [x] + s == [x] + s[..];
      [x] + s
    else
      assert s == [s[0]] + s[1..];
      [s[0]] + Insert(less, x, s[1..])
  }

  function Sort<T>(less: (T, T) -> bool, s: seq<T>): (r: seq<T>)
    ensures multiset(r) == multiset(s)
  {
    if s == [] then [] else
    assert s == [s[0]] + s[1..];
    Insert(less, s[0], Sort(less, s[1..]))
  }

  lemma Without<T>(s: seq<T>, i: nat)
    requires i < |s|
    ensures multiset(s) == multiset(s[..i] + s[i + 1..]) + multiset{s[i]}
  {
    assert s == s[..i] + [s[i]] + s[i + 1..];
  }

  lemma SameElements<T>(a: seq<T>, b: seq<T>)
    requires multiset(a) == multiset(b)
    ensures |a| == |b|
    ensures forall x :: x in a <==> x in b
  {
    assert |multiset(a)| == |multiset(b)|;
    forall x ensures x in a <==> x in b {
      assert x in a <==> x in multiset(a);
      assert x in b <==> x in multiset(b);
    }
  }

  lemma {:induction false} InsertOrdered<T(!new)>(less: (T, T) -> bool, x: T, s: seq<T>)
    requires WeakOrder(less, [x] + s) && Ordered(less, s)
    ensures Ordered(less, Insert(less, x, s))
  {
    if s != [] && less(s[0], x) {
      var rest := Insert(less, x, s[1..]);
      assert forall y :: y in [x] + s[1..] ==> y in [x] + s;
      InsertOrdered(less, x, s[1..]);
      forall j | 0 <= j < |rest| ensures !less(rest[j], s[0]) {
        assert rest[j] in multiset(rest);
        if rest[j] != x {
          var k :| 0 <= k < |s[1..]| && s[1..][k] == rest[j];
          assert s[k + 1] == rest[j];
        } else {
          assert x in [x] + s && s[0] in [x] + s;
        }
      }
    } else if s != [] {
      forall j | 0 <= j < |s| ensures !less(s[j], x) {
        assert x in [x] + s && s[0] in [x] + s && s[j] in [x] + s;
      }
    }
  }

  lemma {:induction false} SortOrdered<T(!new)>(less: (T, T) -> bool, s: seq<T>)
    requires WeakOrder(less, s)
    ensures Ordered(less, Sort(less, s))
  {
    if s != [] {
      assert forall y :: y in s[1..] ==> y in s;
      SortOrdered(less, s[1..]);
      var rest := Sort(less, s[1..]);
      SameElements(rest, s[1..]);
      assert forall y :: y in [s[0]] + rest ==> y in s;
      InsertOrdered(less, s[0], rest);
    }
  }

  lemma OrderOfSome<T(!new)>(less: (T, T) -> bool, a: seq<T>, b: seq<T>)
    requires forall x :: x in b ==> x in a
    ensures WeakOrder(less, a) ==> WeakOrder(less, b)
    ensures TotalOrder(less, a) ==> TotalOrder(less, b)
  {
  }

  lemma HeadsAgree<T(!new)>(less: (T, T) -> bool, a: seq<T>, b: seq<T>)
    requires TotalOrder(less, a) && a != [] && b != []
    requires Ordered(less, a) && Ordered(less, b) && b[0] in a && a[0] in b
    ensures a[0] == b[0]
  {
    var j :| 0 <= j < |b| && b[j] == a[0];
    var i :| 0 <= i < |a| && a[i] == b[0];
  }

  lemma WithoutHead<T>(a: seq<T>, b: seq<T>)
    requires a != [] && b != [] && a[0] == b[0] && multiset(a) == multiset(b)
    ensures multiset(a[1..]) == multiset(b[1..])
  {
    assert a == [a[0]] + a[1..] && b == [b[0]] + b[1..];
    assert multiset(a[1..]) == multiset(a) - multiset{a[0]} == multiset(b[1..]);
  }

  lemma OrderedTail<T>(less: (T, T) -> bool, a: seq<T>)
    requires a != [] && Ordered(less, a)
    ensures Ordered(less, a[1..])
  {
  }

  // An ordered arrangement is unique: every library sort, stable or not,
  // returns the same slice.
  lemma {:induction false} OrderedUnique<T(!new)>(less: (T, T) -> bool, a: seq<T>, b: seq<T>)
    requires TotalOrder(less, a)
    requires Ordered(less, a) && Ordered(less, b) && multiset(a) == multiset(b)
    ensures a == b
  {
    hide TotalOrder;
    SameElements(a, b);
    if a != [] {
      HeadsAgree(less, a, b);
      OrderOfSome(less, a, a[1..]);
      WithoutHead(a, b);
      assert a == [a[0]] + a[1..] && b == [b[0]] + b[1..];
      OrderedTail(less, a);
      OrderedTail(less, b);
      hide Ordered;
      OrderedUnique(less, a[1..], b[1..]);
    }
  }

  // Keys distinct in one arrangement are distinct in every other.
  ghost predicate DistinctKeys<T>(key: T -> string, s: seq<T>) {
    forall i, j :: 0 <= i < j < |s| ==> key(s[i]) != key(s[j])
  }

  lemma DistinctKeysPermute<T>(key: T -> string, a: seq<T>, b: seq<T>)
    requires multiset(a) == multiset(b) && DistinctKeys(key, a)
    ensures DistinctKeys(key, b)
  {
    SameElements(a, b);
    forall i, j | 0 <= i < j < |b| ensures key(b[i]) != key(b[j]) {
      assert b[i] in a && b[j] in a;
      var x :| 0 <= x < |a| && a[x] == b[i];
      var y :| 0 <= y < |a| && a[y] == b[j];
      if x == y {
        CountsTwice(b, i, j);
        CountsOnce(key, a, x);
      }
    }
  }

  lemma CountsTwice<T>(s: seq<T>, i: nat, j: nat)
    requires i < j < |s| && s[i] == s[j]
    ensures multiset(s)[s[i]] >= 2
  {
    assert s == s[..i] + [s[i]] + (s[i + 1..j] + [s[j]] + s[j + 1..]);
  }

  lemma CountsOnce<T>(key: T -> string, s: seq<T>, i: nat)
    requires i < |s| && DistinctKeys(key, s)
    ensures multiset(s)[s[i]] == 1
  {
    assert s == s[..i] + [s[i]] + s[i + 1..];
    assert s[i] !in s[..i] && s[i] !in s[i + 1..];
  }

  // sort.Slice and sort.SliceStable: any ordered arrangement of the elements.
  method LibrarySort<T(!new)>(less: (T, T) -> bool, s: seq<T>) returns (r: seq<T>)
    requires WeakOrder(less, s)
    ensures multiset(r) == multiset(s) && Ordered(less, r)
  {
    SortOrdered(less, s);
    r := Sort(less, s);
  }

  lemma BytesTotalOrder(s: seq<string>)
    ensures TotalOrder(Less, s)
  {
    forall x, y | Less(x, y) ensures !Less(y, x) {
      if Less(y, x) {
        LessTransitive(x, y, x);
        LessIrreflexive(x);
      }
    }
    forall x, y, z | !Less(x, y) && !Less(y, z) ensures !Less(x, z) {
      if Less(x, z) && x != y && y != z {
        LessTotal(x, y);
        LessTotal(y, z);
        LessTransitive(y, x, z);
        LessTransitive(y, z, y);
        LessIrreflexive(y);
      }
    }
    forall x, y | x != y ensures Less(x, y) || Less(y, x) {
      LessTotal(x, y);
    }
  }

  // sort.Strings.
  function SortStrings(s: seq<string>): (r: seq<string>)
    ensures multiset(r) == multiset(s)
  {
    Sort(Less, s)
  }

  lemma SortStringsUnique(s: seq<string>, r: seq<string>)
    requires multiset(r) == multiset(s) && Ordered(Less, r)
    ensures r == SortStrings(s)
  {
    BytesTotalOrder(s);
    BytesTotalOrder(r);
    SortOrdered(Less, s);
    OrderedUnique(Less, r, SortStrings(s));
  }
}

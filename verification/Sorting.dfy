/** Stable sorting by an integer key, as sort.SliceStable does it. */
module Sorting {
  function Insert<T>(x: T, sorted: seq<T>, key: T -> int): seq<T> {
    if sorted == [] || key(x) <= key(sorted[0]) then [x] + sorted else [sorted[0]] + Insert(x, sorted[1..], key)
  }

  function Sorted<T>(s: seq<T>, key: T -> int): seq<T> {
    if s == [] then [] else Insert(s[0], Sorted(s[1..], key), key)
  }

  predicate IsSorted<T>(s: seq<T>, key: T -> int) {
    forall i, j :: 0 <= i < j < |s| ==> key(s[i]) <= key(s[j])
  }

  lemma {:induction false} InsertKeeps<T>(x: T, sorted: seq<T>, key: T -> int)
    ensures multiset(Insert(x, sorted, key)) == multiset(sorted) + multiset{x}
  {
    if sorted != [] && key(x) > key(sorted[0]) {
      InsertKeeps(x, sorted[1..], key);
      assert sorted == [sorted[0]] + sorted[1..];
    }
  }

  lemma {:induction false} InsertSorts<T>(x: T, sorted: seq<T>, key: T -> int)
    requires IsSorted(sorted, key)
    ensures IsSorted(Insert(x, sorted, key), key)
  {
    if sorted != [] && key(x) > key(sorted[0]) {
      var rest := Insert(x, sorted[1..], key);
      InsertSorts(x, sorted[1..], key);
      InsertKeeps(x, sorted[1..], key);
      forall j | 0 <= j < |rest| ensures key(sorted[0]) <= key(rest[j]) {
        assert rest[j] in multiset(rest);
        assert rest[j] == x || rest[j] in sorted[1..];
      }
    }
  }

  lemma {:induction false} SortSorts<T>(s: seq<T>, key: T -> int)
    ensures IsSorted(Sorted(s, key), key) && multiset(Sorted(s, key)) == multiset(s)
  {
    if s != [] {
      SortSorts(s[1..], key);
      InsertSorts(s[0], Sorted(s[1..], key), key);
      InsertKeeps(s[0], Sorted(s[1..], key), key);
      assert s == [s[0]] + s[1..];
    }
  }

  ghost predicate KeysTellApart<T(!new)>(s: seq<T>, key: T -> int) {
    forall x, y :: x in multiset(s) && y in multiset(s) && key(x) == key(y) ==> x == y
  }

  lemma {:induction false} SameFirst<T(!new)>(a: seq<T>, b: seq<T>, key: T -> int)
    requires IsSorted(a, key) && IsSorted(b, key) && multiset(a) == multiset(b) && KeysTellApart(a, key) && a != []
    ensures b != [] && a[0] == b[0]
  {
    assert a[0] in multiset(b);
    assert b[0] in multiset(a);
    assert a[0] in b && b[0] in a;
  }

  lemma {:induction false} WithoutFirst<T(!new)>(s: seq<T>, key: T -> int)
    requires s != [] && IsSorted(s, key) && KeysTellApart(s, key)
    ensures multiset(s[1..]) == multiset(s) - multiset{s[0]}
    ensures IsSorted(s[1..], key) && KeysTellApart(s[1..], key)
  {
    assert s == [s[0]] + s[1..];
    forall x | x in multiset(s[1..]) ensures x in multiset(s) {}
  }

  lemma {:induction false} SameSize<T>(a: seq<T>, b: seq<T>)
    requires multiset(a) == multiset(b)
    ensures |a| == |b|
  {
    assert |multiset(a)| == |multiset(b)|;
  }

  lemma {:induction false} TailsAgree<T(!new)>(a: seq<T>, b: seq<T>, key: T -> int)
    requires IsSorted(a, key) && IsSorted(b, key) && multiset(a) == multiset(b) && a != []
    requires KeysTellApart(a, key) && KeysTellApart(b, key)
    ensures b != [] && a[0] == b[0] && multiset(a[1..]) == multiset(b[1..])
    ensures IsSorted(a[1..], key) && IsSorted(b[1..], key) && KeysTellApart(a[1..], key) && KeysTellApart(b[1..], key)
  {
    SameFirst(a, b, key);
    WithoutFirst(a, key);
    WithoutFirst(b, key);
  }

  lemma {:induction false} SortedUnique<T(!new)>(a: seq<T>, b: seq<T>, key: T -> int)
    requires IsSorted(a, key) && IsSorted(b, key) && multiset(a) == multiset(b)
    requires KeysTellApart(a, key) && KeysTellApart(b, key)
    ensures a == b
  {
    hide IsSorted, KeysTellApart;
    if a == [] {
      SameSize(a, b);
    } else {
      TailsAgree(a, b, key);
      SortedUnique(a[1..], b[1..], key);
      assert a == [a[0]] + a[1..] && b == [b[0]] + b[1..];
    }
  }

  /** With keys that tell the elements apart, the sorted result does not depend on the given order. */
  lemma {:induction false} SortIgnoresOrder<T(!new)>(a: seq<T>, b: seq<T>, key: T -> int)
    requires multiset(a) == multiset(b) && KeysTellApart(a, key)
    ensures Sorted(a, key) == Sorted(b, key)
  {
    SortSorts(a, key);
    SortSorts(b, key);
    SortedUnique(Sorted(a, key), Sorted(b, key), key);
  }
}

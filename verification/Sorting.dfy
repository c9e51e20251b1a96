/** qsort, as far as its callers may count on it. */
module Sorting {
  predicate Ordered<T>(s: seq<T>, key: T -> int) {
    forall j, k :: 0 <= j <= k < |s| ==> key(s[j]) <= key(s[k])
  }

  lemma {:induction false} CanInsert<T>(s: seq<T>, x: T, key: T -> int) returns (r: seq<T>)
    requires Ordered(s, key)
    ensures Ordered(r, key) && multiset(r) == multiset(s) + multiset{x}
    ensures forall y :: y in r <==> y in s || y == x
  {
    if s == [] || key(x) <= key(s[0]) {
      r := [x] + s;
    } else {
      var t := CanInsert(s[1..], x, key);
      assert s == [s[0]] + s[1..];
      r := [s[0]] + t;
      forall k | 0 <= k < |t| ensures key(s[0]) <= key(t[k]) {
        assert t[k] in t;
      }
    }
  }

  lemma {:induction false} CanSort<T>(s: seq<T>, key: T -> int) returns (r: seq<T>)
    ensures Ordered(r, key) && multiset(r) == multiset(s)
  {
    if s == [] {
      r := [];
    } else {
      var t := CanSort(s[1..], key);
      r := CanInsert(t, s[0], key);
      assert s == [s[0]] + s[1..];
    }
  }

  /** qsort is not stable: any ordered permutation may come out. */
  method Qsort<T(==)>(s: seq<T>, key: T -> int) returns (r: seq<T>)
    ensures Ordered(r, key) && multiset(r) == multiset(s)
  {
    ghost var t := CanSort(s, key);
    r :| Ordered(r, key) && multiset(r) == multiset(s);
  }

  lemma SameLength<T>(a: seq<T>, b: seq<T>)
    requires multiset(a) == multiset(b)
    ensures |a| == |b|
  {
    assert |a| == |multiset(a)| && |b| == |multiset(b)|;
  }
}

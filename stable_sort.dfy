/** `Array.prototype.sort` with a comparator that returns key(b) - key(a):
    the array is sorted in place, stably, into descending order of the key.
    (Sorting is stable in every engine that follows ECMA-262 from its 2019
    edition on.) */
module StableSort {

  /** Keys never increase from left to right. */
  predicate SortedDesc<T>(s: seq<T>, key: T -> int) {
    forall i, j :: 0 <= i < j < |s| ==> key(s[i]) >= key(s[j])
  }

  /** `s` with `x` put after every element whose key is at least x's. */
  function Insert<T>(s: seq<T>, x: T, key: T -> int): seq<T>
    decreases |s|
  {
    if s == [] || key(s[|s| - 1]) >= key(x) then s + [x]
    else Insert(s[..|s| - 1], x, key) + [s[|s| - 1]]
  }

  /** Insertion sort, one element at a time from the left. */
  function SortDesc<T>(s: seq<T>, key: T -> int): seq<T>
    decreases |s|
  {
    if s == [] then [] else Insert(SortDesc(s[..|s| - 1], key), s[|s| - 1], key)
  }

  /** The elements whose key is k, in their order. */
  function WithKey<T>(s: seq<T>, key: T -> int, k: int): seq<T>
    decreases |s|
  {
    if s == [] then [] else WithKey(s[..|s| - 1], key, k) + (if key(s[|s| - 1]) == k then [s[|s| - 1]] else [])
  }

  lemma WithKeySnoc<T>(s: seq<T>, x: T, key: T -> int, k: int)
    ensures WithKey(s + [x], key, k) == WithKey(s, key, k) + (if key(x) == k then [x] else [])
  {
    assert (s + [x])[..|s|] == s;
  }

  lemma {:induction false} InsertElements<T>(s: seq<T>, x: T, key: T -> int)
    ensures multiset(Insert(s, x, key)) == multiset(s) + multiset{x}
    decreases |s|
  {
    if !(s == [] || key(s[|s| - 1]) >= key(x)) {
      var init := s[..|s| - 1];
      InsertElements(init, x, key);
      assert s == init + [s[|s| - 1]];
    }
  }

  lemma {:induction false} InsertSorted<T>(s: seq<T>, x: T, key: T -> int)
    requires SortedDesc(s, key)
    ensures SortedDesc(Insert(s, x, key), key)
    decreases |s|
  {
    if !(s == [] || key(s[|s| - 1]) >= key(x)) {
      var init := s[..|s| - 1];
      var last := s[|s| - 1];
      InsertSorted(init, x, key);
      InsertElements(init, x, key);
      var r := Insert(init, x, key);
      forall i | 0 <= i < |r| ensures key(r[i]) >= key(last) {
        assert r[i] in multiset(init) + multiset{x};
      }
    }
  }

  lemma {:induction false} InsertWithKey<T>(s: seq<T>, x: T, key: T -> int, k: int)
    requires SortedDesc(s, key)
    ensures WithKey(Insert(s, x, key), key, k) == WithKey(s, key, k) + (if key(x) == k then [x] else [])
    decreases |s|
  {
    if s == [] || key(s[|s| - 1]) >= key(x) {
      WithKeySnoc(s, x, key, k);
    } else {
      var init := s[..|s| - 1];
      var last := s[|s| - 1];
      assert SortedDesc(init, key);
      InsertWithKey(init, x, key, k);
      assert s == init + [last];
      PassSmaller(init, last, x, key, k);
    }
  }

  /** Inserting x before a last element of smaller key. */
  lemma PassSmaller<T>(init: seq<T>, last: T, x: T, key: T -> int, k: int)
    requires key(last) < key(x)
    requires WithKey(Insert(init, x, key), key, k) == WithKey(init, key, k) + (if key(x) == k then [x] else [])
    ensures WithKey(Insert(init + [last], x, key), key, k) == WithKey(init + [last], key, k) + (if key(x) == k then [x] else [])
  {
    var s := init + [last];
    var w := WithKey(init, key, k);
    var xs: seq<T> := if key(x) == k then [x] else [];
    var ls: seq<T> := if key(last) == k then [last] else [];
    assert s[..|s| - 1] == init && s[|s| - 1] == last;
    assert Insert(s, x, key) == Insert(init, x, key) + [last];
    WithKeySnoc(Insert(init, x, key), last, key, k);
    assert WithKey(Insert(s, x, key), key, k) == w + xs + ls;
    WithKeySnoc(init, last, key, k);
    assert WithKey(s, key, k) == w + ls;
    if key(x) == k {
      assert ls == [];
      assert w + xs + ls == w + ls + xs;
    } else {
      assert xs == [];
      assert w + xs + ls == w + ls + xs;
    }
  }

  /** The sort orders by descending key. */
  lemma {:induction false} SortDescSorted<T>(s: seq<T>, key: T -> int)
    ensures SortedDesc(SortDesc(s, key), key)
    decreases |s|
  {
    if s != [] {
      SortDescSorted(s[..|s| - 1], key);
      InsertSorted(SortDesc(s[..|s| - 1], key), s[|s| - 1], key);
    }
  }

  /** The sort is a permutation. */
  lemma {:induction false} SortDescElements<T>(s: seq<T>, key: T -> int)
    ensures multiset(SortDesc(s, key)) == multiset(s)
    decreases |s|
  {
    if s != [] {
      SortDescElements(s[..|s| - 1], key);
      InsertElements(SortDesc(s[..|s| - 1], key), s[|s| - 1], key);
      assert s == s[..|s| - 1] + [s[|s| - 1]];
    }
  }

  /** The sort is stable: the elements of equal key keep their order. */
  lemma {:induction false} SortDescStable<T>(s: seq<T>, key: T -> int, k: int)
    ensures WithKey(SortDesc(s, key), key, k) == WithKey(s, key, k)
    decreases |s|
  {
    if s != [] {
      var init := s[..|s| - 1];
      SortDescStable(init, key, k);
      SortDescSorted(init, key);
      InsertWithKey(SortDesc(init, key), s[|s| - 1], key, k);
    }
  }

  /** A list already in order is left as it is. */
  lemma {:induction false} SortDescOfSorted<T>(s: seq<T>, key: T -> int)
    requires SortedDesc(s, key)
    ensures SortDesc(s, key) == s
    decreases |s|
  {
    if s != [] {
      var init := s[..|s| - 1];
      assert SortedDesc(init, key);
      SortDescOfSorted(init, key);
      assert s == init + [s[|s| - 1]];
    }
  }

  /** Sorting twice is sorting once. */
  lemma SortDescIdempotent<T>(s: seq<T>, key: T -> int)
    ensures SortDesc(SortDesc(s, key), key) == SortDesc(s, key)
  {
    SortDescSorted(s, key);
    SortDescOfSorted(SortDesc(s, key), key);
  }

  lemma WithKeyLast<T>(s: seq<T>, key: T -> int)
    requires s != []
    ensures WithKey(s, key, key(s[|s| - 1])) != []
    ensures WithKey(s, key, key(s[|s| - 1]))[|WithKey(s, key, key(s[|s| - 1]))| - 1] == s[|s| - 1]
  {
  }

  lemma {:induction false} WithKeyIn<T>(s: seq<T>, key: T -> int, k: int)
    ensures forall y :: y in WithKey(s, key, k) ==> y in s && key(y) == k
    decreases |s|
  {
    if s != [] {
      WithKeyIn(s[..|s| - 1], key, k);
    }
  }

  /** The first element with key k is at or before any element with key k:
      it is s[m] for some m <= j. */
  lemma {:induction false} WithKeyFront<T>(s: seq<T>, key: T -> int, k: int, j: nat) returns (m: nat)
    requires j < |s| && key(s[j]) == k
    ensures m <= j && WithKey(s, key, k) != [] && WithKey(s, key, k)[0] == s[m]
    decreases |s|
  {
    var init := s[..|s| - 1];
    if j == |s| - 1 {
      if WithKey(init, key, k) != [] {
        WithKeyIn(init, key, k);
        assert WithKey(init, key, k)[0] in init;
        m :| 0 <= m < |init| && init[m] == WithKey(init, key, k)[0];
      } else {
        m := j;
      }
    } else {
      m := WithKeyFront(init, key, k, j);
    }
  }

  /** The first element after the sort comes, in the input, no later than
      any element with the same key: it is s[m] for some m <= p. */
  lemma SortDescFirst<T>(s: seq<T>, key: T -> int, p: nat) returns (m: nat)
    requires SortDesc(s, key) != []
    requires p < |s| && key(s[p]) == key(SortDesc(s, key)[0])
    ensures m <= p && s[m] == SortDesc(s, key)[0]
  {
    var r := SortDesc(s, key);
    var k := key(r[0]);
    SortDescStable(s, key, k);
    var first := WithKeyFront(r, key, k, 0);
    m := WithKeyFront(s, key, k, p);
  }

  /** In a list in descending key order, an element with key k means the
      last element's key is at most k. */
  lemma LastKeyAtMost<T>(r: seq<T>, key: T -> int, k: int)
    requires SortedDesc(r, key) && r != [] && WithKey(r, key, k) != []
    ensures key(r[|r| - 1]) <= k
  {
    var w := WithKey(r, key, k);
    WithKeyIn(r, key, k);
    assert w[0] in w;
    var i :| 0 <= i < |r| && r[i] == w[0];
    assert i == |r| - 1 || key(r[i]) >= key(r[|r| - 1]);
  }

  /** Two sorted lists that agree on the elements of every key end alike. */
  lemma LastsAgree<T>(r1: seq<T>, r2: seq<T>, key: T -> int)
    requires SortedDesc(r1, key) && SortedDesc(r2, key) && r1 != [] && r2 != []
    requires forall k :: WithKey(r1, key, k) == WithKey(r2, key, k)
    ensures r1[|r1| - 1] == r2[|r2| - 1]
  {
    var a, b := r1[|r1| - 1], r2[|r2| - 1];
    WithKeyLast(r1, key);
    WithKeyLast(r2, key);
    assert WithKey(r1, key, key(b)) == WithKey(r2, key, key(b));
    assert WithKey(r2, key, key(a)) == WithKey(r1, key, key(a));
    LastKeyAtMost(r1, key, key(b));
    LastKeyAtMost(r2, key, key(a));
  }

  lemma CancelRight<T>(u: seq<T>, v: seq<T>, w: seq<T>)
    requires u + w == v + w
    ensures u == v
  {
    assert u == (u + w)[..|u|] && v == (v + w)[..|v|];
  }

  /** Two sorted lists that agree on the elements of every key are equal:
      being sorted and stable fixes the result. */
  lemma {:induction false} SortedUnique<T>(r1: seq<T>, r2: seq<T>, key: T -> int)
    requires SortedDesc(r1, key) && SortedDesc(r2, key)
    requires forall k :: WithKey(r1, key, k) == WithKey(r2, key, k)
    ensures r1 == r2
    decreases |r1| + |r2|
  {
    if r1 == [] && r2 == [] {
    } else if r1 == [] {
      WithKeyLast(r2, key);
      assert false;
    } else if r2 == [] {
      WithKeyLast(r1, key);
      assert false;
    } else {
      LastsAgree(r1, r2, key);
      var a := r1[|r1| - 1];
      var i1, i2 := r1[..|r1| - 1], r2[..|r2| - 1];
      assert r1 == i1 + [a] && r2 == i2 + [a];
      assert SortedDesc(i1, key) && SortedDesc(i2, key);
      forall k ensures WithKey(i1, key, k) == WithKey(i2, key, k) {
        WithKeySnoc(i1, a, key, k);
        WithKeySnoc(i2, a, key, k);
        assert WithKey(r1, key, k) == WithKey(r2, key, k);
        CancelRight(WithKey(i1, key, k), WithKey(i2, key, k), if key(a) == k then [a] else []);
      }
      SortedUnique(i1, i2, key);
    }
  }

  /** Any list in descending key order that keeps the order of each key's
      elements is the sort. */
  lemma SortDescIsTheStableSort<T>(s: seq<T>, r: seq<T>, key: T -> int)
    requires SortedDesc(r, key) && forall k :: WithKey(r, key, k) == WithKey(s, key, k)
    ensures r == SortDesc(s, key)
  {
    SortDescSorted(s, key);
    forall k ensures WithKey(r, key, k) == WithKey(SortDesc(s, key), key, k) {
      SortDescStable(s, key, k);
    }
    SortedUnique(r, SortDesc(s, key), key);
  }

  /** The sort of an array, in place: each element in turn is moved left
      past the elements of smaller key. */
  method SortInPlace<T>(a: array<T>, key: T -> int)
    modifies a
    ensures a[..] == SortDesc(old(a[..]), key)
  {
    ghost var s := a[..];
    var i := 0;
    while i < a.Length
      invariant 0 <= i <= a.Length
      invariant a[..i] == SortDesc(s[..i], key)
      invariant a[i..] == s[i..]
    {
      assert s[..i + 1][..i] == s[..i] && s[i] == a[i];
      InsertAt(a, i, key);
      i := i + 1;
    }
    assert a[..] == a[..a.Length] && s[..a.Length] == s;
  }

  /** One pass of the sort: a[i] is moved left past the elements of smaller
      key before it. */
  method InsertAt<T>(a: array<T>, i: nat, key: T -> int)
    requires i < a.Length
    modifies a
    ensures a[..i + 1] == Insert(old(a[..i]), old(a[i]), key)
    ensures a[i + 1..] == old(a[i + 1..])
  {
    ghost var pre := a[..i];
    var x := a[i];
    var j := i;
    while j > 0 && key(a[j - 1]) < key(x)
      invariant 0 <= j <= i
      invariant forall k :: 0 <= k < j ==> a[k] == pre[k]
      invariant forall k :: j < k <= i ==> a[k] == pre[k - 1]
      invariant forall k :: i < k < a.Length ==> a[k] == old(a[k])
      invariant forall k :: j <= k < i ==> key(pre[k]) < key(x)
    {
      a[j] := a[j - 1];
      j := j - 1;
    }
    a[j] := x;
    InsertSplit(pre, x, key, j);
    assert a[..i + 1] == pre[..j] + [x] + pre[j..] by {
      forall k | 0 <= k <= i
        ensures a[..i + 1][k] == (pre[..j] + [x] + pre[j..])[k]
      {
        if k > j {
          assert (pre[..j] + [x] + pre[j..])[k] == pre[k - 1];
        }
      }
    }
    assert a[i + 1..] == old(a[i + 1..]);
  }

  /** Where Insert puts x: after the last element whose key is at least
      x's. */
  lemma {:induction false} InsertSplit<T>(pre: seq<T>, x: T, key: T -> int, j: nat)
    requires j <= |pre| && (j == 0 || key(pre[j - 1]) >= key(x))
    requires forall k :: j <= k < |pre| ==> key(pre[k]) < key(x)
    ensures Insert(pre, x, key) == pre[..j] + [x] + pre[j..]
    decreases |pre|
  {
    if j == |pre| {
      assert pre[..j] == pre && pre[j..] == [];
    } else {
      var init := pre[..|pre| - 1];
      var last := pre[|pre| - 1];
      InsertSplit(init, x, key, j);
      assert init[..j] == pre[..j];
      assert init[j..] + [last] == pre[j..];
    }
  }

  /** The lists f(x) for the x of s, one after the other. */
  ghost function FlatMap<T, U>(s: seq<T>, f: T -> seq<U>): seq<U>
    decreases |s|
  {
    if s == [] then [] else FlatMap(s[..|s| - 1], f) + f(s[|s| - 1])
  }

  lemma FlatMapSnoc<T, U>(s: seq<T>, x: T, f: T -> seq<U>)
    ensures FlatMap(s + [x], f) == FlatMap(s, f) + f(x)
  {
    assert (s + [x])[..|s|] == s;
  }

  lemma {:induction false} InsertFlatMap<T, U>(s: seq<T>, x: T, key: T -> int, f: T -> seq<U>)
    ensures multiset(FlatMap(Insert(s, x, key), f)) == multiset(FlatMap(s, f)) + multiset(f(x))
    decreases |s|
  {
    if s == [] || key(s[|s| - 1]) >= key(x) {
      FlatMapSnoc(s, x, f);
    } else {
      var init := s[..|s| - 1];
      var last := s[|s| - 1];
      var a := Insert(init, x, key);
      assert Insert(s, x, key) == a + [last];
      InsertFlatMap(init, x, key, f);
      FlatMapSnoc(a, last, f);
      assert s == init + [last];
      FlatMapSnoc(init, last, f);
      MultisetShuffle(FlatMap(a, f), FlatMap(init, f), f(x), f(last));
    }
  }

  lemma MultisetShuffle<U>(a: seq<U>, i: seq<U>, x: seq<U>, l: seq<U>)
    requires multiset(a) == multiset(i) + multiset(x)
    ensures multiset(a + l) == multiset(i + l) + multiset(x)
  {
  }

  /** Sorting a list keeps the bag of what a flatMap over it produces. */
  lemma {:induction false} SortDescFlatMap<T, U>(s: seq<T>, key: T -> int, f: T -> seq<U>)
    ensures multiset(FlatMap(SortDesc(s, key), f)) == multiset(FlatMap(s, f))
    decreases |s|
  {
    if s != [] {
      var init, last := s[..|s| - 1], s[|s| - 1];
      var sorted := SortDesc(init, key);
      assert SortDesc(s, key) == Insert(sorted, last, key);
      SortDescFlatMap(init, key, f);
      InsertFlatMap(sorted, last, key, f);
      assert s == init + [last];
      FlatMapSnoc(init, last, f);
    }
  }

  /** Lists whose elements pairwise give the same bags give the same bag. */
  lemma {:induction false} FlatMapAlike<T, U>(a: seq<T>, b: seq<T>, f: T -> seq<U>)
    requires |a| == |b| && forall i :: 0 <= i < |a| ==> multiset(f(a[i])) == multiset(f(b[i]))
    ensures multiset(FlatMap(a, f)) == multiset(FlatMap(b, f))
    decreases |a|
  {
    if a != [] {
      var n := |a| - 1;
      FlatMapAlike(a[..n], b[..n], f);
      assert multiset(f(a[n])) == multiset(f(b[n]));
    }
  }
}

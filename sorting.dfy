/** `Array.prototype.sort` with a comparator of the form
    `(a, b) => key(a) - key(b)`. Since ES2019 the sort is stable, so its
    result is fixed: the elements ordered by key, equal keys in their
    original relative order. StableSortBy is that result, defined as an
    insertion sort; SortInPlace computes it on an array, as the source
    sorts its arrays in place. A descending order is the ascending order
    of the negated key. */
module Sorting {
  import opened Seqs

  predicate SortedBy<T>(key: T -> int, s: seq<T>)
  {
    forall i, j :: 0 <= i < j < |s| ==> key(s[i]) <= key(s[j])
  }

  /** Where x goes in s: after the last element whose key is at most x's.
      Scanning from the back keeps x after its equals (stability). */
  function InsertionPoint<T>(key: T -> int, x: T, s: seq<T>): (k: nat)
    ensures k <= |s|
  {
    if s == [] then 0
    else if key(s[|s| - 1]) <= key(x) then |s|
    else InsertionPoint(key, x, s[..|s| - 1])
  }

  /** Everything after the insertion point has a larger key than x, and
      the element just before it does not. */
  lemma {:induction false} InsertionPointBounds<T>(key: T -> int, x: T, s: seq<T>)
    ensures var k := InsertionPoint(key, x, s);
      (forall i :: k <= i < |s| ==> key(x) < key(s[i])) &&
      (k > 0 ==> key(s[k - 1]) <= key(x))
  {
    if s != [] && key(x) < key(s[|s| - 1]) {
      var init := s[..|s| - 1];
      InsertionPointBounds(key, x, init);
      var k := InsertionPoint(key, x, s);
      forall i | k <= i < |s| ensures key(x) < key(s[i]) {
        if i < |s| - 1 {
          assert s[i] == init[i];
        }
      }
    }
  }

  function Insert<T>(key: T -> int, x: T, s: seq<T>): seq<T>
  {
    var k := InsertionPoint(key, x, s);
    s[..k] + [x] + s[k..]
  }

  /** The stable sort of s by key: each element of s, front to back, is
      inserted into the sorted prefix before it. */
  function StableSortBy<T>(key: T -> int, s: seq<T>): (r: seq<T>)
    ensures multiset(r) == multiset(s)
  {
    if s == [] then []
    else
      var k := InsertionPoint(key, s[|s| - 1], StableSortBy(key, s[..|s| - 1]));
      var r := Insert(key, s[|s| - 1], StableSortBy(key, s[..|s| - 1]));
      assert s == s[..|s| - 1] + [s[|s| - 1]];
      assert StableSortBy(key, s[..|s| - 1]) == r[..k] + r[k + 1..];
      r
  }

  /** The elements of s whose key is v, in the order of s. */
  function WithKey<T(==)>(key: T -> int, v: int, s: seq<T>): seq<T>
  {
    Filter(y => key(y) == v, s)
  }

  lemma InsertKeepsSorted<T>(key: T -> int, x: T, s: seq<T>)
    requires SortedBy(key, s)
    ensures SortedBy(key, Insert(key, x, s))
  {
    var k := InsertionPoint(key, x, s);
    var r := Insert(key, x, s);
    InsertionPointBounds(key, x, s);
    forall i, j | 0 <= i < j < |r| ensures key(r[i]) <= key(r[j]) {
      if j < k {
        assert r[i] == s[i] && r[j] == s[j];
      } else if j == k {
        assert r[i] == s[i] && key(s[i]) <= key(s[k - 1]);
      } else if i < k {
        assert r[i] == s[i] && r[j] == s[j - 1] && key(s[i]) <= key(s[k - 1]);
      } else if i == k {
        assert r[j] == s[j - 1];
      } else {
        assert r[i] == s[i - 1] && r[j] == s[j - 1];
      }
    }
  }

  lemma {:induction false} StableSortBySorted<T>(key: T -> int, s: seq<T>)
    ensures SortedBy(key, StableSortBy(key, s))
  {
    if s != [] {
      StableSortBySorted(key, s[..|s| - 1]);
      InsertKeepsSorted(key, s[|s| - 1], StableSortBy(key, s[..|s| - 1]));
    }
  }

  /** No element after the insertion point has x's key, so inserting x
      appends it to the elements that share its key. */
  lemma InsertWithKey<T>(key: T -> int, v: int, x: T, s: seq<T>)
    ensures WithKey(key, v, Insert(key, x, s))
         == WithKey(key, v, s) + (if key(x) == v then [x] else [])
  {
    var k := InsertionPoint(key, x, s);
    var p := y => key(y) == v;
    var left, right := s[..k], s[k..];
    assert Insert(key, x, s) == left + [x] + right;
    assert left + right == s;
    FilterConcat(p, left + [x], right);
    FilterConcat(p, left, [x]);
    FilterConcat(p, left, right);
    var fl, fx, fr := Filter(p, left), Filter(p, [x]), Filter(p, right);
    if key(x) == v {
      assert fr == [] by {
        InsertionPointBounds(key, x, s);
        FilterKeepsNone(p, right);
      }
      assert fl + fx + fr == fl + fr + fx;
    } else {
      assert fx == [];
      assert fl + fx + fr == fl + fr + fx;
    }
  }

  /** Stability: for every key, the elements with that key come out in
      the order they went in. */
  lemma {:induction false} StableSortByStable<T>(key: T -> int, v: int, s: seq<T>)
    ensures WithKey(key, v, StableSortBy(key, s)) == WithKey(key, v, s)
  {
    if s != [] {
      var init, x := s[..|s| - 1], s[|s| - 1];
      StableSortByStable(key, v, init);
      InsertWithKey(key, v, x, StableSortBy(key, init));
      assert s == init + [x];
      FilterConcat(y => key(y) == v, init, [x]);
    }
  }

  /** Stopping after an element whose key is at most x's (or at the front)
      is stopping at the insertion point. */
  lemma InsertionPointStop<T>(key: T -> int, x: T, s: seq<T>, j: nat)
    requires j <= |s|
    requires j == 0 || key(s[j - 1]) <= key(x)
    ensures InsertionPoint(key, x, s[..j]) == j
  {
  }

  /** Stepping past an element whose key exceeds x's keeps the insertion
      point. */
  lemma InsertionPointSkip<T>(key: T -> int, x: T, s: seq<T>, j: nat)
    requires 0 < j <= |s|
    requires key(x) < key(s[j - 1])
    ensures InsertionPoint(key, x, s[..j]) == InsertionPoint(key, x, s[..j - 1])
  {
    assert s[..j][..j - 1] == s[..j - 1];
  }

  /** One pass of insertion sort: a[i] is moved left past every element of
      the prefix a[..i] with a larger key. */
  method InsertInPlace<T>(a: array<T>, i: nat, key: T -> int)
    requires i < a.Length
    modifies a
    ensures a[..i + 1] == Insert(key, old(a[i]), old(a[..i]))
    ensures a[i + 1..] == old(a[i + 1..])
  {
    var x := a[i];
    ghost var sorted := a[..i];
    var j := i;
    assert sorted[..j] == sorted;
    while j > 0 && key(x) < key(a[j - 1])
      invariant 0 <= j <= i
      invariant forall k :: 0 <= k < j ==> a[k] == sorted[k]
      invariant forall k :: j < k <= i ==> a[k] == sorted[k - 1]
      invariant forall k :: i < k < a.Length ==> a[k] == old(a[k])
      invariant InsertionPoint(key, x, sorted) == InsertionPoint(key, x, sorted[..j])
    {
      InsertionPointSkip(key, x, sorted, j);
      a[j] := a[j - 1];
      j := j - 1;
    }
    InsertionPointStop(key, x, sorted, j);
    a[j] := x;
    ghost var r := Insert(key, x, sorted);
    assert |r| == i + 1;
    forall k | 0 <= k <= i ensures a[k] == r[k] {
      if k < j {
        assert r[k] == sorted[k];
      } else if k > j {
        assert r[k] == sorted[k - 1];
      }
    }
    assert a[..i + 1] == r;
    assert a[i + 1..] == old(a[i + 1..]);
  }

  /** Sorting one more element inserts it into the sorted prefix. */
  lemma StableSortByStep<T>(key: T -> int, s: seq<T>, i: nat)
    requires i < |s|
    ensures StableSortBy(key, s[..i + 1]) == Insert(key, s[i], StableSortBy(key, s[..i]))
  {
    assert s[..i + 1][..i] == s[..i];
  }

  /** x goes at the end when no key in s exceeds its own. */
  lemma InsertAtEnd<T>(key: T -> int, x: T, s: seq<T>)
    requires s == [] || key(s[|s| - 1]) <= key(x)
    ensures Insert(key, x, s) == s + [x]
  {
    assert s[..|s|] == s;
  }

  /** An element whose key is at least every other key sorts to the end. */
  lemma StableSortByAppendMax<T>(key: T -> int, s: seq<T>, x: T)
    requires forall k :: 0 <= k < |s| ==> key(s[k]) <= key(x)
    ensures StableSortBy(key, s + [x]) == StableSortBy(key, s) + [x]
  {
    var sorted := StableSortBy(key, s);
    var t := s + [x];
    assert t[..|t| - 1] == s && t[|t| - 1] == x;
    assert StableSortBy(key, t) == Insert(key, x, sorted);
    if sorted != [] {
      var last := sorted[|sorted| - 1];
      assert last in multiset(sorted);
      assert last in s;
    }
    InsertAtEnd(key, x, sorted);
  }

  /** Insertion sort in place: after the i-th pass a[..i] holds the stable
      sort of the first i elements. */
  method SortInPlace<T>(a: array<T>, key: T -> int)
    modifies a
    ensures a[..] == StableSortBy(key, old(a[..]))
  {
    ghost var s := a[..];
    var i := 0;
    while i < a.Length
      invariant 0 <= i <= a.Length
      invariant a[..i] == StableSortBy(key, s[..i])
      invariant a[i..] == s[i..]
    {
      assert a[i] == s[i] && a[i + 1..] == s[i + 1..] by {
        assert a[i..][0] == a[i] && a[i..][1..] == a[i + 1..];
        assert s[i..][0] == s[i] && s[i..][1..] == s[i + 1..];
      }
      InsertInPlace(a, i, key);
      StableSortByStep(key, s, i);
      i := i + 1;
    }
    assert s[..a.Length] == s;
  }
}

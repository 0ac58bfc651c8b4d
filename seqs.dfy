/** The array combinators the source relies on (`map`, `filter`), written
    once over sequences, with the facts the rest of the model uses. */
module Seqs {

  /** `Array.prototype.map`: f applied to every element, in order. */
  function MapSeq<A, B>(f: A -> B, s: seq<A>): (r: seq<B>)
    ensures |r| == |s|
    ensures forall i :: 0 <= i < |s| ==> r[i] == f(s[i])
  {
    if s == [] then [] else [f(s[0])] + MapSeq(f, s[1..])
  }

  /** `Array.prototype.filter`: the elements satisfying p, in order. */
  function Filter<T(==)>(p: T -> bool, s: seq<T>): (r: seq<T>)
    ensures |r| <= |s|
  {
    if s == [] then [] else (if p(s[0]) then [s[0]] else []) + Filter(p, s[1..])
  }

  /** An element is in the filtered sequence exactly when it is in the
      input and satisfies p. */
  lemma {:induction false} FilterMembers<T>(p: T -> bool, s: seq<T>, x: T)
    ensures x in Filter(p, s) <==> x in s && p(x)
  {
    if s != [] {
      FilterMembers(p, s[1..], x);
      assert s == [s[0]] + s[1..];
    }
  }

  /** r can be obtained from s by deleting elements (order is kept). */
  predicate IsSubsequence<T(==)>(r: seq<T>, s: seq<T>)
  {
    if r == [] then true
    else if s == [] then false
    else (r[0] == s[0] && IsSubsequence(r[1..], s[1..])) || IsSubsequence(r, s[1..])
  }

  lemma {:induction false} FilterIsSubsequence<T>(p: T -> bool, s: seq<T>)
    ensures IsSubsequence(Filter(p, s), s)
  {
    if s != [] {
      FilterIsSubsequence(p, s[1..]);
      var r := Filter(p, s);
      if p(s[0]) {
        assert r[0] == s[0] && r[1..] == Filter(p, s[1..]);
      } else {
        assert r == Filter(p, s[1..]);
        if r != [] {
          assert IsSubsequence(r, s[1..]);
        }
      }
    }
  }

  /** Each element is kept as often as it occurs, or dropped entirely. */
  lemma {:induction false} FilterCount<T>(p: T -> bool, s: seq<T>, x: T)
    ensures multiset(Filter(p, s))[x] == if p(x) then multiset(s)[x] else 0
  {
    if s != [] {
      FilterCount(p, s[1..], x);
      assert s == [s[0]] + s[1..];
    }
  }

  /** Filtering with a predicate no element meets leaves nothing. */
  lemma {:induction false} FilterKeepsNone<T>(p: T -> bool, s: seq<T>)
    requires forall i :: 0 <= i < |s| ==> !p(s[i])
    ensures Filter(p, s) == []
  {
    if s != [] {
      FilterKeepsNone(p, s[1..]);
    }
  }

  lemma {:induction false} FilterConcat<T>(p: T -> bool, a: seq<T>, b: seq<T>)
    ensures Filter(p, a + b) == Filter(p, a) + Filter(p, b)
  {
    if a != [] {
      FilterConcat(p, a[1..], b);
      assert (a + b)[1..] == a[1..] + b;
    } else {
      assert a + b == b;
    }
  }

  /** Filtering with a predicate every element meets changes nothing. */
  lemma {:induction false} FilterKeepsAll<T>(p: T -> bool, s: seq<T>)
    requires forall i :: 0 <= i < |s| ==> p(s[i])
    ensures Filter(p, s) == s
  {
    if s != [] {
      FilterKeepsAll(p, s[1..]);
      assert [s[0]] + s[1..] == s;
    }
  }

  lemma {:induction false} MapConcat<A, B>(f: A -> B, a: seq<A>, b: seq<A>)
    ensures MapSeq(f, a + b) == MapSeq(f, a) + MapSeq(f, b)
  {
    assert |MapSeq(f, a + b)| == |MapSeq(f, a) + MapSeq(f, b)|;
    forall i | 0 <= i < |a + b|
      ensures MapSeq(f, a + b)[i] == (MapSeq(f, a) + MapSeq(f, b))[i]
    {
      if i < |a| {
        assert (a + b)[i] == a[i];
      } else {
        assert (a + b)[i] == b[i - |a|];
      }
    }
  }

  /** Taking element k out of t takes f(t[k]) out of the mapped multiset. */
  lemma MapRemove<A, B>(f: A -> B, t: seq<A>, k: nat)
    requires k < |t|
    ensures multiset(MapSeq(f, t)) == multiset(MapSeq(f, t[..k] + t[k+1..])) + multiset{f(t[k])}
  {
    SplitAt(t, k);
    var left, right := t[..k], t[k+1..];
    MapConcat(f, left + [t[k]], right);
    MapConcat(f, left, [t[k]]);
    MapConcat(f, left, right);
    var ml, mr := MapSeq(f, left), MapSeq(f, right);
    calc {
      multiset(MapSeq(f, t));
      multiset(ml + MapSeq(f, [t[k]]) + mr);
      { assert MapSeq(f, [t[k]]) == [f(t[k])]; }
      multiset(ml) + multiset{f(t[k])} + multiset(mr);
      multiset(ml + mr) + multiset{f(t[k])};
    }
  }

  lemma SplitAt<A>(t: seq<A>, k: nat)
    requires k < |t|
    ensures t == t[..k] + [t[k]] + t[k+1..]
  {
  }

  lemma CancelOne<A>(s: seq<A>, t: seq<A>, k: nat)
    requires s != [] && k < |t| && t[k] == s[0]
    requires multiset(s) == multiset(t)
    ensures multiset(s[1..]) == multiset(t[..k] + t[k+1..])
  {
    var left, right := t[..k], t[k+1..];
    assert t == left + [t[k]] + right;
    assert s == [s[0]] + s[1..];
    calc {
      multiset(s[1..]);
      multiset(s) - multiset{s[0]};
      multiset(t) - multiset{s[0]};
      multiset(left) + multiset{t[k]} + multiset(right) - multiset{s[0]};
      multiset(left) + multiset(right);
      multiset(left + right);
    }
  }

  /** Mapping two rearrangements of one multiset gives rearrangements of
      one multiset. */
  lemma {:induction false} MapMultiset<A, B>(f: A -> B, s: seq<A>, t: seq<A>)
    requires multiset(s) == multiset(t)
    ensures multiset(MapSeq(f, s)) == multiset(MapSeq(f, t))
    decreases |s|
  {
    if s == [] {
      assert |t| == |multiset(t)| == 0;
    } else {
      assert s[0] in multiset(t);
      var k :| 0 <= k < |t| && t[k] == s[0];
      CancelOne(s, t, k);
      MapMultiset(f, s[1..], t[..k] + t[k+1..]);
      MapRemove(f, t, k);
      assert MapSeq(f, s) == [f(s[0])] + MapSeq(f, s[1..]);
    }
  }
}

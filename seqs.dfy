/** Sequence operations with the semantics of the JavaScript array methods the
    script chains together: `Array.prototype.filter`, `[...new Set(xs)]`
    (distinct elements in insertion order) and `slice(0, n)`. */
module Seqs {

  /** No element occurs twice. */
  predicate NoDups<T(==)>(s: seq<T>) {
    forall i, j :: 0 <= i < j < |s| ==> s[i] != s[j]
  }

  /** `r` can be obtained from `s` by deleting elements, keeping the order. */
  predicate IsSubsequence<T(==)>(r: seq<T>, s: seq<T>)
    decreases |s|
  {
    if r == [] then true
    else if s == [] then false
    else if r[|r| - 1] == s[|s| - 1] then IsSubsequence(r[..|r| - 1], s[..|s| - 1])
    else IsSubsequence(r, s[..|s| - 1])
  }

  /** The position of the first occurrence of `x` in `s`. */
  function IndexOf<T(==)>(s: seq<T>, x: T): (k: nat)
    requires x in s
    ensures k < |s| && s[k] == x && x !in s[..k]
  {
    if s[0] == x then 0 else 1 + IndexOf(s[1..], x)
  }

  /** `s.filter(p)`: the elements of `s` that satisfy `p`, in their order in `s`. */
  function Filter<T(==,!new)>(s: seq<T>, p: T -> bool): (r: seq<T>)
    ensures |r| <= |s|
    ensures forall x :: x in r <==> x in s && p(x)
  {
    if s == [] then []
    else
      var front, last := s[..|s| - 1], s[|s| - 1];
      var kept := Filter(front, p);
      var r := kept + if p(last) then [last] else [];
      assert s == front + [last];
      r
  }

  /** `[...new Set(s)]`: each element once. */
  function Distinct<T(==,!new)>(s: seq<T>): (r: seq<T>)
    ensures NoDups(r)
    ensures forall x :: x in r <==> x in s
  {
    if s == [] then []
    else
      var front, last := s[..|s| - 1], s[|s| - 1];
      var d := Distinct(front);
      assert s == front + [last];
      if last in d then d else d + [last]
  }

  /** The elements of `r`, all found in `s`, come in the order of their first occurrence in `s`. */
  predicate FirstSeenOrder<T(==)>(r: seq<T>, s: seq<T>)
    requires forall x :: x in r ==> x in s
  {
    forall i, j :: 0 <= i < j < |r| ==> IndexOf(s, r[i]) < IndexOf(s, r[j])
  }

  /** ... in the order of each element's first occurrence. */
  lemma {:induction false} DistinctFirstSeen<T(!new)>(s: seq<T>)
    ensures FirstSeenOrder(Distinct(s), s)
  {
    if s != [] {
      var front, last := s[..|s| - 1], s[|s| - 1];
      var d := Distinct(front);
      assert s == front + [last];
      DistinctFirstSeen(front);
      assert FirstSeenOrder(d, front);
      IndexOfExtend(front, last);
      if last !in d {
        IndexOfFresh(front, last);
        var r := Distinct(s);
        assert r == d + [last];
        forall i, j | 0 <= i < j < |r| ensures IndexOf(s, r[i]) < IndexOf(s, r[j]) {
          assert r[i] == d[i] && r[i] in front;
          assert IndexOf(s, r[i]) == IndexOf(front, r[i]);
          if j == |d| {
            assert r[j] == last;
            assert IndexOf(front, r[i]) < |front|;
          } else {
            assert r[j] == d[j] && r[j] in front;
            assert IndexOf(s, r[j]) == IndexOf(front, r[j]);
            assert IndexOf(front, d[i]) < IndexOf(front, d[j]);
          }
        }
      }
    }
  }

  /** `s.slice(0, n)`. */
  function Take<T>(s: seq<T>, n: nat): (r: seq<T>)
    ensures |r| == if |s| < n then |s| else n
    ensures forall i :: 0 <= i < |r| ==> r[i] == s[i]
  {
    if |s| < n then s else s[..n]
  }

  /** Appending an element does not move the first occurrence of anything already there. */
  lemma {:induction false} IndexOfExtend<T>(s: seq<T>, y: T)
    ensures forall x :: x in s ==> IndexOf(s + [y], x) == IndexOf(s, x)
  {
    forall x | x in s ensures IndexOf(s + [y], x) == IndexOf(s, x) {
      IndexOfAppend(s, y, x);
    }
  }

  lemma {:induction false} IndexOfAppend<T>(s: seq<T>, y: T, x: T)
    requires x in s
    ensures IndexOf(s + [y], x) == IndexOf(s, x)
  {
    if s[0] != x {
      assert (s + [y])[1..] == s[1..] + [y];
      IndexOfAppend(s[1..], y, x);
    }
  }

  lemma {:induction false} IndexOfFresh<T>(s: seq<T>, y: T)
    requires y !in s
    ensures IndexOf(s + [y], y) == |s|
  {
    if s != [] {
      assert (s + [y])[1..] == s[1..] + [y];
      IndexOfFresh(s[1..], y);
    }
  }

  /** The elements a duplicate-free sequence holds are as many as its length. */
  lemma {:induction false} NoDupsCard<T>(s: seq<T>)
    requires NoDups(s)
    ensures |set x | x in s| == |s|
  {
    if s != [] {
      var front, last := s[..|s| - 1], s[|s| - 1];
      assert s == front + [last];
      NoDupsCard(front);
      assert (set x | x in s) == (set x | x in front) + {last};
    }
  }

  /** A sequence holds at most as many distinct elements as its length. */
  lemma {:induction false} SetCardAtMost<T>(s: seq<T>)
    ensures |set x | x in s| <= |s|
  {
    if s != [] {
      var front, last := s[..|s| - 1], s[|s| - 1];
      assert s == front + [last];
      SetCardAtMost(front);
      assert (set x | x in s) == (set x | x in front) + {last};
    }
  }

  /** A duplicate-free sequence whose elements all occur in `b` is no longer than `b`. */
  lemma NoDupsWithin<T>(a: seq<T>, b: seq<T>)
    requires NoDups(a)
    requires forall x :: x in a ==> x in b
    ensures |a| <= |b|
  {
    NoDupsCard(a);
    SetCardAtMost(b);
    var sa, sb := set x | x in a, set x | x in b;
    assert sa <= sb;
    assert |sa| <= |sb| by { assert sb == sa + (sb - sa); }
  }

  /** A filter splits over concatenation, which is what "in original order" means. */
  lemma {:induction false} FilterAppend<T(!new)>(a: seq<T>, b: seq<T>, p: T -> bool)
    ensures Filter(a + b, p) == Filter(a, p) + Filter(b, p)
    decreases |b|
  {
    if b == [] {
      assert a + b == a;
    } else {
      var front, last := b[..|b| - 1], b[|b| - 1];
      var ab := a + b;
      assert ab == (a + front) + [last];
      assert ab[..|ab| - 1] == a + front && ab[|ab| - 1] == last;
      FilterAppend(a, front, p);
      assert Filter(b, p) == Filter(front, p) + if p(last) then [last] else [] by {
        assert b[..|b| - 1] == front;
      }
    }
  }

  /** The last element a filter keeps is the last element of `s` satisfying `p`. */
  lemma {:induction false} FilterLast<T(!new)>(s: seq<T>, p: T -> bool) returns (j: nat)
    requires Filter(s, p) != []
    ensures j < |s| && s[j] == Filter(s, p)[|Filter(s, p)| - 1] && p(s[j])
    ensures forall k :: j < k < |s| ==> !p(s[k])
  {
    var front, last := s[..|s| - 1], s[|s| - 1];
    var kept, r := Filter(front, p), Filter(s, p);
    assert s == front + [last];
    if p(last) {
      assert r == kept + [last];
      j := |s| - 1;
    } else {
      assert r == kept;
      j := FilterLast(front, p);
      assert s[j] == front[j];
      assert forall k :: j < k < |front| ==> s[k] == front[k];
    }
  }

  /** Every element occurs in the filter's result exactly as often as in `s` when it
      satisfies `p`, and not at all otherwise. */
  lemma {:induction false} FilterCount<T(!new)>(s: seq<T>, p: T -> bool, x: T)
    ensures multiset(Filter(s, p))[x] == if p(x) then multiset(s)[x] else 0
  {
    if s != [] {
      var front, last := s[..|s| - 1], s[|s| - 1];
      assert s == front + [last];
      FilterCount(front, p, x);
      assert multiset(s) == multiset(front) + multiset{last};
    }
  }

  /** The filter's result keeps the order the elements had in `s`. */
  lemma {:induction false} FilterIsSubsequence<T(!new)>(s: seq<T>, p: T -> bool)
    ensures IsSubsequence(Filter(s, p), s)
  {
    if s != [] {
      var front, last := s[..|s| - 1], s[|s| - 1];
      var kept, r := Filter(front, p), Filter(s, p);
      assert s == front + [last];
      FilterIsSubsequence(front, p);
      if p(last) {
        assert r[..|r| - 1] == kept;
      } else {
        assert r == kept;
        if kept != [] {
          assert kept[|kept| - 1] in kept;
        }
      }
    }
  }

  /** A filter every element passes keeps the whole sequence. */
  lemma {:induction false} FilterAll<T(!new)>(s: seq<T>, p: T -> bool)
    requires forall x :: x in s ==> p(x)
    ensures Filter(s, p) == s
  {
    if s != [] {
      var front := s[..|s| - 1];
      assert s == front + [s[|s| - 1]];
      FilterAll(front, p);
    }
  }

  /** A non-empty sequence holding one value only has that value as its only distinct element. */
  lemma {:induction false} DistinctSingle<T(!new)>(s: seq<T>, c: T)
    requires s != [] && forall x :: x in s ==> x == c
    ensures Distinct(s) == [c]
  {
    var d := Distinct(s);
    assert c in d by { assert s[0] in s; }
    assert (set x | x in d) == {c};
    NoDupsCard(d);
    assert d[0] in d;
  }
}

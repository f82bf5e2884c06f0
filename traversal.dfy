/** Specification functions for the filter-then-map traversals of the roster
    examples: what a traversal that tests every element, maps the ones that
    pass and hands the result to a consumer leaves behind, as a sequence. */
module Traversal {

  /** The elements of `s` for which `p` holds, in the order of `s`. */
  function Filter<X>(p: X -> bool, s: seq<X>): (r: seq<X>)
    ensures |r| <= |s|
    ensures forall i :: 0 <= i < |r| ==> p(r[i])
  {
    if s == [] then []
    else if p(s[0]) then [s[0]] + Filter(p, s[1..])
    else Filter(p, s[1..])
  }

  /** `f` applied to every element of `s`, in the order of `s`. */
  function Map<X, Y>(f: X -> Y, s: seq<X>): (r: seq<Y>)
    ensures |r| == |s|
    ensures forall i :: 0 <= i < |s| ==> r[i] == f(s[i])
  {
    if s == [] then [] else [f(s[0])] + Map(f, s[1..])
  }

  /** `a` is obtained from `b` by deleting some elements, keeping the order
      of the rest. */
  predicate IsSubsequence<X(==)>(a: seq<X>, b: seq<X>)
  {
    a == [] ||
    (b != [] &&
     ((a[0] == b[0] && IsSubsequence(a[1..], b[1..])) || IsSubsequence(a, b[1..])))
  }

  lemma {:induction false} FilterAppend<X>(p: X -> bool, a: seq<X>, b: seq<X>)
    ensures Filter(p, a + b) == Filter(p, a) + Filter(p, b)
  {
    if a == [] {
      assert a + b == b;
    } else {
      assert (a + b)[0] == a[0];
      assert (a + b)[1..] == a[1..] + b;
      FilterAppend(p, a[1..], b);
    }
  }

  /** One more step of a left-to-right traversal. */
  lemma FilterSnoc<X>(p: X -> bool, s: seq<X>, i: nat)
    requires i < |s|
    ensures Filter(p, s[..i + 1]) == Filter(p, s[..i]) + (if p(s[i]) then [s[i]] else [])
  {
    assert s[..i + 1] == s[..i] + [s[i]];
    FilterAppend(p, s[..i], [s[i]]);
  }

  lemma {:induction false} MapAppend<X, Y>(f: X -> Y, a: seq<X>, b: seq<X>)
    ensures Map(f, a + b) == Map(f, a) + Map(f, b)
  {
    if a == [] {
      assert a + b == b;
    } else {
      assert (a + b)[0] == a[0];
      assert (a + b)[1..] == a[1..] + b;
      MapAppend(f, a[1..], b);
    }
  }

  /** Every element is kept exactly as often as it occurs in `s` when it
      passes `p`, and never otherwise. */
  lemma {:induction false} FilterCount<X>(p: X -> bool, s: seq<X>, x: X)
    ensures multiset(Filter(p, s))[x] == if p(x) then multiset(s)[x] else 0
  {
    if s != [] {
      assert s == [s[0]] + s[1..];
      assert multiset(s) == multiset{s[0]} + multiset(s[1..]);
      FilterCount(p, s[1..], x);
    }
  }

  /** An element is kept if and only if it occurs in `s` and passes `p`. */
  lemma FilterMembers<X>(p: X -> bool, s: seq<X>)
    ensures forall x :: x in Filter(p, s) <==> x in s && p(x)
  {
    forall x
      ensures x in Filter(p, s) <==> x in s && p(x)
    {
      FilterCount(p, s, x);
      assert x in Filter(p, s) <==> x in multiset(Filter(p, s));
      assert x in s <==> x in multiset(s);
    }
  }

  /** Filtering keeps the relative order of the kept elements. */
  lemma {:induction false} FilterIsSubsequence<X>(p: X -> bool, s: seq<X>)
    ensures IsSubsequence(Filter(p, s), s)
  {
    if s != [] {
      FilterIsSubsequence(p, s[1..]);
      if p(s[0]) {
        assert Filter(p, s)[0] == s[0] && Filter(p, s)[1..] == Filter(p, s[1..]);
      }
    }
  }

  /** Filtering by a conjunction is filtering by one conjunct after the other. */
  lemma {:induction false} FilterBoth<X>(p: X -> bool, q: X -> bool, pq: X -> bool, s: seq<X>)
    requires forall x :: pq(x) == (p(x) && q(x))
    ensures Filter(pq, s) == Filter(p, Filter(q, s))
  {
    if s != [] {
      FilterBoth(p, q, pq, s[1..]);
      if q(s[0]) {
        assert Filter(q, s) == [s[0]] + Filter(q, s[1..]);
        assert Filter(q, s)[0] == s[0] && Filter(q, s)[1..] == Filter(q, s[1..]);
      }
    }
  }

  /** A value is in the mapped sequence exactly when some element maps to it. */
  lemma MapMembers<X, Y>(f: X -> Y, s: seq<X>)
    ensures forall y :: y in Map(f, s) <==> exists x :: x in s && f(x) == y
  {
    forall y | y in Map(f, s)
      ensures exists x :: x in s && f(x) == y
    {
      var i :| 0 <= i < |s| && Map(f, s)[i] == y;
      assert s[i] in s && f(s[i]) == y;
    }
    forall y | exists x :: x in s && f(x) == y
      ensures y in Map(f, s)
    {
      var x :| x in s && f(x) == y;
      var i :| 0 <= i < |s| && s[i] == x;
      assert Map(f, s)[i] == y;
    }
  }

  /** Mapping with a function that returns its argument changes nothing. */
  lemma MapIdentity<X>(f: X -> X, s: seq<X>)
    requires forall x :: f(x) == x
    ensures Map(f, s) == s
  {
  }
}

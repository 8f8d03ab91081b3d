/** Order-preserving selection from a sequence: the shape shared by the
    NaN filter over condition results and the marker range filter. */
module Seqs {

  /** `a` can be obtained from `b` by deleting elements, keeping order. */
  predicate IsSubseq<T(==)>(a: seq<T>, b: seq<T>)
    decreases |b|
  {
    if a == [] then true
    else if b == [] then false
    else (a[|a| - 1] == b[|b| - 1] && IsSubseq(a[..|a| - 1], b[..|b| - 1]))
         || IsSubseq(a, b[..|b| - 1])
  }

  /** The elements of `s` that satisfy `keep`, in their original order. */
  function Filter<T>(s: seq<T>, keep: T -> bool): (r: seq<T>)
    ensures |r| <= |s|
    ensures forall k :: 0 <= k < |r| ==> keep(r[k])
    ensures forall k :: 0 <= k < |r| ==> r[k] in s
    decreases |s|
  {
    if s == [] then []
    else
      var last := s[|s| - 1];
      Filter(s[..|s| - 1], keep) + (if keep(last) then [last] else [])
  }

  lemma {:induction false} FilterKeepsPassing<T>(s: seq<T>, keep: T -> bool, x: T)
    requires x in s && keep(x)
    ensures x in Filter(s, keep)
    decreases |s|
  {
    var init := s[..|s| - 1];
    if x != s[|s| - 1] {
      assert x in init;
      FilterKeepsPassing(init, keep, x);
    }
  }

  /** An element is in the filtered sequence exactly when it is in the input and passes. */
  lemma FilterMembership<T>(s: seq<T>, keep: T -> bool, x: T)
    ensures x in Filter(s, keep) <==> x in s && keep(x)
  {
    if x in s && keep(x) {
      FilterKeepsPassing(s, keep, x);
    }
  }

  /** The filtered sequence keeps the input's order and does not alter values. */
  lemma {:induction false} FilterIsSubseq<T>(s: seq<T>, keep: T -> bool)
    ensures IsSubseq(Filter(s, keep), s)
    decreases |s|
  {
    if s != [] {
      var init := s[..|s| - 1];
      var last := s[|s| - 1];
      FilterIsSubseq(init, keep);
      var r := Filter(s, keep);
      if keep(last) {
        assert r[..|r| - 1] == Filter(init, keep);
      } else {
        assert r == Filter(init, keep);
      }
    }
  }

  /** Two tests that agree on every element of `s` select the same elements,
      the same number of times, in the same order. */
  lemma {:induction false} FilterCongruent<T>(s: seq<T>, k1: T -> bool, k2: T -> bool)
    requires forall k :: 0 <= k < |s| ==> k1(s[k]) == k2(s[k])
    ensures Filter(s, k1) == Filter(s, k2)
    decreases |s|
  {
    if s != [] {
      var init := s[..|s| - 1];
      assert forall k :: 0 <= k < |init| ==> init[k] == s[k];
      FilterCongruent(init, k1, k2);
    }
  }

  /** Nothing is dropped when every element passes. */
  lemma {:induction false} FilterAllPass<T>(s: seq<T>, keep: T -> bool)
    requires forall k :: 0 <= k < |s| ==> keep(s[k])
    ensures Filter(s, keep) == s
    decreases |s|
  {
    if s != [] {
      FilterAllPass(s[..|s| - 1], keep);
      assert s[..|s| - 1] + [s[|s| - 1]] == s;
    }
  }
}

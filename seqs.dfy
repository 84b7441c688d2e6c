/** Sequence helpers shared by the model: an order-preserving filter (Python's
    comprehension with an `if`, and the `for ... if ...: append` loops) and
    reversal (Python's `reversed`). */
module Seqs {

  /** The elements of `s` that satisfy `p`, in their original order. */
  function Filter<T>(s: seq<T>, p: T -> bool): (r: seq<T>)
    ensures |r| <= |s|
  {
    if s == [] then []
    else
      assert s == s[..|s| - 1] + [s[|s| - 1]];
      Filter(s[..|s| - 1], p) + (if p(s[|s| - 1]) then [s[|s| - 1]] else [])
  }

  /** The kept elements are exactly the elements of `s` that satisfy `p`. */
  lemma {:induction false} FilterMembers<T>(s: seq<T>, p: T -> bool)
    ensures forall k :: 0 <= k < |Filter(s, p)| ==> Filter(s, p)[k] in s && p(Filter(s, p)[k])
    ensures forall k :: 0 <= k < |s| && p(s[k]) ==> s[k] in Filter(s, p)
  {
    if s != [] {
      var s' := s[..|s| - 1];
      FilterMembers(s', p);
      assert s == s' + [s[|s| - 1]];
      var r, r' := Filter(s, p), Filter(s', p);
      assert r == r' + (if p(s[|s| - 1]) then [s[|s| - 1]] else []);
      forall k | 0 <= k < |r| ensures r[k] in s && p(r[k]) {
        if k < |r'| {
          assert r[k] == r'[k];
        }
      }
      forall k | 0 <= k < |s| && p(s[k]) ensures s[k] in r {
        if k < |s'| {
          assert s[k] == s'[k];
        }
      }
    }
  }

  lemma {:induction false} FilterAppend<T>(a: seq<T>, b: seq<T>, p: T -> bool)
    ensures Filter(a + b, p) == Filter(a, p) + Filter(b, p)
    decreases |b|
  {
    if b != [] {
      var b' := b[..|b| - 1];
      assert (a + b)[..|a + b| - 1] == a + b';
      FilterAppend(a, b', p);
    } else {
      assert a + b == a;
    }
  }

  /** Filtering keeps a strictly increasing rank strictly increasing: the
      result is a subsequence of the input. */
  lemma {:induction false} FilterKeepsRankOrder<T>(s: seq<T>, p: T -> bool, rank: T -> int)
    requires forall i, j :: 0 <= i < j < |s| ==> rank(s[i]) < rank(s[j])
    ensures forall i, j :: 0 <= i < j < |Filter(s, p)| ==> rank(Filter(s, p)[i]) < rank(Filter(s, p)[j])
  {
    if s != [] {
      var s' := s[..|s| - 1];
      FilterKeepsRankOrder(s', p, rank);
      FilterMembers(s', p);
      var r' := Filter(s', p);
      forall k | 0 <= k < |r'| ensures rank(r'[k]) < rank(s[|s| - 1]) {
        var i :| 0 <= i < |s'| && s'[i] == r'[k];
        assert s[i] == r'[k];
      }
      var r := Filter(s, p);
      assert r == r' + (if p(s[|s| - 1]) then [s[|s| - 1]] else []);
      forall i, j | 0 <= i < j < |r| ensures rank(r[i]) < rank(r[j]) {
        if j < |r'| {
          assert r[i] == r'[i] && r[j] == r'[j];
          assert rank(r'[i]) < rank(r'[j]);
        } else {
          assert r[i] == r'[i] && r[j] == s[|s| - 1];
          assert rank(r'[i]) < rank(s[|s| - 1]);
        }
      }
    }
  }

  /** Nothing is kept when no element satisfies `p`. */
  lemma {:induction false} FilterNone<T>(s: seq<T>, p: T -> bool)
    requires forall k :: 0 <= k < |s| ==> !p(s[k])
    ensures Filter(s, p) == []
  {
    if s != [] {
      FilterNone(s[..|s| - 1], p);
    }
  }

  /** Two predicates that agree on the elements of `s` select the same elements. */
  lemma {:induction false} FilterAgree<T>(s: seq<T>, p: T -> bool, q: T -> bool)
    requires forall k :: 0 <= k < |s| ==> p(s[k]) == q(s[k])
    ensures Filter(s, p) == Filter(s, q)
  {
    if s != [] {
      FilterAgree(s[..|s| - 1], p, q);
    }
  }

  /** Python's `list(reversed(s))`. */
  function Reverse<T>(s: seq<T>): (r: seq<T>)
    ensures |r| == |s|
    ensures forall k :: 0 <= k < |s| ==> r[k] == s[|s| - 1 - k]
  {
    if s == [] then [] else [s[|s| - 1]] + Reverse(s[..|s| - 1])
  }
}

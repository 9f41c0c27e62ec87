/**
 * Sequence vocabulary shared by both list views: JavaScript's
 * `Array.prototype.filter`, subsequences, and permutations of positions.
 */
module Sequences {

  /** `s.filter(keep)`: the elements of `s` that satisfy `keep`, in their order. */
  function Filter<T>(s: seq<T>, keep: T -> bool): (r: seq<T>)
    ensures |r| <= |s|
    ensures forall x :: x in r ==> x in s && keep(x)
  {
    if s == [] then []
    else if keep(s[0]) then [s[0]] + Filter(s[1..], keep)
    else Filter(s[1..], keep)
  }

  /** The filter keeps every occurrence of a kept element and drops every other one. */
  lemma {:induction false} FilterCount<T>(s: seq<T>, keep: T -> bool, x: T)
    ensures multiset(Filter(s, keep))[x] == if keep(x) then multiset(s)[x] else 0
  {
    if s != [] {
      FilterCount(s[1..], keep, x);
      assert s == [s[0]] + s[1..];
    }
  }

  /** `r` is obtained from `s` by deleting elements, keeping the order of the rest. */
  predicate IsSubsequence<T(==)>(r: seq<T>, s: seq<T>)
    decreases |s|
  {
    r == [] ||
    (s != [] && ((r[0] == s[0] && IsSubsequence(r[1..], s[1..])) || IsSubsequence(r, s[1..])))
  }

  lemma {:induction false} FilterIsSubsequence<T>(s: seq<T>, keep: T -> bool)
    ensures IsSubsequence(Filter(s, keep), s)
  {
    if s != [] {
      FilterIsSubsequence(s[1..], keep);
    }
  }

  /** A filter that keeps everything returns its input. */
  lemma {:induction false} FilterKeepsAll<T>(s: seq<T>, keep: T -> bool)
    requires forall i :: 0 <= i < |s| ==> keep(s[i])
    ensures Filter(s, keep) == s
  {
    if s != [] {
      FilterKeepsAll(s[1..], keep);
    }
  }

  /** Filters agreeing on every element of `s` give the same result. */
  lemma {:induction false} FilterCongruent<T>(s: seq<T>, f: T -> bool, g: T -> bool)
    requires forall i :: 0 <= i < |s| ==> f(s[i]) == g(s[i])
    ensures Filter(s, f) == Filter(s, g)
  {
    if s != [] {
      FilterCongruent(s[1..], f, g);
    }
  }

  /** A stricter filter returns a subsequence of what a looser one returns. */
  lemma {:induction false} FilterNarrows<T>(s: seq<T>, f: T -> bool, g: T -> bool)
    requires forall i :: 0 <= i < |s| ==> f(s[i]) ==> g(s[i])
    ensures IsSubsequence(Filter(s, f), Filter(s, g))
  {
    if s != [] {
      FilterNarrows(s[1..], f, g);
    }
  }

  /** `s.map(f)`. */
  function Map<T, U>(s: seq<T>, f: T -> U): (r: seq<U>)
    ensures |r| == |s| && forall k :: 0 <= k < |s| ==> r[k] == f(s[k])
  {
    seq(|s|, k requires 0 <= k < |s| => f(s[k]))
  }

  lemma MapAppend<T, U>(s: seq<T>, t: seq<T>, f: T -> U)
    ensures Map(s + t, f) == Map(s, f) + Map(t, f)
  {
  }

  /** Mapping two rearrangements of each other gives two rearrangements of each other. */
  lemma {:induction false} MapMultiset<T, U>(s: seq<T>, t: seq<T>, f: T -> U)
    requires multiset(s) == multiset(t)
    ensures multiset(Map(s, f)) == multiset(Map(t, f))
    decreases |s|
  {
    if s == [] {
      assert t == [] by {
        assert |multiset(t)| == 0;
      }
    } else {
      var x := s[0];
      assert x in multiset(t);
      var i :| 0 <= i < |t| && t[i] == x;
      var rest := t[..i] + t[i + 1..];
      assert t == t[..i] + [x] + t[i + 1..];
      assert s == [x] + s[1..];
      assert multiset(t) == multiset(t[..i]) + multiset{x} + multiset(t[i + 1..]);
      assert multiset(rest) == multiset(t[..i]) + multiset(t[i + 1..]);
      assert multiset(s) == multiset{x} + multiset(s[1..]);
      assert multiset(s[1..]) == multiset(s) - multiset{x};
      assert multiset(rest) == multiset(t) - multiset{x};
      MapMultiset(s[1..], rest, f);
      MapAppend([x], s[1..], f);
      MapAppend(t[..i] + [x], t[i + 1..], f);
      MapAppend(t[..i], [x], f);
      MapAppend(t[..i], t[i + 1..], f);
    }
  }

  /** `p` lists each position 0..n-1 exactly once. */
  ghost predicate IsPermutation(p: seq<int>, n: nat)
  {
    && |p| == n
    && (forall k :: 0 <= k < n ==> 0 <= p[k] < n)
    && (forall k, l :: 0 <= k < l < n ==> p[k] != p[l])
    && (forall i :: 0 <= i < n ==> i in p)
  }

  function Identity(n: nat): (p: seq<int>)
    ensures |p| == n && forall k :: 0 <= k < n ==> p[k] == k
  {
    seq(n, k => k)
  }

  function Reverse<T>(s: seq<T>): (r: seq<T>)
    ensures |r| == |s| && forall k :: 0 <= k < |s| ==> r[k] == s[|s| - 1 - k]
  {
    seq(|s|, k requires 0 <= k < |s| => s[|s| - 1 - k])
  }

  lemma IdentityIsPermutation(n: nat)
    ensures IsPermutation(Identity(n), n)
  {
    var p := Identity(n);
    forall i | 0 <= i < n
      ensures i in p
    {
      assert p[i] == i;
    }
  }

  lemma ReverseIsPermutation(p: seq<int>, n: nat)
    requires IsPermutation(p, n)
    ensures IsPermutation(Reverse(p), n)
  {
    var r := Reverse(p);
    forall i | 0 <= i < n
      ensures i in r
    {
      assert i in p;
      var k :| 0 <= k < n && p[k] == i;
      assert r[n - 1 - k] == i;
    }
  }

  /** An element at two different positions occurs at least twice. */
  lemma TwoPositions<T>(s: seq<T>, k: int, l: int)
    requires 0 <= k < l < |s|
    ensures s[k] == s[l] ==> multiset(s)[s[k]] >= 2
  {
    assert s == s[..l] + s[l..];
    assert s[k] in s[..l];
    assert s[l] in s[l..];
    assert multiset(s) == multiset(s[..l]) + multiset(s[l..]);
  }
}

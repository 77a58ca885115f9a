/** The array operations the services are built from (`find`, `findIndex`,
    `filter`, `Math.max(0, ...ids) + 1`), as functions over sequences. */
module Seqs {
  import opened Wrappers

  /** `a` is `b` with some elements left out, order kept. */
  ghost predicate IsSubsequence<T>(a: seq<T>, b: seq<T>)
    decreases |b|
  {
    if a == [] then true
    else if b == [] then false
    else (a[0] == b[0] && IsSubsequence(a[1..], b[1..])) || IsSubsequence(a, b[1..])
  }

  /** `i` is the first position of `s` whose element satisfies `p`. */
  ghost predicate FirstMatch<T>(s: seq<T>, p: T -> bool, i: int)
  {
    0 <= i < |s| && p(s[i]) && forall j :: 0 <= j < i ==> !p(s[j])
  }

  /** `Array.prototype.findIndex`: the first matching position, or none
      (the source's `-1`). */
  function FindIndex<T>(s: seq<T>, p: T -> bool): (r: Option<nat>)
    ensures r.Some? ==> FirstMatch(s, p, r.value)
    ensures r.None? <==> forall j :: 0 <= j < |s| ==> !p(s[j])
  {
    if s == [] then None
    else if p(s[0]) then Some(0)
    else match FindIndex(s[1..], p)
      case None => None
      case Some(i) => Some(i + 1)
  }

  /** `Array.prototype.find`: the element at the first matching position. */
  function Find<T>(s: seq<T>, p: T -> bool): (r: Option<T>)
    ensures r.Some? ==> exists i :: FirstMatch(s, p, i) && s[i] == r.value
    ensures r.None? <==> forall x <- s :: !p(x)
  {
    match FindIndex(s, p)
    case None => None
    case Some(i) => assert FirstMatch(s, p, i); Some(s[i])
  }

  /** `Array.prototype.filter`: every element that satisfies `p`, in order,
      each as many times as it occurs in `s`. */
  function Filter<T>(s: seq<T>, p: T -> bool): (r: seq<T>)
    ensures forall x <- r :: x in s && p(x)
    ensures forall x <- s :: p(x) ==> x in r
    ensures forall x <- s :: multiset(r)[x] == if p(x) then multiset(s)[x] else 0
    ensures IsSubsequence(r, s)
  {
    if s == [] then []
    else
      var rest := Filter(s[1..], p);
      assert s == [s[0]] + s[1..];
      assert forall x <- s :: x == s[0] || x in s[1..];
      assert multiset(s) == multiset([s[0]]) + multiset(s[1..]);
      if p(s[0]) then
        assert multiset([s[0]] + rest) == multiset([s[0]]) + multiset(rest);
        [s[0]] + rest
      else rest
  }

  /** `Math.max(0, ...s.map(idOf))`. */
  function MaxId<T>(s: seq<T>, idOf: T -> int): (m: int)
    ensures m >= 0
    ensures forall x <- s :: idOf(x) <= m
    ensures m == 0 || exists x <- s :: idOf(x) == m
  {
    if s == [] then 0
    else
      var rest := MaxId(s[1..], idOf);
      assert forall x <- s :: x == s[0] || x in s[1..];
      if idOf(s[0]) > rest then idOf(s[0]) else rest
  }

  /** The id `create` assigns: one more than the largest id, and never below 1. */
  function NextId<T>(s: seq<T>, idOf: T -> int): (n: int)
    ensures n >= 1
    ensures forall x <- s :: idOf(x) < n
    ensures s == [] ==> n == 1
    ensures n == 1 || exists x <- s :: idOf(x) == n - 1
  {
    MaxId(s, idOf) + 1
  }

  /** No two positions of `s` carry the same id. */
  ghost predicate UniqueIds<T>(s: seq<T>, idOf: T -> int)
  {
    forall i, j :: 0 <= i < j < |s| ==> idOf(s[i]) != idOf(s[j])
  }

  /** Ids strictly increase along `s`. */
  ghost predicate IncreasingIds<T>(s: seq<T>, idOf: T -> int)
  {
    forall i, j :: 0 <= i < j < |s| ==> idOf(s[i]) < idOf(s[j])
  }

  /** Appending the record that received `NextId` keeps ids increasing,
      and so unique. */
  lemma AppendNextIdKeepsIncreasing<T>(s: seq<T>, idOf: T -> int, x: T)
    requires IncreasingIds(s, idOf)
    requires idOf(x) == NextId(s, idOf)
    ensures IncreasingIds(s + [x], idOf)
  {
    var t := s + [x];
    forall i, j | 0 <= i < j < |t| ensures idOf(t[i]) < idOf(t[j]) {
      if j == |s| {
        assert t[i] in s;
      }
    }
  }

  /** Appending the record that received `NextId` keeps ids unique. */
  lemma AppendNextIdKeepsUnique<T>(s: seq<T>, idOf: T -> int, x: T)
    requires UniqueIds(s, idOf)
    requires idOf(x) == NextId(s, idOf)
    ensures UniqueIds(s + [x], idOf)
  {
    var t := s + [x];
    forall i, j | 0 <= i < j < |t| ensures idOf(t[i]) != idOf(t[j]) {
      if j == |s| {
        assert t[i] in s;
      }
    }
  }

  /** Replacing one element by a record with the same id keeps ids unique. */
  lemma ReplaceSameIdKeepsUnique<T>(s: seq<T>, idOf: T -> int, i: int, x: T)
    requires UniqueIds(s, idOf)
    requires 0 <= i < |s| && idOf(x) == idOf(s[i])
    ensures UniqueIds(s[i := x], idOf)
  {
  }

  /** `find` looks at the head first, then at the rest. */
  lemma FindCons<T>(s: seq<T>, p: T -> bool)
    requires s != []
    ensures Find(s, p) == if p(s[0]) then Some(s[0]) else Find(s[1..], p)
  {
  }

  /** Finding with `q` among the elements kept by `p` finds the first element
      that satisfies both (`filter(p).find(q)`). */
  lemma {:induction false} FindAfterFilter<T>(s: seq<T>, p: T -> bool, q: T -> bool, pq: T -> bool)
    requires forall x :: pq(x) == (p(x) && q(x))
    ensures Find(Filter(s, p), q) == Find(s, pq)
    decreases |s|
  {
    if s != [] {
      FindCons(s, pq);
      FindAfterFilter(s[1..], p, q, pq);
      if p(s[0]) {
        var f := [s[0]] + Filter(s[1..], p);
        assert Filter(s, p) == f;
        FindCons(f, q);
        assert f[1..] == Filter(s[1..], p);
      }
    }
  }

  /** Filtering twice keeps the elements that pass both filters
      (`filter(p).filter(q)`). */
  lemma {:induction false} FilterFilter<T>(s: seq<T>, p: T -> bool, q: T -> bool, pq: T -> bool)
    requires forall x :: pq(x) == (p(x) && q(x))
    ensures Filter(Filter(s, p), q) == Filter(s, pq)
    decreases |s|
  {
    if s != [] {
      FilterFilter(s[1..], p, q, pq);
      if p(s[0]) {
        var f := [s[0]] + Filter(s[1..], p);
        assert Filter(s, p) == f;
        assert f[1..] == Filter(s[1..], p);
      }
    }
  }
}

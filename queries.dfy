/**
 * The query operators the repositories compose: `Where`, `Skip` and `Take`, with the
 * semantics LINQ gives them on an ordered sequence.
 */
module Queries {

  /** `query.Where(p)`: the elements satisfying `p`, in their original order. */
  function Where<T>(s: seq<T>, p: T -> bool): (r: seq<T>)
    ensures |r| <= |s|
    ensures forall x :: x in r ==> x in s && p(x)
    ensures forall x :: x in s && p(x) ==> x in r
    ensures multiset(r) <= multiset(s)
  {
    if s == [] then []
    else
      assert s == [s[0]] + s[1..];
      if p(s[0]) then [s[0]] + Where(s[1..], p) else Where(s[1..], p)
  }

  /** `r` is obtained from `s` by deleting elements, keeping the order of the rest. */
  ghost predicate IsSubsequence<T>(r: seq<T>, s: seq<T>)
  {
    if r == [] then true
    else if s == [] then false
    else (r[0] == s[0] && IsSubsequence(r[1..], s[1..])) || IsSubsequence(r, s[1..])
  }

  /** `Where` only deletes: what it keeps stays in its original order. */
  lemma {:induction false} WhereIsSubsequence<T>(s: seq<T>, p: T -> bool)
    ensures IsSubsequence(Where(s, p), s)
  {
    if s != [] {
      WhereIsSubsequence(s[1..], p);
    }
  }

  /** A chain of two `Where` calls selects the same elements as one `Where` on the conjunction. */
  lemma {:induction false} WhereWhere<T>(s: seq<T>, p: T -> bool, q: T -> bool, pq: T -> bool)
    requires forall x :: pq(x) == (p(x) && q(x))
    ensures Where(Where(s, p), q) == Where(s, pq)
  {
    if s != [] {
      WhereWhere(s[1..], p, q, pq);
    }
  }

  /** `Where` depends only on the values its predicate takes on the elements. */
  lemma {:induction false} WhereExt<T>(s: seq<T>, p: T -> bool, q: T -> bool)
    requires forall x :: x in s ==> p(x) == q(x)
    ensures Where(s, p) == Where(s, q)
  {
    if s != [] {
      WhereExt(s[1..], p, q);
    }
  }

  /** `Where` distributes over concatenation. */
  lemma {:induction false} WhereAppend<T>(s: seq<T>, t: seq<T>, p: T -> bool)
    ensures Where(s + t, p) == Where(s, p) + Where(t, p)
  {
    if s == [] {
      assert s + t == t;
    } else {
      assert (s + t)[1..] == s[1..] + t;
      WhereAppend(s[1..], t, p);
    }
  }

  /** One more element at the end is kept at the end exactly when it satisfies the predicate. */
  lemma WhereSnoc<T>(s: seq<T>, y: T, p: T -> bool)
    ensures Where(s + [y], p) == Where(s, p) + (if p(y) then [y] else [])
  {
    WhereAppend(s, [y], p);
    assert [y][1..] == [];
  }

  /** A predicate false of every element keeps none. */
  lemma {:induction false} WhereNone<T>(s: seq<T>, p: T -> bool)
    requires forall x :: x in s ==> !p(x)
    ensures Where(s, p) == []
  {
    if s != [] {
      WhereNone(s[1..], p);
    }
  }

  /** A predicate true of every element keeps them all. */
  lemma {:induction false} WhereAll<T>(s: seq<T>, p: T -> bool)
    requires forall x :: x in s ==> p(x)
    ensures Where(s, p) == s
  {
    if s != [] {
      WhereAll(s[1..], p);
    }
  }

  /** `if (b) query = query.Where(p);`: an optional filter, applied only when its criterion is set. */
  function WhereIf<T>(b: bool, s: seq<T>, p: T -> bool): (r: seq<T>)
    ensures !b ==> r == s
    ensures b ==> r == Where(s, p)
  {
    if b then Where(s, p) else s
  }

  /**
   * One more optional filter on a filtered query is one filter by the conjunction: the old
   * condition, and the new one when its criterion is set.
   */
  lemma WhereIfWhere<T>(s: seq<T>, p: T -> bool, b: bool, q: T -> bool, pq: T -> bool)
    requires forall x :: pq(x) == (p(x) && (b ==> q(x)))
    ensures WhereIf(b, Where(s, p), q) == Where(s, pq)
  {
    if b {
      WhereWhere(s, p, q, pq);
    } else {
      WhereExt(s, p, pq);
    }
  }

  /** One `if (criterion set) query = query.Where(keep);` step of a query builder. */
  datatype Filter<!T> = Filter(active: bool, keep: T -> bool)

  /** The filters applied one after another, in order, each only when active. */
  function ApplyFilters<T>(s: seq<T>, fs: seq<Filter<T>>): seq<T>
  {
    if fs == [] then s
    else
      var n := |fs| - 1;
      WhereIf(fs[n].active, ApplyFilters(s, fs[..n]), fs[n].keep)
  }

  /** Whether an element passes every active filter. */
  predicate PassesAll<T>(fs: seq<Filter<T>>, x: T)
  {
    forall i :: 0 <= i < |fs| ==> fs[i].active ==> fs[i].keep(x)
  }

  /** Passing a list of filters is passing all but the last, and the last when it is active. */
  lemma PassesAllSnoc<T>(fs: seq<Filter<T>>, x: T)
    requires fs != []
    ensures PassesAll(fs, x) == (PassesAll(fs[..|fs| - 1], x) && (fs[|fs| - 1].active ==> fs[|fs| - 1].keep(x)))
  {
    var n := |fs| - 1;
    if PassesAll(fs[..n], x) && (fs[n].active ==> fs[n].keep(x)) {
      forall i | 0 <= i < |fs| && fs[i].active ensures fs[i].keep(x) {
        if i < n { assert fs[..n][i] == fs[i]; }
      }
    }
    if PassesAll(fs, x) {
      forall i | 0 <= i < n && fs[..n][i].active ensures fs[..n][i].keep(x) {
        assert fs[..n][i] == fs[i];
      }
    }
  }

  /** A chain of optional filters keeps exactly the elements that pass every active one, in order. */
  lemma {:induction false} ApplyFiltersIsWhere<T>(s: seq<T>, fs: seq<Filter<T>>)
    ensures ApplyFilters(s, fs) == Where(s, x => PassesAll(fs, x))
  {
    if fs == [] {
      WhereAll(s, x => PassesAll(fs, x));
    } else {
      var n := |fs| - 1;
      var last := fs[n];
      ApplyFiltersIsWhere(s, fs[..n]);
      forall x ensures PassesAll(fs, x) == (PassesAll(fs[..n], x) && (last.active ==> last.keep(x))) {
        PassesAllSnoc(fs, x);
      }
      WhereIfWhere(s, x => PassesAll(fs[..n], x), last.active, last.keep, x => PassesAll(fs, x));
    }
  }

  /** `query.Skip(n)`: a non-positive count skips nothing, a count past the end leaves nothing. */
  function Skip<T>(s: seq<T>, n: int): (r: seq<T>)
    ensures n <= 0 ==> r == s
    ensures 0 <= n <= |s| ==> r == s[n..]
    ensures n >= |s| ==> r == []
  {
    if n <= 0 then s else if n >= |s| then [] else s[n..]
  }

  /** `query.Take(n)`: the first `n` elements, or all of them when there are fewer. */
  function Take<T>(s: seq<T>, n: int): (r: seq<T>)
    ensures n <= 0 ==> r == []
    ensures 0 <= n <= |s| ==> r == s[..n]
    ensures n >= |s| ==> r == s
  {
    if n <= 0 then [] else if n >= |s| then s else s[..n]
  }
}

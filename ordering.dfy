/**
 * Orderings of query results. An `OrderBy(field)` or `OrderByDescending(field)` call is a
 * STABLE sort on a key drawn from each record: records with equal keys keep the order the
 * query had before the call. A chain of such calls therefore sorts by the LAST call's key
 * first, and earlier calls only break its ties.
 */
module Ordering {
  import opened Wrappers
  import opened Queries

  /**
   * A sort key. A field value is turned into a sequence of integers compared
   * lexicographically: an integer field `n` is `[n]`, a string is its character codes
   * (ordinal comparison), and a composite key such as "flag, then PGEO" is the
   * concatenation of a one-element key with the next one.
   */
  type Key = seq<int>

  /** Lexicographic order on keys; a proper prefix comes first. */
  predicate LexLe(a: Key, b: Key)
  {
    if a == [] then true
    else if b == [] then false
    else a[0] < b[0] || (a[0] == b[0] && LexLe(a[1..], b[1..]))
  }

  lemma {:induction false} LexLeReflexive(a: Key)
    ensures LexLe(a, a)
  {
    if a != [] { LexLeReflexive(a[1..]); }
  }

  lemma {:induction false} LexLeTotal(a: Key, b: Key)
    ensures LexLe(a, b) || LexLe(b, a)
  {
    if a != [] && b != [] { LexLeTotal(a[1..], b[1..]); }
  }

  lemma {:induction false} LexLeTransitive(a: Key, b: Key, c: Key)
    requires LexLe(a, b) && LexLe(b, c)
    ensures LexLe(a, c)
  {
    if a != [] && b != [] && c != [] && a[0] == b[0] == c[0] {
      LexLeTransitive(a[1..], b[1..], c[1..]);
    }
  }

  lemma {:induction false} LexLeAntisymmetric(a: Key, b: Key)
    requires LexLe(a, b) && LexLe(b, a)
    ensures a == b
  {
    if a != [] && b != [] {
      LexLeAntisymmetric(a[1..], b[1..]);
      assert a == [a[0]] + a[1..] && b == [b[0]] + b[1..];
    }
  }

  /** A key that starts with one component: the first component decides unless it ties. */
  lemma LexLeCons(a: int, x: Key, b: int, y: Key)
    ensures LexLe([a] + x, [b] + y) <==> a < b || (a == b && LexLe(x, y))
  {
    assert ([a] + x)[0] == a && ([a] + x)[1..] == x;
    assert ([b] + y)[0] == b && ([b] + y)[1..] == y;
  }

  /** The character codes of a string: ordinal string comparison. */
  function StrKey(s: string): (k: Key)
    ensures |k| == |s| && forall i :: 0 <= i < |s| ==> k[i] == s[i] as int
  {
    seq(|s|, i requires 0 <= i < |s| => s[i] as int)
  }

  /** A nullable string: a null value sorts before every string. */
  function OptStrKey(s: Option<string>): (k: Key)
    ensures s.None? ==> k == [0]
    ensures s.Some? ==> k == [1] + StrKey(s.value)
  {
    match s
    case None => [0]
    case Some(v) => [1] + StrKey(v)
  }

  /** A nullable integer: a null value sorts before every integer. */
  function OptIntKey(n: Option<int>): (k: Key)
    ensures n.None? ==> k == [0]
    ensures n.Some? ==> k == [1, n.value]
  {
    match n
    case None => [0]
    case Some(v) => [1, v]
  }

  /** Strict order of nullable integers, null first. */
  predicate OptIntLess(x: Option<int>, y: Option<int>)
  {
    (x.None? && y.Some?) || (x.Some? && y.Some? && x.value < y.value)
  }

  /**
   * A nullable integer followed by more key: the integer decides (null first) and the rest
   * of the key breaks ties, as `OrderBy(n).ThenBy(...)` does.
   */
  lemma OptIntKeyThen(x: Option<int>, p: Key, y: Option<int>, q: Key)
    ensures LexLe(OptIntKey(x) + p, OptIntKey(y) + q) <==> OptIntLess(x, y) || (x == y && LexLe(p, q))
  {
    if x.None? && y.None? {
      LexLeCons(0, p, 0, q);
    } else if x.None? {
      LexLeCons(0, p, 1, [y.value] + q);
      assert OptIntKey(y) + q == [1] + ([y.value] + q);
    } else if y.None? {
      LexLeCons(1, [x.value] + p, 0, q);
      assert OptIntKey(x) + p == [1] + ([x.value] + p);
    } else {
      assert OptIntKey(x) + p == [1] + ([x.value] + p);
      assert OptIntKey(y) + q == [1] + ([y.value] + q);
      LexLeCons(1, [x.value] + p, 1, [y.value] + q);
      LexLeCons(x.value, p, y.value, q);
    }
  }

  /** The `SortType` of a search criteria. */
  datatype SortType = Asc | Desc

  /** One `OrderBy` (ascending) or `OrderByDescending` (descending) call: a key and a direction. */
  datatype Ordering<!T> = Ordering(key: T -> Key, dir: SortType)

  /** `a` may come before `b` under ordering `o` (ties allowed). */
  predicate Before<T>(o: Ordering<T>, a: T, b: T)
  {
    if o.dir == Asc then LexLe(o.key(a), o.key(b)) else LexLe(o.key(b), o.key(a))
  }

  lemma BeforeReflexive<T>(o: Ordering<T>, a: T)
    ensures Before(o, a, a)
  {
    LexLeReflexive(o.key(a));
  }

  lemma BeforeTotal<T>(o: Ordering<T>, a: T, b: T)
    ensures Before(o, a, b) || Before(o, b, a)
  {
    LexLeTotal(o.key(a), o.key(b));
  }

  lemma BeforeTransitive<T>(o: Ordering<T>, a: T, b: T, c: T)
    requires Before(o, a, b) && Before(o, b, c)
    ensures Before(o, a, c)
  {
    if o.dir == Asc {
      LexLeTransitive(o.key(a), o.key(b), o.key(c));
    } else {
      LexLeTransitive(o.key(c), o.key(b), o.key(a));
    }
  }

  /**
   * `a` may come before `b` under a priority list of orderings: the first ordering decides
   * unless the two keys are equal, in which case the rest of the list decides.
   */
  predicate Precedes<T>(os: seq<Ordering<T>>, a: T, b: T)
    decreases |os|
  {
    if os == [] then true
    else if os[0].key(a) == os[0].key(b) then Precedes(os[1..], a, b)
    else Before(os[0], a, b)
  }

  /** `s` is sorted by the priority list `os`. */
  predicate SortedBy<T>(s: seq<T>, os: seq<Ordering<T>>)
  {
    forall i, j :: 0 <= i < j < |s| ==> Precedes(os, s[i], s[j])
  }

  /** Sorted by a single ordering is the usual pairwise order. */
  lemma SortedBySingle<T>(s: seq<T>, o: Ordering<T>)
    ensures SortedBy(s, [o]) <==> forall i, j :: 0 <= i < j < |s| ==> Before(o, s[i], s[j])
  {
    forall a, b ensures Precedes([o], a, b) == Before(o, a, b) {
      assert [o][1..] == [];
      if o.key(a) == o.key(b) { LexLeReflexive(o.key(a)); }
    }
  }

  /** Where a stable insertion puts `x`: after every element of `r` that may precede it. */
  function InsertIndex<T>(r: seq<T>, x: T, o: Ordering<T>): (k: nat)
    ensures k <= |r|
  {
    if r == [] then 0
    else if !Before(o, r[0], x) then 0
    else 1 + InsertIndex(r[1..], x, o)
  }

  /** Inserts `x` into `r`, after every element that does not strictly follow it. */
  function Insert<T>(r: seq<T>, x: T, o: Ordering<T>): (t: seq<T>)
    ensures |t| == |r| + 1
    ensures multiset(t) == multiset(r) + multiset{x}
  {
    var k := InsertIndex(r, x, o);
    assert r == r[..k] + r[k..];
    r[..k] + [x] + r[k..]
  }

  lemma {:induction false} InsertIndexBefore<T>(r: seq<T>, x: T, o: Ordering<T>)
    ensures forall i :: 0 <= i < InsertIndex(r, x, o) ==> Before(o, r[i], x)
  {
    if r != [] && Before(o, r[0], x) {
      InsertIndexBefore(r[1..], x, o);
    }
  }

  lemma {:induction false} InsertIndexAfter<T>(r: seq<T>, x: T, o: Ordering<T>)
    requires SortedBy(r, [o])
    ensures forall i :: InsertIndex(r, x, o) <= i < |r| ==> !Before(o, r[i], x)
  {
    SortedBySingle(r, o);
    if r == [] {
    } else if !Before(o, r[0], x) {
      forall i | 0 <= i < |r| ensures !Before(o, r[i], x) {
        if i > 0 && Before(o, r[i], x) {
          BeforeTransitive(o, r[0], r[i], x);
        }
      }
    } else {
      SortedBySingle(r[1..], o);
      InsertIndexAfter(r[1..], x, o);
    }
  }

  /**
   * Inserting a record that every element of `r` may precede under the lower-priority
   * orderings `os` keeps `r` sorted under `[o] + os`.
   */
  lemma {:induction false} InsertSorted<T>(r: seq<T>, x: T, o: Ordering<T>, os: seq<Ordering<T>>)
    requires SortedBy(r, [o] + os)
    requires forall y :: y in r ==> Precedes(os, y, x)
    ensures SortedBy(Insert(r, x, o), [o] + os)
  {
    var k := InsertIndex(r, x, o);
    var t := Insert(r, x, o);
    var ops := [o] + os;
    assert ops[0] == o && ops[1..] == os;
    assert SortedBy(r, [o]) by {
      SortedBySingle(r, o);
      forall i, j | 0 <= i < j < |r| ensures Before(o, r[i], r[j]) {
        assert Precedes(ops, r[i], r[j]);
        if o.key(r[i]) == o.key(r[j]) { BeforeReflexive(o, r[i]); }
      }
    }
    InsertIndexBefore(r, x, o);
    InsertIndexAfter(r, x, o);
    forall i, j | 0 <= i < j < |t| ensures Precedes(ops, t[i], t[j]) {
      if j < k {
        assert t[i] == r[i] && t[j] == r[j];
      } else if j == k {
        assert t[i] == r[i] && t[j] == x;
        assert r[i] in r;
      } else if i < k {
        assert t[i] == r[i] && t[j] == r[j - 1];
      } else if i == k {
        assert t[i] == x && t[j] == r[j - 1];
        assert !Before(o, r[j - 1], x);
        BeforeTotal(o, r[j - 1], x);
        if o.key(x) == o.key(r[j - 1]) { BeforeReflexive(o, x); }
      } else {
        assert t[i] == r[i - 1] && t[j] == r[j - 1];
      }
    }
  }

  /**
   * `OrderBy` / `OrderByDescending`: a stable sort of `s` by ordering `o`. It returns a
   * permutation of `s` sorted by `o`.
   */
  function SortBy<T>(s: seq<T>, o: Ordering<T>): (r: seq<T>)
    ensures |r| == |s| && multiset(r) == multiset(s)
    ensures SortedBy(r, [o])
  {
    if s == [] then []
    else
      var init := s[..|s| - 1];
      assert s == init + [s[|s| - 1]];
      var r := SortBy(init, o);
      assert [o] + [] == [o];
      InsertSorted(r, s[|s| - 1], o, []);
      Insert(r, s[|s| - 1], o)
  }

  /**
   * Stability: sorting a sequence already sorted by `os` by a new ordering `o` leaves it
   * sorted by `o` first and, among records with equal `o`-keys, still by `os`.
   */
  lemma {:induction false} SortByStable<T>(s: seq<T>, o: Ordering<T>, os: seq<Ordering<T>>)
    requires SortedBy(s, os)
    ensures SortedBy(SortBy(s, o), [o] + os)
  {
    if s != [] {
      var n := |s| - 1;
      var init := s[..n];
      assert SortedBy(init, os);
      SortByStable(init, o, os);
      var r := SortBy(init, o);
      forall y | y in r ensures Precedes(os, y, s[n]) {
        assert y in multiset(r);
        assert y in init;
        var j :| 0 <= j < n && init[j] == y;
      }
      InsertSorted(r, s[n], o, os);
    }
  }

  /** After a stable insertion point, no record shares the inserted record's tie class. */
  lemma InsertIndexPastTies<T>(r: seq<T>, x: T, o: Ordering<T>, p: T -> bool)
    requires SortedBy(r, [o])
    requires forall a, b :: p(a) && p(b) ==> o.key(a) == o.key(b)
    requires p(x)
    ensures forall y :: y in r[InsertIndex(r, x, o)..] ==> !p(y)
  {
    var k := InsertIndex(r, x, o);
    InsertIndexAfter(r, x, o);
    BeforeReflexive(o, x);
    forall y | y in r[k..] ensures !p(y) {
      var j :| 0 <= j < |r[k..]| && r[k..][j] == y;
      assert y == r[k + j] && !Before(o, y, x);
    }
  }

  /**
   * Inserting `x` into a sorted sequence puts it after every record with its key: the
   * records of one tie class (`p` holds only of records with one common key) keep their
   * order, with `x` last among them.
   */
  lemma InsertTies<T>(r: seq<T>, x: T, o: Ordering<T>, p: T -> bool)
    requires SortedBy(r, [o])
    requires forall a, b :: p(a) && p(b) ==> o.key(a) == o.key(b)
    ensures Where(Insert(r, x, o), p) == Where(r, p) + (if p(x) then [x] else [])
  {
    var k := InsertIndex(r, x, o);
    var lo, hi := r[..k], r[k..];
    assert r == lo + hi;
    assert Insert(r, x, o) == (lo + [x]) + hi;
    WhereAppend(lo + [x], hi, p);
    WhereSnoc(lo, x, p);
    WhereAppend(lo, hi, p);
    if p(x) {
      InsertIndexPastTies(r, x, o, p);
      WhereNone(hi, p);
    }
  }

  /**
   * Stability on one tie class: the records sharing a key come out of `OrderBy` in the
   * order they went in.
   */
  lemma {:induction false} SortByTies<T>(s: seq<T>, o: Ordering<T>, p: T -> bool)
    requires forall a, b :: p(a) && p(b) ==> o.key(a) == o.key(b)
    ensures Where(SortBy(s, o), p) == Where(s, p)
  {
    if s != [] {
      var n := |s| - 1;
      var init := s[..n];
      assert s == init + [s[n]];
      SortByTies(init, o, p);
      InsertTies(SortBy(init, o), s[n], o, p);
      WhereSnoc(init, s[n], p);
    }
  }

  /** A contiguous slice of a sorted sequence is sorted. */
  lemma SortedSlice<T>(s: seq<T>, os: seq<Ordering<T>>, lo: int, hi: int)
    requires SortedBy(s, os) && 0 <= lo <= hi <= |s|
    ensures SortedBy(s[lo..hi], os)
  {
    forall i, j | 0 <= i < j < hi - lo ensures Precedes(os, s[lo..hi][i], s[lo..hi][j]) {
      assert s[lo..hi][i] == s[lo + i] && s[lo..hi][j] == s[lo + j];
    }
  }
}

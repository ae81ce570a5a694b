/** The few relational-store operations the controllers rely on, as functions over
    tables held as sequences of rows: a WHERE filter, COUNT(*), an ORDER BY on one
    key and TOP(n). Every other module states its SQL in these terms. */
module Relational {

  datatype Option<T> = None | Some(value: T)

  /** SELECT * FROM s WHERE p, keeping the table's row order. */
  function Filter<T>(s: seq<T>, p: T -> bool): seq<T>
  {
    if s == [] then [] else (if p(s[0]) then [s[0]] else []) + Filter(s[1..], p)
  }

  /** SELECT COUNT(*) FROM s WHERE p */
  function Count<T>(s: seq<T>, p: T -> bool): nat
  {
    |Filter(s, p)|
  }

  /** No two rows of `s` share a key (a primary or unique key of the table). */
  predicate DistinctBy<T, K(==)>(s: seq<T>, key: T -> K)
  {
    forall i, j | 0 <= i < j < |s| :: key(s[i]) != key(s[j])
  }

  /** `s` is in ascending order of `key`. */
  predicate SortedBy<T>(s: seq<T>, key: T -> real)
  {
    forall i, j | 0 <= i < j < |s| :: key(s[i]) <= key(s[j])
  }

  function Insert<T>(x: T, s: seq<T>, key: T -> real): seq<T>
  {
    if s == [] || key(x) <= key(s[0]) then [x] + s else [s[0]] + Insert(x, s[1..], key)
  }

  /** ORDER BY key ASC. SQL leaves the order of equal keys open; this picks one. */
  function SortBy<T>(s: seq<T>, key: T -> real): seq<T>
  {
    if s == [] then [] else Insert(s[0], SortBy(s[1..], key), key)
  }

  /** TOP (n): the first n rows, or all of them when there are fewer. */
  function Take<T>(s: seq<T>, n: int): (r: seq<T>)
    ensures |r| == if n <= 0 then 0 else if n < |s| then n else |s|
    ensures forall i | 0 <= i < |r| :: r[i] == s[i]
  {
    if n <= 0 then [] else if n < |s| then s[..n] else s
  }

  /** The position of the first row satisfying p (the row a keyed SELECT returns). */
  function FirstIndex<T>(s: seq<T>, p: T -> bool): (r: Option<nat>)
    ensures r.Some? ==> r.value < |s| && p(s[r.value])
  {
    if s == [] then None
    else if p(s[0]) then Some(0)
    else match FirstIndex(s[1..], p)
      case None => None
      case Some(i) => Some(i + 1)
  }

  /** FirstIndex finds the first row satisfying p, and finds nothing exactly when no row
      does. */
  lemma {:induction false} FirstIndexSpec<T>(s: seq<T>, p: T -> bool)
    ensures FirstIndex(s, p).Some? ==> forall i | 0 <= i < FirstIndex(s, p).value :: !p(s[i])
    ensures FirstIndex(s, p).None? <==> forall i | 0 <= i < |s| :: !p(s[i])
  {
    if s != [] && !p(s[0]) {
      FirstIndexSpec(s[1..], p);
      assert forall i | 1 <= i < |s| :: s[i] == s[1..][i - 1];
    }
  }

  /** Tables that agree row by row on p have their first p-row at the same place. */
  lemma {:induction false} FirstIndexPointwise<T>(a: seq<T>, b: seq<T>, p: T -> bool)
    requires |a| == |b|
    requires forall i | 0 <= i < |a| :: p(a[i]) == p(b[i])
    ensures FirstIndex(a, p) == FirstIndex(b, p)
  {
    if a != [] {
      FirstIndexPointwise(a[1..], b[1..], p);
    }
  }

  /** Rows that agree on p and are unchanged wherever p holds give the same WHERE result. */
  lemma {:induction false} FilterPointwise<T>(a: seq<T>, b: seq<T>, p: T -> bool)
    requires |a| == |b|
    requires forall i | 0 <= i < |a| :: p(a[i]) == p(b[i])
    requires forall i | 0 <= i < |a| && p(a[i]) :: a[i] == b[i]
    ensures Filter(a, p) == Filter(b, p)
  {
    if a != [] {
      FilterPointwise(a[1..], b[1..], p);
    }
  }

  lemma {:induction false} FilterMembers<T>(s: seq<T>, p: T -> bool)
    ensures forall x | x in Filter(s, p) :: x in s && p(x)
    ensures forall x | x in s && p(x) :: x in Filter(s, p)
  {
    if s != [] {
      FilterMembers(s[1..], p);
      assert s == [s[0]] + s[1..];
    }
  }

  lemma {:induction false} FilterAll<T>(s: seq<T>, p: T -> bool)
    requires forall x | x in s :: p(x)
    ensures Filter(s, p) == s
  {
    if s != [] {
      FilterAll(s[1..], p);
      assert s == [s[0]] + s[1..];
    }
  }

  lemma {:induction false} FilterNone<T>(s: seq<T>, p: T -> bool)
    requires forall x | x in s :: !p(x)
    ensures Filter(s, p) == []
  {
    if s != [] {
      FilterNone(s[1..], p);
    }
  }

  lemma {:induction false} FilterAppend<T>(a: seq<T>, b: seq<T>, p: T -> bool)
    ensures Filter(a + b, p) == Filter(a, p) + Filter(b, p)
  {
    if a == [] {
      assert a + b == b;
    } else {
      assert (a + b)[0] == a[0] && (a + b)[1..] == a[1..] + b;
      FilterAppend(a[1..], b, p);
      AppendAssoc(if p(a[0]) then [a[0]] else [], Filter(a[1..], p), Filter(b, p));
    }
  }

  /** A WHERE over a non-empty table: the first row's part, then the rest's. */
  lemma FilterCons<T>(s: seq<T>, p: T -> bool)
    requires s != []
    ensures Filter(s, p) == Filter([s[0]], p) + Filter(s[1..], p)
  {
    assert [s[0]][1..] == [];
    assert Filter([s[0]], p) == if p(s[0]) then [s[0]] else [];
  }

  /** Splitting a table around row i splits any WHERE result the same way. */
  lemma FilterAround<T>(s: seq<T>, i: int, p: T -> bool)
    requires 0 <= i < |s|
    ensures Filter(s, p) == Filter(s[..i], p) + Filter([s[i]], p) + Filter(s[i+1..], p)
  {
    var a, b := s[..i], s[i..];
    assert s == a + b;
    FilterAppend(a, b, p);
    FilterCons(b, p);
    assert b[0] == s[i] && b[1..] == s[i+1..];
    AppendAssoc(Filter(a, p), Filter([s[i]], p), Filter(s[i+1..], p));
  }

  lemma AppendAssoc<T>(a: seq<T>, b: seq<T>, c: seq<T>)
    ensures a + (b + c) == a + b + c
  {
  }

  lemma CountSingle<T>(x: T, p: T -> bool)
    ensures Count([x], p) == if p(x) then 1 else 0
  {
    assert [x][1..] == [];
    assert Filter([x], p) == (if p(x) then [x] else []) + Filter([x][1..], p);
  }

  /** Rewriting one row changes a COUNT by at most the difference that row makes. */
  lemma CountUpdate<T>(s: seq<T>, i: int, x: T, p: T -> bool)
    requires 0 <= i < |s|
    ensures Count(s[i := x], p) == Count(s, p) - (if p(s[i]) then 1 else 0) + (if p(x) then 1 else 0)
  {
    var t := s[i := x];
    FilterAround(s, i, p);
    FilterAround(t, i, p);
    assert t[..i] == s[..i] && t[i+1..] == s[i+1..];
    CountSingle(s[i], p);
    CountSingle(x, p);
  }

  lemma CountAppend<T>(s: seq<T>, x: T, p: T -> bool)
    ensures Count(s + [x], p) == Count(s, p) + (if p(x) then 1 else 0)
  {
    FilterAppend(s, [x], p);
    CountSingle(x, p);
  }

  /** When every row of `b` that satisfies p sits where `a` has a row satisfying p or q,
      b counts at most what a counts for p and for q together. */
  lemma {:induction false} CountCovered<T>(a: seq<T>, b: seq<T>, p: T -> bool, q: T -> bool)
    requires |a| == |b|
    requires forall i | 0 <= i < |b| && p(b[i]) :: p(a[i]) || q(a[i])
    ensures Count(b, p) <= Count(a, p) + Count(a, q)
  {
    if a != [] {
      CountCovered(a[1..], b[1..], p, q);
    }
  }

  lemma SubsetSize<T>(a: set<T>, b: set<T>)
    requires a <= b
    ensures |a| <= |b|
  {
    if a != {} {
      var x :| x in a;
      SubsetSize(a - {x}, b - {x});
    }
  }

  lemma DistinctTail<T, K>(s: seq<T>, key: T -> K)
    requires DistinctBy(s, key) && s != []
    ensures DistinctBy(s[1..], key)
  {
    var t := s[1..];
    forall i, j | 0 <= i < j < |t| ensures key(t[i]) != key(t[j]) {
      assert t[i] == s[i + 1] && t[j] == s[j + 1];
    }
  }

  /** A WHERE filter never breaks a unique key. */
  lemma {:induction false} FilterDistinct<T, K>(s: seq<T>, p: T -> bool, key: T -> K)
    requires DistinctBy(s, key)
    ensures DistinctBy(Filter(s, p), key)
  {
    if s != [] {
      var t := Filter(s[1..], p);
      FilterDistinct(s[1..], p, key);
      FilterMembers(s[1..], p);
      if p(s[0]) {
        var r := [s[0]] + t;
        forall i, j | 0 <= i < j < |r| ensures key(r[i]) != key(r[j]) {
          if i == 0 {
            var y := t[j-1];
            assert r[j] == y && y in t;
            assert y in s[1..];
            var k :| 0 <= k < |s[1..]| && s[1..][k] == y;
            assert s[k+1] == y;
          } else {
            assert r[i] == t[i-1] && r[j] == t[j-1];
          }
        }
      }
    }
  }

  /** Appending a row whose key is new keeps the key unique. */
  lemma AppendDistinct<T, K>(s: seq<T>, x: T, key: T -> K)
    requires DistinctBy(s, key)
    requires forall y | y in s :: key(y) != key(x)
    ensures DistinctBy(s + [x], key)
  {
    var r := s + [x];
    forall i, j | 0 <= i < j < |r| ensures key(r[i]) != key(r[j]) {
      if j == |s| {
        assert r[i] == s[i] && s[i] in s;
      } else {
        assert r[i] == s[i] && r[j] == s[j];
      }
    }
  }

  lemma {:induction false} InsertPermutation<T>(x: T, s: seq<T>, key: T -> real)
    ensures multiset(Insert(x, s, key)) == multiset{x} + multiset(s)
  {
    if s != [] && key(x) > key(s[0]) {
      InsertPermutation(x, s[1..], key);
      assert s == [s[0]] + s[1..];
    }
  }

  lemma {:induction false} InsertBounded<T>(x: T, s: seq<T>, key: T -> real, lo: real)
    requires lo <= key(x)
    requires forall i | 0 <= i < |s| :: lo <= key(s[i])
    ensures forall i | 0 <= i < |Insert(x, s, key)| :: lo <= key(Insert(x, s, key)[i])
  {
    if s != [] && key(x) > key(s[0]) {
      InsertBounded(x, s[1..], key, lo);
    }
  }

  lemma {:induction false} InsertSorted<T>(x: T, s: seq<T>, key: T -> real)
    requires SortedBy(s, key)
    ensures SortedBy(Insert(x, s, key), key)
  {
    if s != [] && key(x) > key(s[0]) {
      var t := Insert(x, s[1..], key);
      InsertSorted(x, s[1..], key);
      InsertBounded(x, s[1..], key, key(s[0]));
      var r := [s[0]] + t;
      forall i, j | 0 <= i < j < |r| ensures key(r[i]) <= key(r[j]) {
        assert r[j] == t[j-1];
        if i > 0 {
          assert r[i] == t[i-1];
        }
      }
    }
  }

  /** ORDER BY returns the same rows ... */
  lemma {:induction false} SortByPermutation<T>(s: seq<T>, key: T -> real)
    ensures multiset(SortBy(s, key)) == multiset(s)
    ensures |SortBy(s, key)| == |s|
  {
    if s != [] {
      SortByPermutation(s[1..], key);
      InsertPermutation(s[0], SortBy(s[1..], key), key);
      assert s == [s[0]] + s[1..];
    }
  }

  /** ... in ascending order of the key. */
  lemma {:induction false} SortBySorted<T>(s: seq<T>, key: T -> real)
    ensures SortedBy(SortBy(s, key), key)
  {
    if s != [] {
      SortBySorted(s[1..], key);
      InsertSorted(s[0], SortBy(s[1..], key), key);
    }
  }

  /** TOP(n) of an ordered query: every row taken precedes, in key order, every row
      of the query that was left out. */
  lemma TopPrecedesRest<T>(s: seq<T>, key: T -> real, n: int, taken: T, left: T)
    requires taken in Take(SortBy(s, key), n)
    requires left in s && left !in Take(SortBy(s, key), n)
    ensures key(taken) <= key(left)
  {
    var r := SortBy(s, key);
    SortByPermutation(s, key);
    SortBySorted(s, key);
    var t := Take(r, n);
    assert left in multiset(r);
    var j :| 0 <= j < |r| && r[j] == left;
    var i :| 0 <= i < |t| && t[i] == taken;
    assert r[i] == taken;
    assert j >= |t|;
  }

  /** MIN over a column, NULL (None) for no rows. */
  function MinOf(xs: seq<int>): (r: Option<int>)
    ensures r.None? <==> xs == []
    ensures r.Some? ==> r.value in xs && forall x | x in xs :: r.value <= x
  {
    if xs == [] then None
    else
      assert forall x | x in xs :: x == xs[0] || x in xs[1..];
      match MinOf(xs[1..])
      case None => Some(xs[0])
      case Some(m) => Some(if xs[0] <= m then xs[0] else m)
  }

  /** A COUNT never exceeds the size of the table. */
  lemma {:induction false} CountBound<T>(s: seq<T>, p: T -> bool)
    ensures Count(s, p) <= |s|
  {
    if s != [] {
      CountBound(s[1..], p);
    }
  }

  /** COUNT is positive exactly when some row satisfies the condition. */
  lemma CountPositive<T>(s: seq<T>, p: T -> bool)
    ensures Count(s, p) > 0 <==> exists i | 0 <= i < |s| :: p(s[i])
  {
    FilterMembers(s, p);
    if Count(s, p) > 0 {
      var x := Filter(s, p)[0];
      assert x in Filter(s, p);
      var i :| 0 <= i < |s| && s[i] == x;
    }
  }

  /** A looser condition counts at least the rows a stricter one counts. */
  lemma {:induction false} CountMonotone<T>(s: seq<T>, p: T -> bool, q: T -> bool)
    requires forall i | 0 <= i < |s| && p(s[i]) :: q(s[i])
    ensures Count(s, p) <= Count(s, q)
  {
    if s != [] {
      assert forall i | 0 <= i < |s[1..]| :: s[1..][i] == s[i + 1];
      CountMonotone(s[1..], p, q);
    }
  }

  /** Two different rows satisfying p make COUNT at least 2. */
  lemma CountTwo<T>(s: seq<T>, p: T -> bool, i: int, j: int)
    requires 0 <= i < j < |s| && p(s[i]) && p(s[j])
    ensures Count(s, p) >= 2
  {
    assert s == s[..j] + s[j..];
    FilterAppend(s[..j], s[j..], p);
    assert s[..j][i] == s[i] && s[j..][0] == s[j];
    CountPositive(s[..j], p);
    CountPositive(s[j..], p);
  }

  /** When row i is the only row satisfying p, COUNT is 1. */
  lemma CountOnly<T>(s: seq<T>, p: T -> bool, i: int)
    requires 0 <= i < |s| && p(s[i])
    requires forall k | 0 <= k < |s| && p(s[k]) :: k == i
    ensures Count(s, p) == 1
  {
    FilterAround(s, i, p);
    forall x | x in s[..i] ensures !p(x) {
      var k :| 0 <= k < i && s[..i][k] == x;
      assert s[k] == x;
    }
    forall x | x in s[i+1..] ensures !p(x) {
      var k :| 0 <= k < |s| - i - 1 && s[i+1..][k] == x;
      assert s[i + 1 + k] == x;
    }
    FilterNone(s[..i], p);
    FilterNone(s[i+1..], p);
    CountSingle(s[i], p);
  }

  /** When no two rows satisfy p, COUNT is at most 1. */
  lemma {:induction false} CountAtMostOne<T>(s: seq<T>, p: T -> bool)
    requires forall i, j | 0 <= i < j < |s| && p(s[i]) :: !p(s[j])
    ensures Count(s, p) <= 1
  {
    if s != [] {
      var t := s[1..];
      assert forall i | 0 <= i < |t| :: t[i] == s[i + 1];
      if p(s[0]) {
        forall x | x in t ensures !p(x) {
          var k :| 0 <= k < |t| && t[k] == x;
        }
        FilterNone(t, p);
      } else {
        CountAtMostOne(t, p);
      }
    }
  }

  /** Rows split between a condition and its negation. */
  lemma {:induction false} CountSplit<T>(s: seq<T>, p: T -> bool, q: T -> bool)
    requires forall x | x in s :: q(x) == !p(x)
    ensures Count(s, p) + Count(s, q) == |s|
  {
    if s != [] {
      assert forall x | x in s[1..] :: x in s;
      CountSplit(s[1..], p, q);
    }
  }

  /** Running the same WHERE filter twice filters once. */
  lemma FilterTwice<T>(s: seq<T>, p: T -> bool)
    ensures Filter(Filter(s, p), p) == Filter(s, p)
  {
    FilterMembers(s, p);
    FilterAll(Filter(s, p), p);
  }

  /** Narrowing by q a table already filtered by a looser p is filtering by q. */
  lemma {:induction false} FilterNarrow<T>(s: seq<T>, p: T -> bool, q: T -> bool)
    requires forall x | x in s && q(x) :: p(x)
    ensures Filter(Filter(s, p), q) == Filter(s, q)
  {
    if s != [] {
      assert forall x | x in s[1..] :: x in s;
      FilterNarrow(s[1..], p, q);
      var h := if p(s[0]) then [s[0]] else [];
      FilterAppend(h, Filter(s[1..], p), q);
      FilterCons(s, q);
      if p(s[0]) {
        assert Filter(h, q) == Filter([s[0]], q);
      } else {
        assert !q(s[0]);
        assert Filter([s[0]], q) == [];
      }
    }
  }

  lemma {:induction false} CountInsert<T>(x: T, s: seq<T>, key: T -> real, p: T -> bool)
    ensures Count(Insert(x, s, key), p) == Count(s, p) + (if p(x) then 1 else 0)
  {
    if s == [] || key(x) <= key(s[0]) {
      FilterAppend([x], s, p);
      CountSingle(x, p);
    } else {
      CountInsert(x, s[1..], key, p);
      FilterAppend([s[0]], Insert(x, s[1..], key), p);
      FilterCons(s, p);
    }
  }

  /** ORDER BY does not change any COUNT. */
  lemma {:induction false} CountSortBy<T>(s: seq<T>, key: T -> real, p: T -> bool)
    ensures Count(SortBy(s, key), p) == Count(s, p)
  {
    if s != [] {
      CountSortBy(s[1..], key, p);
      CountInsert(s[0], SortBy(s[1..], key), key, p);
      FilterCons(s, p);
      CountSingle(s[0], p);
    }
  }

  /** Rows satisfying p, each satisfying q or r, are no more than those of q and r together. */
  lemma {:induction false} CountUnion<T>(s: seq<T>, p: T -> bool, q: T -> bool, r: T -> bool)
    requires forall x | x in s && p(x) :: q(x) || r(x)
    ensures Count(s, p) <= Count(s, q) + Count(s, r)
  {
    if s != [] {
      assert forall x | x in s[1..] :: x in s;
      CountUnion(s[1..], p, q, r);
    }
  }
}

/** Filtering and ordering of query results. A derived query of the
    repositories selects the rows that satisfy its criteria and orders them
    by one column; `Select` is that, over the rows of a table given as a
    sequence. Rows with equal sort keys keep their table order, which is one
    of the orders the database may return. */
module Sorting {

  import opened Common

  /** The elements of `s` that satisfy `p`, in their order in `s`. */
  function Filter<T(!new)>(s: seq<T>, p: T -> bool): (r: seq<T>)
    ensures |r| <= |s|
  {
    if s == [] then []
    else (if p(s[0]) then [s[0]] else []) + Filter(s[1..], p)
  }

  /** Filtering keeps each element that satisfies the condition as often as
      the input holds it, and drops every other. */
  lemma {:induction false} FilterCounts<T(!new)>(s: seq<T>, p: T -> bool)
    ensures forall x :: multiset(Filter(s, p))[x] == if p(x) then multiset(s)[x] else 0
    ensures forall x :: x in Filter(s, p) <==> x in s && p(x)
  {
    if s != [] {
      FilterCounts(s[1..], p);
      assert s == [s[0]] + s[1..];
    }
    forall x ensures x in Filter(s, p) <==> x in multiset(Filter(s, p)) {
    }
  }

  /** Concatenation is associative; stated on its own so that proofs about
      filtered sequences need not rediscover it. */
  lemma ConcatAssociative<T>(a: seq<T>, b: seq<T>, c: seq<T>)
    ensures a + (b + c) == (a + b) + c
  {
  }

  /** Filtering one more element at the end of the input. */
  lemma {:induction false} FilterSnoc<T(!new)>(s: seq<T>, x: T, p: T -> bool)
    ensures Filter(s + [x], p) == Filter(s, p) + (if p(x) then [x] else [])
  {
    var t := s + [x];
    var tail := if p(x) then [x] else [];
    if s == [] {
      assert t == [x] && t[1..] == [];
      assert Filter(t, p) == tail + Filter([], p);
    } else {
      var head := if p(s[0]) then [s[0]] else [];
      var rest := Filter(s[1..], p);
      assert t[0] == s[0] && t[1..] == s[1..] + [x];
      assert Filter(t, p) == head + Filter(s[1..] + [x], p);
      FilterSnoc(s[1..], x, p);
      assert Filter(s, p) == head + rest;
      ConcatAssociative(head, rest, tail);
    }
  }

  /** Filtering by a condition that implies the first one: the first filter
      removes nothing the second would keep. */
  lemma {:induction false} FilterOfFilter<T(!new)>(s: seq<T>, p: T -> bool, q: T -> bool)
    requires forall x :: q(x) ==> p(x)
    ensures Filter(Filter(s, p), q) == Filter(s, q)
  {
    if s != [] {
      var rest := Filter(s[1..], p);
      var kept := if q(s[0]) then [s[0]] else [];
      FilterOfFilter(s[1..], p, q);
      assert Filter(rest, q) == Filter(s[1..], q);
      assert Filter(s, q) == kept + Filter(s[1..], q);
      if p(s[0]) {
        var f := [s[0]] + rest;
        assert Filter(s, p) == f;
        assert f != [] && f[0] == s[0] && f[1..] == rest;
        assert Filter(f, q) == kept + Filter(rest, q);
      } else {
        assert Filter(s, p) == rest;
        assert kept == [];
      }
    }
  }

  /** Filters by conditions that agree everywhere give the same result. */
  lemma {:induction false} FilterEquivalent<T(!new)>(s: seq<T>, p: T -> bool, q: T -> bool)
    requires forall x :: p(x) == q(x)
    ensures Filter(s, p) == Filter(s, q)
  {
    if s != [] {
      FilterEquivalent(s[1..], p, q);
    }
  }

  /** Of two selections from the same rows, the one with the stricter
      condition holds no row more often than the other. */
  lemma SelectionIncluded<T>(rows: seq<T>, r: seq<T>, p: T -> bool, r': seq<T>, q: T -> bool)
    requires forall x :: multiset(r)[x] == if p(x) then multiset(rows)[x] else 0
    requires forall x :: multiset(r')[x] == if q(x) then multiset(rows)[x] else 0
    requires forall x | x in rows :: p(x) ==> q(x)
    ensures multiset(r) <= multiset(r')
  {
    forall x ensures multiset(r)[x] <= multiset(r')[x] {
      if x !in rows {
        assert multiset(rows)[x] == 0;
      }
    }
  }

  /** `s` is ordered by `key`, greatest first. */
  ghost predicate SortedDesc<T>(s: seq<T>, key: T -> int) {
    forall i, j | 0 <= i < j < |s| :: key(s[i]) >= key(s[j])
  }

  /** Putting an element in front of an ordered sequence keeps it ordered
      when its key is at least that of the current first element. */
  lemma SortedCons<T>(y: T, s: seq<T>, key: T -> int)
    requires SortedDesc(s, key)
    requires s != [] ==> key(y) >= key(s[0])
    ensures SortedDesc([y] + s, key)
  {
    var r := [y] + s;
    forall i, j | 0 <= i < j < |r| ensures key(r[i]) >= key(r[j]) {
      if i == 0 && j > 1 {
        assert key(s[0]) >= key(s[j - 1]);
      }
    }
  }

  /** Inserts `x` into a sequence ordered greatest first, in front of the
      elements whose key equals its own. */
  function Insert<T>(x: T, s: seq<T>, key: T -> int): (r: seq<T>)
    requires SortedDesc(s, key)
    ensures SortedDesc(r, key)
    ensures multiset(r) == multiset(s) + multiset{x}
    ensures |r| == |s| + 1
    ensures r[0] == x || (s != [] && r[0] == s[0])
  {
    if s == [] || key(x) >= key(s[0]) then
      SortedCons(x, s, key);
      [x] + s
    else
      var rest := Insert(x, s[1..], key);
      assert s == [s[0]] + s[1..];
      SortedCons(s[0], rest, key);
      [s[0]] + rest
  }

  /** Insertion sort by `key`, greatest first; stable. */
  function SortDesc<T>(s: seq<T>, key: T -> int): (r: seq<T>)
    ensures SortedDesc(r, key)
    ensures multiset(r) == multiset(s)
    ensures |r| == |s|
  {
    if s == [] then []
    else
      assert s == [s[0]] + s[1..];
      Insert(s[0], SortDesc(s[1..], key), key)
  }

  /** A derived query: the rows satisfying `p`, ordered by `key`, greatest
      first. */
  function Select<T(!new)>(rows: seq<T>, p: T -> bool, key: T -> int): seq<T> {
    SortDesc(Filter(rows, p), key)
  }

  /** What a derived query returns: exactly the qualifying rows, each as often
      as the table holds it, in key order. */
  lemma SelectExact<T(!new)>(rows: seq<T>, p: T -> bool, key: T -> int)
    ensures SortedDesc(Select(rows, p, key), key)
    ensures forall x :: multiset(Select(rows, p, key))[x] == if p(x) then multiset(rows)[x] else 0
    ensures forall x :: x in Select(rows, p, key) <==> x in rows && p(x)
  {
    FilterCounts(rows, p);
    var f := Filter(rows, p);
    var r := Select(rows, p, key);
    assert multiset(r) == multiset(f);
    forall x ensures x in r <==> x in f {
      assert x in r <==> x in multiset(r);
      assert x in f <==> x in multiset(f);
    }
  }

  /** The first element, as a `findTop...` query returns it. */
  function First<T>(s: seq<T>): (r: Option<T>)
    ensures r.None? <==> s == []
    ensures r.Some? ==> r.value == s[0]
  {
    if s == [] then None else Some(s[0])
  }

  /** The first row of a query ordered greatest first is a row with the
      greatest key among the qualifying ones, and there is one exactly when
      some row qualifies. */
  lemma {:induction false} TopOfSelect<T(!new)>(rows: seq<T>, p: T -> bool, key: T -> int)
    ensures var r := First(Select(rows, p, key));
      && (r.None? <==> forall x | x in rows :: !p(x))
      && (r.Some? ==> r.value in rows && p(r.value)
                      && forall x | x in rows && p(x) :: key(x) <= key(r.value))
  {
    SelectExact(rows, p, key);
    var s := Select(rows, p, key);
    if s != [] {
      assert s[0] in s;
      forall x | x in rows && p(x) ensures key(x) <= key(s[0]) {
        assert x in s;
        var j :| 0 <= j < |s| && s[j] == x;
        if j > 0 { assert key(s[0]) >= key(s[j]); }
      }
    }
  }
}

/** Sorting under a comparison that may tie on distinct elements. */
module Sorting {

  /** Any two elements compare, and comparing is transitive; distinct elements may tie. */
  ghost predicate Preorder<T(!new)>(le: (T, T) -> bool) {
    && (forall a, b :: le(a, b) || le(b, a))
    && (forall a, b, c :: le(a, b) && le(b, c) ==> le(a, c))
  }

  /** No two distinct elements of the list tie. */
  ghost predicate NoTies<T>(s: seq<T>, le: (T, T) -> bool) {
    forall a, b :: a in s && b in s && le(a, b) && le(b, a) ==> a == b
  }

  ghost predicate Sorted<T>(s: seq<T>, le: (T, T) -> bool) {
    forall i, j :: 0 <= i < j < |s| ==> le(s[i], s[j])
  }

  /** Puts x in front of the first element that it does not exceed. */
  function Insert<T>(x: T, s: seq<T>, le: (T, T) -> bool): seq<T> {
    if s == [] || le(x, s[0]) then [x] + s else [s[0]] + Insert(x, s[1..], le)
  }

  /** The stable sort: tied elements keep their order. */
  function Sort<T>(s: seq<T>, le: (T, T) -> bool): seq<T> {
    if s == [] then [] else Insert(s[0], Sort(s[1..], le), le)
  }

  lemma {:induction false} InsertPermutes<T>(x: T, s: seq<T>, le: (T, T) -> bool)
    ensures multiset(Insert(x, s, le)) == multiset(s) + multiset{x}
  {
    if s != [] && !le(x, s[0]) {
      InsertPermutes(x, s[1..], le);
      assert s == [s[0]] + s[1..];
    }
  }

  lemma WithoutFirst<T>(s: seq<T>)
    requires s != []
    ensures multiset(s[1..]) == multiset(s) - multiset{s[0]}
  {
    assert s == [s[0]] + s[1..];
  }

  /** Sorting rearranges, whatever the comparison. */
  lemma {:induction false} SortPermutes<T>(s: seq<T>, le: (T, T) -> bool)
    ensures multiset(Sort(s, le)) == multiset(s)
    ensures |Sort(s, le)| == |s| && forall x :: x in Sort(s, le) <==> x in s
  {
    if s != [] {
      var t := Sort(s[1..], le);
      SortPermutes(s[1..], le);
      InsertPermutes(s[0], t, le);
      WithoutFirst(s);
      assert multiset(Sort(s, le)) == multiset(s[1..]) + multiset{s[0]};
    }
    SamePermutation(Sort(s, le), s);
  }

  lemma SamePermutation<T>(s: seq<T>, t: seq<T>)
    requires multiset(s) == multiset(t)
    ensures |s| == |t| && forall x :: x in s <==> x in t
  {
    assert |multiset(s)| == |s| && |multiset(t)| == |t|;
    forall x
      ensures x in s <==> x in t
    {
      assert x in multiset(s) <==> x in multiset(t);
    }
  }

  lemma {:induction false} InsertSorts<T(!new)>(x: T, s: seq<T>, le: (T, T) -> bool)
    requires Preorder(le) && Sorted(s, le)
    ensures Sorted(Insert(x, s, le), le)
  {
    if s != [] && !le(x, s[0]) {
      InsertSorts(x, s[1..], le);
      InsertPermutes(x, s[1..], le);
      var t := Insert(x, s[1..], le);
      forall y | y in t
        ensures le(s[0], y)
      {
        assert y in multiset(t);
        if y != x {
          assert y in s[1..];
        }
      }
    } else if s != [] {
      forall j | 0 <= j < |s|
        ensures le(x, s[j])
      {
        assert j > 0 ==> le(s[0], s[j]);
      }
    }
  }

  lemma {:induction false} SortSorts<T(!new)>(s: seq<T>, le: (T, T) -> bool)
    requires Preorder(le)
    ensures Sorted(Sort(s, le), le)
  {
    if s != [] {
      SortSorts(s[1..], le);
      InsertSorts(s[0], Sort(s[1..], le), le);
    }
  }

  lemma SortedTail<T>(s: seq<T>, le: (T, T) -> bool)
    requires Sorted(s, le) && s != []
    ensures Sorted(s[1..], le)
  {
    forall i, j | 0 <= i < j < |s[1..]|
      ensures le(s[1..][i], s[1..][j])
    {
      assert le(s[i + 1], s[j + 1]);
    }
  }

  /** What is sorted stays as it is, ties included. */
  lemma {:induction false} SortOfSorted<T>(s: seq<T>, le: (T, T) -> bool)
    requires Sorted(s, le)
    ensures Sort(s, le) == s
  {
    if s != [] {
      SortedTail(s, le);
      SortOfSorted(s[1..], le);
      assert |s| > 1 ==> le(s[0], s[1]);
      assert s == [s[0]] + s[1..];
    }
  }

  lemma FirstIsLeast<T(!new)>(s: seq<T>, le: (T, T) -> bool)
    requires Preorder(le) && Sorted(s, le) && s != []
    ensures forall x :: x in s ==> le(s[0], x)
  {
    forall x | x in s
      ensures le(s[0], x)
    {
      var i :| 0 <= i < |s| && s[i] == x;
      if i > 0 {
        assert le(s[0], s[i]);
      }
    }
  }

  /** The first element after sorting is a least one. */
  lemma SortedFirst<T(!new)>(s: seq<T>, le: (T, T) -> bool)
    requires Preorder(le) && s != []
    ensures |Sort(s, le)| > 0 && Sort(s, le)[0] in s && forall x :: x in s ==> le(Sort(s, le)[0], x)
  {
    SortPermutes(s, le);
    SortSorts(s, le);
    FirstIsLeast(Sort(s, le), le);
    assert Sort(s, le)[0] in Sort(s, le);
  }

  /** If the element in front is a least one, it stays in front. */
  lemma LeastStaysFirst<T(!new)>(s: seq<T>, le: (T, T) -> bool)
    requires s != [] && forall x :: x in s ==> le(s[0], x)
    ensures |Sort(s, le)| > 0 && Sort(s, le)[0] == s[0]
  {
    SortPermutes(s[1..], le);
    var t := Sort(s[1..], le);
    assert t != [] ==> t[0] in t && t[0] in s[1..];
    assert forall x :: x in s[1..] ==> x in s;
  }

  /** Without ties a list has one sorted rearrangement. */
  lemma {:induction false} SortedUnique<T(!new)>(s: seq<T>, t: seq<T>, le: (T, T) -> bool)
    requires Preorder(le) && NoTies(s, le) && Sorted(s, le) && Sorted(t, le) && multiset(s) == multiset(t)
    ensures s == t
  {
    SamePermutation(s, t);
    if s != [] {
      FirstIsLeast(s, le);
      FirstIsLeast(t, le);
      assert s[0] in t && t[0] in s;
      assert le(s[0], t[0]) && le(t[0], s[0]);
      WithoutFirst(s);
      WithoutFirst(t);
      SortedTail(s, le);
      SortedTail(t, le);
      assert NoTies(s[1..], le) by {
        assert forall x :: x in s[1..] ==> x in s;
      }
      hide Preorder, Sorted, NoTies;
      SortedUnique(s[1..], t[1..], le);
      assert s == [s[0]] + s[1..] && t == [t[0]] + t[1..];
    }
  }

  // ----- lists without repetitions

  predicate Distinct<T(==)>(s: seq<T>) {
    forall i, j :: 0 <= i < j < |s| ==> s[i] != s[j]
  }

  lemma DistinctCons<T>(x: T, t: seq<T>)
    ensures Distinct([x] + t) <==> x !in t && Distinct(t)
  {
    var s := [x] + t;
    assert forall i :: 0 <= i < |t| ==> s[i + 1] == t[i];
    if x in t {
      var j :| 0 <= j < |t| && t[j] == x;
      assert s[0] == s[j + 1];
    }
  }

  lemma {:induction false} DistinctCounts<T>(s: seq<T>)
    requires Distinct(s)
    ensures forall x :: multiset(s)[x] == if x in s then 1 else 0
  {
    if s != [] {
      DistinctCounts(s[1..]);
      assert s == [s[0]] + s[1..];
    }
  }

  lemma {:induction false} CountedOnce<T>(s: seq<T>)
    requires forall x :: multiset(s)[x] <= 1
    ensures Distinct(s)
  {
    if s != [] {
      var x, t := s[0], s[1..];
      assert s == [x] + t;
      assert multiset(s) == multiset{x} + multiset(t);
      forall y
        ensures multiset(t)[y] <= 1
      {
        assert multiset(s)[y] <= 1;
      }
      CountedOnce(t);
      assert multiset(s)[x] == 1 + multiset(t)[x];
      assert x in t <==> x in multiset(t);
      DistinctCons(x, t);
    }
  }

  lemma SortDistinct<T>(s: seq<T>, le: (T, T) -> bool)
    requires Distinct(s)
    ensures Distinct(Sort(s, le))
  {
    SortPermutes(s, le);
    DistinctCounts(s);
    CountedOnce(Sort(s, le));
  }

  lemma SortedSame<T(!new)>(s: seq<T>, t: seq<T>, le: (T, T) -> bool)
    requires Preorder(le) && NoTies(s, le) && Sorted(s, le) && Sorted(t, le)
    requires Distinct(s) && Distinct(t) && forall x :: x in s <==> x in t
    ensures s == t
  {
    DistinctCounts(s);
    DistinctCounts(t);
    assert multiset(s) == multiset(t);
    SortedUnique(s, t, le);
  }

  /** Without ties sorting forgets the order of the elements. */
  lemma SortSame<T(!new)>(s: seq<T>, t: seq<T>, le: (T, T) -> bool)
    requires Preorder(le) && NoTies(s, le) && Distinct(s) && Distinct(t) && forall x :: x in s <==> x in t
    ensures Sort(s, le) == Sort(t, le)
  {
    SortPermutes(s, le);
    SortPermutes(t, le);
    SortSorts(s, le);
    SortSorts(t, le);
    SortDistinct(s, le);
    SortDistinct(t, le);
    assert NoTies(Sort(s, le), le);
    SortedSame(Sort(s, le), Sort(t, le), le);
  }

  function AsSet<T(==)>(s: seq<T>): set<T> {
    set x | x in s
  }

  /** A list repeats nothing exactly when it is as long as its set of elements is large. */
  lemma {:induction false} SetSize<T>(s: seq<T>)
    ensures |AsSet(s)| <= |s| && (|AsSet(s)| == |s| <==> Distinct(s))
  {
    if s != [] {
      var x, t := s[0], s[1..];
      SetSize(t);
      assert s == [x] + t;
      DistinctCons(x, t);
      hide Distinct;
      assert AsSet(s) == AsSet(t) + {x};
      assert x in AsSet(t) <==> x in t;
      if x in t {
        assert AsSet(s) == AsSet(t);
      }
    }
  }

  lemma {:induction false} DistinctSize<T>(q: seq<T>, s: set<T>)
    requires Distinct(q) && forall x :: x in q <==> x in s
    ensures |q| == |s|
  {
    if q == [] {
      assert s == {};
    } else {
      var rest := q[1..];
      assert q == [q[0]] + rest;
      assert forall i :: 0 <= i < |rest| ==> rest[i] == q[i + 1];
      assert q[0] !in rest;
      DistinctSize(rest, s - {q[0]});
    }
  }

  /** The first occurrences, as a JavaScript set keeps them. */
  function Dedup<T(==)>(s: seq<T>): seq<T> {
    if s == [] then []
    else
      var front, last := Dedup(s[..|s| - 1]), s[|s| - 1];
      if last in front then front else front + [last]
  }

  lemma {:induction false} DedupIs<T>(s: seq<T>)
    ensures Distinct(Dedup(s)) && forall x :: x in Dedup(s) <==> x in s
  {
    if s != [] {
      var n := |s| - 1;
      DedupIs(s[..n]);
      assert s == s[..n] + [s[n]];
    }
  }

  // ----- filtering

  ghost function Keep<T(!new)>(q: seq<T>, p: T -> bool): (r: seq<T>) {
    if q == [] then [] else (if p(q[0]) then [q[0]] else []) + Keep(q[1..], p)
  }

  lemma KeepNothing<T(!new)>(p: T -> bool)
    ensures Keep([], p) == []
  {
  }

  lemma KeepStep<T(!new)>(q: seq<T>, i: nat, p: T -> bool)
    requires i < |q|
    ensures Keep(q[i..], p) == (if p(q[i]) then [q[i]] else []) + Keep(q[i + 1..], p)
  {
    assert q[i..][0] == q[i] && q[i..][1..] == q[i + 1..];
  }

  lemma {:induction false} KeepHas<T(!new)>(q: seq<T>, p: T -> bool)
    ensures forall x :: x in Keep(q, p) <==> x in q && p(x)
    ensures Distinct(q) ==> Distinct(Keep(q, p))
  {
    if q != [] {
      var x, rest := q[0], q[1..];
      assert q == [x] + rest;
      KeepHas(rest, p);
      DistinctCons(x, rest);
      if p(x) {
        DistinctCons(x, Keep(rest, p));
      } else {
        assert [] + Keep(rest, p) == Keep(rest, p);
      }
    }
  }

  lemma {:induction false} KeepSorted<T(!new)>(q: seq<T>, p: T -> bool, le: (T, T) -> bool)
    requires Sorted(q, le)
    ensures Sorted(Keep(q, p), le)
  {
    if q != [] {
      var x, rest := q[0], q[1..];
      SortedTail(q, le);
      KeepSorted(rest, p, le);
      KeepHas(rest, p);
      var t := Keep(rest, p);
      if p(x) {
        forall j | 0 <= j < |t|
          ensures le(x, t[j])
        {
          assert t[j] in t;
          var i :| 0 <= i < |rest| && rest[i] == t[j];
          assert le(q[0], q[i + 1]);
        }
      } else {
        assert [] + t == t;
      }
    }
  }

  lemma {:induction false} KeepSame<T(!new)>(q: seq<T>, p: T -> bool, p': T -> bool)
    requires forall x :: x in q ==> p(x) == p'(x)
    ensures Keep(q, p) == Keep(q, p')
  {
    if q != [] {
      assert forall x :: x in q[1..] ==> x in q;
      KeepSame(q[1..], p, p');
    }
  }

  // ----- the elements of a set

  /** The elements of a set, each once, in ascending order if the comparison allows one. */
  method SortedKeys<T(==, !new)>(s: set<T>, le: (T, T) -> bool) returns (q: seq<T>)
    ensures Distinct(q) && forall x :: x in q <==> x in s
    ensures Preorder(le) ==> Sorted(q, le)
  {
    q := [];
    var rest := s;
    while rest != {}
      invariant Distinct(q) && rest <= s && forall x :: x in q <==> x in s && x !in rest
      decreases rest
    {
      var x :| x in rest;
      q := q + [x];
      rest := rest - {x};
    }
    if Preorder(le) {
      SortSorts(q, le);
    }
    SortDistinct(q, le);
    SortPermutes(q, le);
    q := Sort(q, le);
  }
}

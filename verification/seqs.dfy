/** Sequence operations that mirror the JavaScript array and `Set` idioms the
    audit pipeline is built from: `map`, `filter`, `Array.from(new Set(xs))`
    (insertion-ordered de-duplication) and `new Set(xs).size`. */
module Seqs {

  /** No element occurs twice. */
  ghost predicate NoDuplicates<T>(s: seq<T>) {
    forall i, j :: 0 <= i < j < |s| ==> s[i] != s[j]
  }

  /** The set of elements of a sequence. */
  function ToSet<T>(s: seq<T>): set<T> {
    set x | x in s
  }

  /** `a` is obtained from `b` by deleting elements, keeping the order of the rest. */
  ghost predicate IsSubsequence<T>(a: seq<T>, b: seq<T>) {
    a == [] || (b != [] && ((a[0] == b[0] && IsSubsequence(a[1..], b[1..])) || IsSubsequence(a, b[1..])))
  }

  /** `xs.map(f)`. */
  function Map<T, U>(f: T -> U, xs: seq<T>): (r: seq<U>)
    ensures |r| == |xs|
    ensures forall i :: 0 <= i < |xs| ==> r[i] == f(xs[i])
  {
    if xs == [] then [] else [f(xs[0])] + Map(f, xs[1..])
  }

  /** `xs.filter(p)`: the elements satisfying `p`, in their original order. */
  function Filter<T(!new)>(p: T -> bool, xs: seq<T>): (r: seq<T>)
    ensures |r| <= |xs|
    ensures forall x :: x in r <==> x in xs && p(x)
  {
    if xs == [] then []
    else (if p(xs[0]) then [xs[0]] else []) + Filter(p, xs[1..])
  }

  /** A filter keeps every passing element as many times as it occurs, and no
      other element. */
  lemma {:induction false} FilterMultiplicity<T(!new)>(p: T -> bool, xs: seq<T>)
    ensures forall x :: multiset(Filter(p, xs))[x] == if p(x) then multiset(xs)[x] else 0
  {
    if xs != [] {
      FilterMultiplicity(p, xs[1..]);
      assert xs == [xs[0]] + xs[1..];
    }
  }

  /** The positions of `xs` whose element passes `p`. */
  ghost function Positions<T>(p: T -> bool, xs: seq<T>): set<nat> {
    set i: nat | i < |xs| && p(xs[i])
  }

  /** One more element adds its position exactly when it passes. */
  lemma PositionsSnoc<T>(p: T -> bool, q: seq<T>, x: T)
    ensures |Positions(p, q + [x])| == |Positions(p, q)| + (if p(x) then 1 else 0)
  {
    var xs := q + [x];
    var before, after := Positions(p, q), Positions(p, xs);
    forall i: nat | i < |q| ensures xs[i] == q[i] {
    }
    assert xs[|q|] == x;
    assert after == before + (if p(x) then {|q|} else {});
    assert |q| !in before;
  }

  /** The length of a filter is the number of positions whose element passes. */
  lemma {:induction false} FilterCountsPositions<T(!new)>(p: T -> bool, xs: seq<T>)
    ensures |Filter(p, xs)| == |Positions(p, xs)|
  {
    if xs != [] {
      var q, x := xs[..|xs| - 1], xs[|xs| - 1];
      assert xs == q + [x];
      FilterCountsPositions(p, q);
      FilterAppend(p, q, [x]);
      assert Filter(p, [x]) == if p(x) then [x] else [] by {
        assert [x][1..] == [];
      }
      PositionsSnoc(p, q, x);
    }
  }

  /** Filtering keeps the survivors in order: the result is a subsequence. */
  lemma {:induction false} FilterIsSubsequence<T(!new)>(p: T -> bool, xs: seq<T>)
    ensures IsSubsequence(Filter(p, xs), xs)
  {
    if xs != [] {
      FilterIsSubsequence(p, xs[1..]);
      var rest := Filter(p, xs[1..]);
      if p(xs[0]) {
        assert Filter(p, xs) == [xs[0]] + rest;
        assert ([xs[0]] + rest)[1..] == rest;
      } else {
        assert Filter(p, xs) == rest;
      }
    }
  }

  /** Filtering a concatenation filters each part. */
  lemma {:induction false} FilterAppend<T(!new)>(p: T -> bool, xs: seq<T>, ys: seq<T>)
    ensures Filter(p, xs + ys) == Filter(p, xs) + Filter(p, ys)
  {
    if xs == [] {
      assert xs + ys == ys;
    } else {
      assert (xs + ys)[1..] == xs[1..] + ys;
      FilterAppend(p, xs[1..], ys);
    }
  }

  /** A filter whose predicate fails everywhere is empty, and one whose
      predicate holds somewhere is not. */
  lemma FilterEmptyIff<T(!new)>(p: T -> bool, xs: seq<T>)
    ensures Filter(p, xs) == [] <==> forall x :: x in xs ==> !p(x)
  {
    if Filter(p, xs) != [] {
      assert Filter(p, xs)[0] in Filter(p, xs);
    }
  }

  /** `Array.from(new Set(xs))`: every value once, in the order of its first
      occurrence (a JavaScript `Set` iterates in insertion order). */
  function Distinct<T(==,!new)>(xs: seq<T>): (r: seq<T>)
    ensures NoDuplicates(r)
    ensures forall x :: x in r <==> x in xs
    ensures |r| <= |xs|
  {
    if xs == [] then []
    else
      var prefix := xs[..|xs| - 1];
      var x := xs[|xs| - 1];
      assert xs == prefix + [x];
      var d := Distinct(prefix);
      if x in d then d else d + [x]
  }

  /** One more element: a new value is appended, a known one changes nothing. */
  lemma DistinctSnoc<T(!new)>(p: seq<T>, x: T)
    ensures Distinct(p + [x]) == if x in Distinct(p) then Distinct(p) else Distinct(p) + [x]
  {
    var xs := p + [x];
    assert xs[..|xs| - 1] == p && xs[|xs| - 1] == x;
  }

  /** `new Set(xs).size`. */
  function SetSize<T(==,!new)>(xs: seq<T>): (n: nat)
    ensures n == |ToSet(xs)|
    ensures n <= |xs|
    ensures xs != [] ==> n >= 1
  {
    DistinctCardinality(xs);
    assert xs != [] ==> xs[0] in Distinct(xs);
    |Distinct(xs)|
  }

  /** The index of the first occurrence of `x` in `xs`. */
  function IndexOf<T(==)>(xs: seq<T>, x: T): (k: nat)
    requires x in xs
    ensures k < |xs| && xs[k] == x && x !in xs[..k]
  {
    if xs[0] == x then 0
    else
      var k := IndexOf(xs[1..], x);
      assert xs[..k + 1] == [xs[0]] + xs[1..][..k];
      1 + k
  }

  /** Dropping the last element does not move a first occurrence that lies before it. */
  lemma {:induction false} IndexOfInPrefix<T>(xs: seq<T>, x: T)
    requires |xs| > 0 && x in xs[..|xs| - 1]
    ensures IndexOf(xs, x) == IndexOf(xs[..|xs| - 1], x)
  {
    var p := xs[..|xs| - 1];
    assert p[0] == xs[0];
    if xs[0] != x {
      var t := xs[1..];
      assert p[1..] == t[..|t| - 1];
      IndexOfInPrefix(t, x);
    }
  }

  /** The first occurrence lies at or before any occurrence. */
  lemma {:induction false} IndexOfAtMost<T>(xs: seq<T>, x: T, k: nat)
    requires k < |xs| && xs[k] == x
    ensures IndexOf(xs, x) <= k
  {
    if xs[0] != x {
      assert k > 0;
      IndexOfAtMost(xs[1..], x, k - 1);
    }
  }

  /** The elements of `s` come from `xs` and appear in `s` in the order of
      their first occurrences in `xs`. */
  ghost predicate InFirstSeenOrder<T>(s: seq<T>, xs: seq<T>) {
    && (forall x :: x in s ==> x in xs)
    && forall i, j :: 0 <= i < j < |s| ==> IndexOf(xs, s[i]) < IndexOf(xs, s[j])
  }

  /** `Distinct` lists its elements in the order in which they are first seen. */
  lemma {:induction false} DistinctFirstSeenOrder<T(!new)>(xs: seq<T>)
    ensures InFirstSeenOrder(Distinct(xs), xs)
  {
    if xs != [] {
      var p := xs[..|xs| - 1];
      var x := xs[|xs| - 1];
      var d, dp := Distinct(xs), Distinct(p);
      DistinctFirstSeenOrder(p);
      forall i | 0 <= i < |dp|
        ensures d[i] == dp[i] && IndexOf(xs, d[i]) == IndexOf(p, dp[i])
      {
        assert dp[i] in p;
        IndexOfInPrefix(xs, dp[i]);
      }
      if x !in dp {
        assert x !in p;
        assert IndexOf(xs, x) == |xs| - 1;
      }
    }
  }

  /** Filtering keeps first-seen order. */
  lemma {:induction false} FilterKeepsFirstSeenOrder<T(!new)>(p: T -> bool, s: seq<T>, xs: seq<T>)
    requires InFirstSeenOrder(s, xs)
    ensures InFirstSeenOrder(Filter(p, s), xs)
  {
    if s != [] {
      var rest := s[1..];
      assert InFirstSeenOrder(rest, xs) by {
        forall i, j | 0 <= i < j < |rest| ensures IndexOf(xs, rest[i]) < IndexOf(xs, rest[j]) {
          assert rest[i] == s[i + 1] && rest[j] == s[j + 1];
        }
      }
      FilterKeepsFirstSeenOrder(p, rest, xs);
      var f := Filter(p, rest);
      if p(s[0]) {
        forall j | 0 <= j < |f| ensures IndexOf(xs, s[0]) < IndexOf(xs, f[j]) {
          assert f[j] in rest;
          var k :| 0 <= k < |rest| && rest[k] == f[j];
          assert s[k + 1] == f[j];
        }
        assert Filter(p, s) == [s[0]] + f;
      } else {
        assert Filter(p, s) == f;
      }
    }
  }

  /** Prepending an element not in the sequence keeps it free of duplicates. */
  lemma ConsNoDuplicates<T>(x: T, s: seq<T>)
    requires x !in s && NoDuplicates(s)
    ensures NoDuplicates([x] + s)
  {
    var t := [x] + s;
    forall i, j | 0 <= i < j < |t| ensures t[i] != t[j] {
      assert t[j] == s[j - 1];
      if i > 0 {
        assert t[i] == s[i - 1];
      }
    }
  }

  /** Filtering introduces no duplicates. */
  lemma {:induction false} FilterNoDuplicates<T(!new)>(p: T -> bool, xs: seq<T>)
    requires NoDuplicates(xs)
    ensures NoDuplicates(Filter(p, xs))
  {
    if xs != [] {
      var rest := xs[1..];
      assert NoDuplicates(rest) by {
        forall i, j | 0 <= i < j < |rest| ensures rest[i] != rest[j] {
          assert rest[i] == xs[i + 1] && rest[j] == xs[j + 1];
        }
      }
      FilterNoDuplicates(p, rest);
      if p(xs[0]) {
        assert xs[0] !in rest;
        ConsNoDuplicates(xs[0], Filter(p, rest));
      }
    }
  }

  /** The set of a mapped sequence is the image of its set. */
  lemma {:induction false} MapToSet<T, U>(f: T -> U, xs: seq<T>)
    ensures ToSet(Map(f, xs)) == set x | x in xs :: f(x)
  {
    if xs != [] {
      MapToSet(f, xs[1..]);
      assert Map(f, xs) == [f(xs[0])] + Map(f, xs[1..]);
      assert xs == [xs[0]] + xs[1..];
    }
  }

  /** A sequence without duplicates has as many elements as its set. */
  lemma {:induction false} NoDuplicatesCardinality<T>(s: seq<T>)
    requires NoDuplicates(s)
    ensures |ToSet(s)| == |s|
  {
    if s != [] {
      var rest := s[1..];
      assert NoDuplicates(rest) by {
        forall i, j | 0 <= i < j < |rest| ensures rest[i] != rest[j] {
          assert rest[i] == s[i + 1] && rest[j] == s[j + 1];
        }
      }
      NoDuplicatesCardinality(rest);
      assert s[0] !in rest;
      assert ToSet(s) == {s[0]} + ToSet(rest) by {
        assert s == [s[0]] + rest;
      }
    }
  }

  /** A filter keeps every element exactly when the predicate holds everywhere. */
  lemma {:induction false} FilterAllIff<T(!new)>(p: T -> bool, xs: seq<T>)
    ensures |Filter(p, xs)| == |xs| <==> forall x :: x in xs ==> p(x)
  {
    if xs != [] {
      var rest := xs[1..];
      assert xs == [xs[0]] + rest;
      FilterAllIff(p, rest);
    }
  }

  /** The number of distinct values is the cardinality of the value set. */
  lemma DistinctCardinality<T(!new)>(xs: seq<T>)
    ensures |Distinct(xs)| == |ToSet(xs)|
  {
    NoDuplicatesCardinality(Distinct(xs));
    assert ToSet(Distinct(xs)) == ToSet(xs);
  }

  /** How many times `x` occurs in `xs`. */
  function Occurrences<T(==)>(xs: seq<T>, x: T): nat
  {
    if xs == [] then 0
    else Occurrences(xs[..|xs| - 1], x) + (if xs[|xs| - 1] == x then 1 else 0)
  }

  /** Occurrences are positive exactly for the members. */
  lemma {:induction false} OccurrencesPositive<T>(xs: seq<T>, x: T)
    ensures Occurrences(xs, x) > 0 <==> x in xs
  {
    if xs != [] {
      var p := xs[..|xs| - 1];
      assert xs == p + [xs[|xs| - 1]];
      OccurrencesPositive(p, x);
    }
  }
}

/** Sequence helpers shared by the modules: occurrence counts, filters,
    order-preserving de-duplication, sums, and a descending sort. Every
    recursive definition peels off the LAST element, so that a loop that
    appends to a list keeps the invariant `r == F(xs[..i])`. */
module Collections {

  /** The set of elements of a sequence. */
  function Elems<T>(xs: seq<T>): set<T>
  {
    set x | x in xs
  }

  /** Number of occurrences of `x` in `xs`. */
  function Count<T(==)>(xs: seq<T>, x: T): nat
  {
    if xs == [] then 0
    else Count(xs[..|xs| - 1], x) + (if xs[|xs| - 1] == x then 1 else 0)
  }

  /** The elements of `xs` that satisfy `p`, in their original order. */
  function Filter<T>(xs: seq<T>, p: T -> bool): seq<T>
  {
    if xs == [] then []
    else Filter(xs[..|xs| - 1], p) + (if p(xs[|xs| - 1]) then [xs[|xs| - 1]] else [])
  }

  /** Sum of `f` over the elements of `xs`. */
  function SumNat<T>(xs: seq<T>, f: T -> nat): nat
  {
    if xs == [] then 0 else SumNat(xs[..|xs| - 1], f) + f(xs[|xs| - 1])
  }

  /** No element occurs twice. */
  predicate Distinct<T(==)>(xs: seq<T>)
  {
    forall i, j | 0 <= i < j < |xs| :: xs[i] != xs[j]
  }

  /** The first occurrence of every element, in order of first appearance. */
  function Dedup<T(==)>(xs: seq<T>): seq<T>
  {
    if xs == [] then []
    else
      var d := Dedup(xs[..|xs| - 1]);
      if xs[|xs| - 1] in xs[..|xs| - 1] then d else d + [xs[|xs| - 1]]
  }

  /** Index of the first occurrence of `x` in `xs`. */
  function FirstIndex<T(==)>(xs: seq<T>, x: T): (i: nat)
    requires x in xs
    ensures i < |xs| && xs[i] == x && x !in xs[..i]
  {
    if xs[0] == x then 0 else 1 + FirstIndex(xs[1..], x)
  }

  /** Sum, over the keys, of how often each key occurs in `xs`. */
  function SumCounts<T(==)>(keys: seq<T>, xs: seq<T>): nat
  {
    if keys == [] then 0 else SumCounts(keys[..|keys| - 1], xs) + Count(xs, keys[|keys| - 1])
  }

  // ---------------------------------------------------------------- Count

  lemma {:induction false} CountAppend<T>(xs: seq<T>, ys: seq<T>, x: T)
    ensures Count(xs + ys, x) == Count(xs, x) + Count(ys, x)
    decreases |ys|
  {
    if ys == [] {
      assert xs + ys == xs;
    } else {
      var n := |ys| - 1;
      assert (xs + ys)[..|xs + ys| - 1] == xs + ys[..n];
      CountAppend(xs, ys[..n], x);
    }
  }

  lemma {:induction false} CountPositive<T>(xs: seq<T>, x: T)
    ensures Count(xs, x) > 0 <==> x in xs
    decreases |xs|
  {
    if xs != [] {
      var n := |xs| - 1;
      assert xs == xs[..n] + [xs[n]];
      CountPositive(xs[..n], x);
    }
  }

  lemma {:induction false} CountInDistinct<T>(xs: seq<T>, x: T)
    requires Distinct(xs)
    ensures Count(xs, x) == if x in xs then 1 else 0
    decreases |xs|
  {
    if xs != [] {
      var n := |xs| - 1;
      assert xs == xs[..n] + [xs[n]];
      CountInDistinct(xs[..n], x);
      if xs[n] == x {
        CountPositive(xs[..n], x);
      }
    }
  }

  // --------------------------------------------------------------- Filter

  lemma {:induction false} FilterAppend<T>(xs: seq<T>, ys: seq<T>, p: T -> bool)
    ensures Filter(xs + ys, p) == Filter(xs, p) + Filter(ys, p)
    decreases |ys|
  {
    if ys == [] {
      assert xs + ys == xs;
    } else {
      var n := |ys| - 1;
      assert (xs + ys)[..|xs + ys| - 1] == xs + ys[..n];
      FilterAppend(xs, ys[..n], p);
    }
  }

  /** Filtering a sequence with one more element at the end. */
  lemma FilterSnoc<T>(xs: seq<T>, x: T, p: T -> bool)
    ensures Filter(xs + [x], p) == Filter(xs, p) + (if p(x) then [x] else [])
  {
    assert (xs + [x])[..|xs|] == xs;
  }

  lemma {:induction false} FilterMembers<T>(xs: seq<T>, p: T -> bool)
    ensures |Filter(xs, p)| <= |xs|
    ensures forall x :: x in Filter(xs, p) <==> x in xs && p(x)
    ensures forall i | 0 <= i < |Filter(xs, p)| :: p(Filter(xs, p)[i])
    decreases |xs|
  {
    if xs != [] {
      var n := |xs| - 1;
      assert xs == xs[..n] + [xs[n]];
      FilterMembers(xs[..n], p);
    }
  }

  lemma {:induction false} FilterKeepsAll<T>(xs: seq<T>, p: T -> bool)
    requires forall i | 0 <= i < |xs| :: p(xs[i])
    ensures Filter(xs, p) == xs
    decreases |xs|
  {
    if xs != [] {
      var n := |xs| - 1;
      assert xs == xs[..n] + [xs[n]];
      FilterKeepsAll(xs[..n], p);
    }
  }

  /** Filtering twice with the same predicate is filtering once. */
  lemma FilterIdempotent<T>(xs: seq<T>, p: T -> bool)
    ensures Filter(Filter(xs, p), p) == Filter(xs, p)
  {
    FilterMembers(xs, p);
    FilterKeepsAll(Filter(xs, p), p);
  }

  /** Kept and dropped elements together account for every element. */
  lemma {:induction false} FilterSplit<T>(xs: seq<T>, p: T -> bool)
    ensures |Filter(xs, p)| + |Filter(xs, x => !p(x))| == |xs|
    decreases |xs|
  {
    if xs != [] {
      FilterSplit(xs[..|xs| - 1], p);
    }
  }

  // --------------------------------------------------------------- SumNat

  lemma SumNatSnoc<T>(xs: seq<T>, x: T, f: T -> nat)
    ensures SumNat(xs + [x], f) == SumNat(xs, f) + f(x)
  {
    assert (xs + [x])[..|xs|] == xs;
  }

  lemma {:induction false} SumNatAppend<T>(xs: seq<T>, ys: seq<T>, f: T -> nat)
    ensures SumNat(xs + ys, f) == SumNat(xs, f) + SumNat(ys, f)
    decreases |ys|
  {
    if ys == [] {
      assert xs + ys == xs;
    } else {
      var n := |ys| - 1;
      assert (xs + ys)[..|xs + ys| - 1] == xs + ys[..n];
      SumNatAppend(xs, ys[..n], f);
    }
  }

  /** A sum does not depend on the order of its terms. */
  lemma {:induction false} SumNatPermutation<T>(xs: seq<T>, ys: seq<T>, f: T -> nat)
    requires multiset(xs) == multiset(ys)
    ensures SumNat(xs, f) == SumNat(ys, f)
    decreases |xs|
  {
    if xs == [] {
      assert |ys| == |multiset(ys)| == 0;
    } else {
      var n := |xs| - 1;
      var x := xs[n];
      assert xs == xs[..n] + [x];
      assert x in multiset(ys);
      var i :| 0 <= i < |ys| && ys[i] == x;
      var rest := ys[..i] + ys[i + 1..];
      assert ys == ys[..i] + [x] + ys[i + 1..];
      assert multiset(ys) == multiset(rest) + multiset{x};
      assert multiset(xs) == multiset(xs[..n]) + multiset{x};
      assert multiset(xs[..n]) == multiset(xs) - multiset{x};
      assert multiset(rest) == multiset(ys) - multiset{x};
      SumNatPermutation(xs[..n], rest, f);
      SumNatAppend(ys[..i] + [x], ys[i + 1..], f);
      SumNatAppend(ys[..i], [x], f);
      SumNatAppend(ys[..i], ys[i + 1..], f);
    }
  }

  // ---------------------------------------------------------------- Dedup

  lemma {:induction false} DedupMembers<T>(xs: seq<T>)
    ensures forall x :: x in Dedup(xs) <==> x in xs
    ensures Distinct(Dedup(xs))
    ensures |Dedup(xs)| <= |xs|
    decreases |xs|
  {
    if xs != [] {
      var n := |xs| - 1;
      assert xs == xs[..n] + [xs[n]];
      DedupMembers(xs[..n]);
    }
  }

  lemma DedupMember<T>(xs: seq<T>, x: T)
    requires x in Dedup(xs)
    ensures x in xs
  {
    DedupMembers(xs);
  }

  /** A sequence without duplicates is its own de-duplication. */
  lemma {:induction false} DedupOfDistinct<T>(xs: seq<T>)
    requires Distinct(xs)
    ensures Dedup(xs) == xs
    decreases |xs|
  {
    if xs != [] {
      var n := |xs| - 1;
      assert xs[n] !in xs[..n];
      DedupOfDistinct(xs[..n]);
    }
  }

  lemma {:induction false} FirstIndexSnoc<T>(xs: seq<T>, y: T, x: T)
    requires x in xs
    ensures FirstIndex(xs + [y], x) == FirstIndex(xs, x)
    decreases |xs|
  {
    if xs[0] != x {
      assert (xs + [y])[1..] == xs[1..] + [y];
      FirstIndexSnoc(xs[1..], y, x);
    }
  }

  /** The elements of Dedup(xs) appear in the order of their first occurrence in xs. */
  lemma {:induction false} DedupFirstOccurrenceOrder<T>(xs: seq<T>)
    ensures forall x | x in Dedup(xs) :: x in xs
    ensures forall i, j | 0 <= i < j < |Dedup(xs)| ::
              FirstIndex(xs, Dedup(xs)[i]) < FirstIndex(xs, Dedup(xs)[j])
    decreases |xs|
  {
    DedupMembers(xs);
    if xs != [] {
      var n := |xs| - 1;
      var p := xs[..n];
      var d := Dedup(p);
      assert xs == p + [xs[n]];
      DedupFirstOccurrenceOrder(p);
      DedupMembers(p);
      forall x | x in d ensures FirstIndex(xs, x) == FirstIndex(p, x) {
        FirstIndexSnoc(p, xs[n], x);
      }
      if xs[n] !in p {
        forall k | 0 <= k < n ensures xs[k] != xs[n] {
          assert xs[k] == p[k];
        }
        forall i | 0 <= i < |d| ensures FirstIndex(xs, d[i]) < n {
          assert d[i] in d;
          assert FirstIndex(p, d[i]) < |p|;
        }
      }
    }
  }

  // ------------------------------------------------------------ SumCounts

  lemma {:induction false} SumCountsSnoc<T>(keys: seq<T>, xs: seq<T>, x: T)
    ensures SumCounts(keys, xs + [x]) == SumCounts(keys, xs) + Count(keys, x)
    decreases |keys|
  {
    if keys != [] {
      var n := |keys| - 1;
      SumCountsSnoc(keys[..n], xs, x);
      assert (xs + [x])[..|xs|] == xs;
    }
  }

  lemma SumCountsKeySnoc<T>(keys: seq<T>, k: T, xs: seq<T>)
    ensures SumCounts(keys + [k], xs) == SumCounts(keys, xs) + Count(xs, k)
  {
    assert (keys + [k])[..|keys|] == keys;
  }

  /** Counting every distinct value once accounts for every element. */
  lemma {:induction false} SumCountsDedup<T>(xs: seq<T>)
    ensures SumCounts(Dedup(xs), xs) == |xs|
    decreases |xs|
  {
    if xs != [] {
      var n := |xs| - 1;
      var p := xs[..n];
      var x := xs[n];
      assert xs == p + [x];
      var d := Dedup(p);
      SumCountsDedup(p);
      DedupMembers(p);
      SumCountsSnoc(d, p, x);
      CountInDistinct(d, x);
      if x !in p {
        CountPositive(p, x);
      }
    }
  }

  /** Membership in `keys`, as a predicate. */
  function InKeys<T(==)>(keys: seq<T>): T -> bool
  {
    (x: T) => x in keys
  }

  /** Counting each of some distinct keys counts exactly the elements that
      are among the keys. */
  lemma {:induction false} SumCountsDistinct<T>(keys: seq<T>, xs: seq<T>)
    requires Distinct(keys)
    ensures SumCounts(keys, xs) == |Filter(xs, InKeys(keys))|
    decreases |xs|
  {
    if xs == [] {
      SumCountsEmpty(keys);
    } else {
      var n := |xs| - 1;
      assert xs == xs[..n] + [xs[n]];
      SumCountsDistinct(keys, xs[..n]);
      SumCountsSnoc(keys, xs[..n], xs[n]);
      CountInDistinct(keys, xs[n]);
    }
  }

  lemma {:induction false} SumCountsEmpty<T>(keys: seq<T>)
    ensures SumCounts(keys, []) == 0
    decreases |keys|
  {
    if keys != [] {
      SumCountsEmpty(keys[..|keys| - 1]);
    }
  }

  /** Filtering keeps distinctness. */
  lemma {:induction false} FilterDistinct<T>(xs: seq<T>, p: T -> bool)
    requires Distinct(xs)
    ensures Distinct(Filter(xs, p))
    decreases |xs|
  {
    if xs != [] {
      var n := |xs| - 1;
      assert Distinct(xs[..n]);
      FilterDistinct(xs[..n], p);
      FilterMembers(xs[..n], p);
      assert xs[n] !in xs[..n];
    }
  }

  /** Filters by predicates that agree on the elements are equal. */
  lemma {:induction false} FilterCongruent<T>(xs: seq<T>, p: T -> bool, q: T -> bool)
    requires forall i | 0 <= i < |xs| :: p(xs[i]) == q(xs[i])
    ensures Filter(xs, p) == Filter(xs, q)
    decreases |xs|
  {
    if xs != [] {
      FilterCongruent(xs[..|xs| - 1], p, q);
    }
  }

  /** Filtering by a weaker predicate first changes nothing. */
  lemma {:induction false} FilterFilter<T>(xs: seq<T>, p: T -> bool, q: T -> bool)
    requires forall i | 0 <= i < |xs| :: q(xs[i]) ==> p(xs[i])
    ensures Filter(Filter(xs, p), q) == Filter(xs, q)
    decreases |xs|
  {
    if xs != [] {
      var n := |xs| - 1;
      FilterFilter(xs[..n], p, q);
      var f := Filter(xs[..n], p);
      if p(xs[n]) {
        assert Filter(xs, p) == f + [xs[n]];
        assert (f + [xs[n]])[..|f|] == f;
        assert Filter(f + [xs[n]], q) == Filter(f, q) + (if q(xs[n]) then [xs[n]] else []);
      } else {
        assert Filter(xs, p) == f;
        assert !q(xs[n]);
      }
    }
  }

  /** An element contributes to the sum. */
  lemma {:induction false} SumNatIn<T>(xs: seq<T>, f: T -> nat, x: T)
    requires x in xs
    ensures f(x) <= SumNat(xs, f)
    decreases |xs|
  {
    var n := |xs| - 1;
    if xs[n] != x {
      assert x in xs[..n] by { assert xs == xs[..n] + [xs[n]]; }
      SumNatIn(xs[..n], f, x);
    }
  }

  // ---------------------------------------------------------------- Elems

  /** A sequence has at least as many positions as distinct elements. */
  lemma {:induction false} ElemsCard<T>(xs: seq<T>)
    ensures |Elems(xs)| <= |xs|
    decreases |xs|
  {
    if xs != [] {
      var n := |xs| - 1;
      assert Elems(xs) == Elems(xs[..n]) + {xs[n]} by {
        assert xs == xs[..n] + [xs[n]];
      }
      ElemsCard(xs[..n]);
    }
  }

  // ----------------------------------------------------------------- Sort

  /** Keys never increase from left to right. */
  predicate SortedDesc<T>(xs: seq<T>, key: T -> int)
  {
    forall i, j | 0 <= i < j < |xs| :: key(xs[i]) >= key(xs[j])
  }

  function InsertDesc<T>(x: T, s: seq<T>, key: T -> int): seq<T>
  {
    if s == [] then [x]
    else if key(x) >= key(s[0]) then [x] + s
    else [s[0]] + InsertDesc(x, s[1..], key)
  }

  /** Sort by `key`, largest first (insertion sort). */
  function SortDesc<T>(xs: seq<T>, key: T -> int): seq<T>
  {
    if xs == [] then [] else InsertDesc(xs[|xs| - 1], SortDesc(xs[..|xs| - 1], key), key)
  }

  lemma {:induction false} InsertDescPermutes<T>(x: T, s: seq<T>, key: T -> int)
    ensures multiset(InsertDesc(x, s, key)) == multiset(s) + multiset{x}
    decreases |s|
  {
    if s != [] && key(x) < key(s[0]) {
      assert s == [s[0]] + s[1..];
      InsertDescPermutes(x, s[1..], key);
    }
  }

  /** Inserting an element no larger than a bound into a sequence no
      larger than it keeps every key below the bound. */
  lemma {:induction false} InsertDescBounded<T>(x: T, s: seq<T>, key: T -> int, b: int)
    requires key(x) <= b && forall k | 0 <= k < |s| :: key(s[k]) <= b
    ensures forall k | 0 <= k < |InsertDesc(x, s, key)| :: key(InsertDesc(x, s, key)[k]) <= b
    decreases |s|
  {
    if s != [] && key(x) < key(s[0]) {
      InsertDescBounded(x, s[1..], key, b);
    }
  }

  /** A one-element head above a sorted tail is sorted. */
  lemma ConsSorted<T>(h: T, t: seq<T>, key: T -> int)
    requires SortedDesc(t, key) && forall k | 0 <= k < |t| :: key(t[k]) <= key(h)
    ensures SortedDesc([h] + t, key)
  {
    var out := [h] + t;
    forall i, j | 0 <= i < j < |out| ensures key(out[i]) >= key(out[j]) {
      assert out[j] == t[j - 1];
      if i > 0 {
        assert out[i] == t[i - 1];
      }
    }
  }

  lemma {:induction false} InsertDescSorted<T>(x: T, s: seq<T>, key: T -> int)
    requires SortedDesc(s, key)
    ensures SortedDesc(InsertDesc(x, s, key), key)
    decreases |s|
  {
    if s == [] {
    } else if key(x) >= key(s[0]) {
      ConsSorted(x, s, key);
    } else {
      var t := s[1..];
      assert SortedDesc(t, key);
      InsertDescSorted(x, t, key);
      assert forall k | 0 <= k < |t| :: key(t[k]) <= key(s[0]) by {
        forall k | 0 <= k < |t| ensures key(t[k]) <= key(s[0]) {
          assert t[k] == s[k + 1];
        }
      }
      InsertDescBounded(x, t, key, key(s[0]));
      ConsSorted(s[0], InsertDesc(x, t, key), key);
    }
  }

  lemma InsertDescCorrect<T>(x: T, s: seq<T>, key: T -> int)
    requires SortedDesc(s, key)
    ensures SortedDesc(InsertDesc(x, s, key), key)
    ensures multiset(InsertDesc(x, s, key)) == multiset(s) + multiset{x}
  {
    InsertDescPermutes(x, s, key);
    InsertDescSorted(x, s, key);
  }

  /** SortDesc returns a sorted permutation of its input. */
  lemma {:induction false} SortDescCorrect<T>(xs: seq<T>, key: T -> int)
    ensures SortedDesc(SortDesc(xs, key), key)
    ensures multiset(SortDesc(xs, key)) == multiset(xs)
    decreases |xs|
  {
    if xs != [] {
      var n := |xs| - 1;
      assert xs == xs[..n] + [xs[n]];
      SortDescCorrect(xs[..n], key);
      InsertDescCorrect(xs[n], SortDesc(xs[..n], key), key);
    }
  }

  /** A column of a table: `f` applied to every row, in order. */
  function Column<T, U>(xs: seq<T>, f: T -> U): (r: seq<U>)
    ensures |r| == |xs| && forall i | 0 <= i < |xs| :: r[i] == f(xs[i])
  {
    seq(|xs|, i requires 0 <= i < |xs| => f(xs[i]))
  }

  /** One element of a non-empty set, in whatever order the set is
      iterated. */
  method Pick<T>(s: set<T>) returns (x: T)
    requires s != {}
    ensures x in s
  {
    x :| x in s;
  }
}

/** mergesort_ranges and flip_ranges (src/sort.c, src/other.c). */
module Sorting {
  import opened Pools
  import opened Ordering
  import opened StableSort

  const MIN_MERGE_SIZE := 8

  // ----- the function the in-place sort computes -----

  /** Put x behind the last element that is strictly before it. */
  function Insert(o: Order, s: seq<Range>, x: Range): seq<Range> {
    if s == [] then [x]
    else if Before(o, s[|s| - 1], x) then s + [x]
    else Insert(o, s[..|s| - 1], x) + [s[|s| - 1]]
  }

  function InsertionSort(o: Order, s: seq<Range>): seq<Range> {
    if s == [] then [] else Insert(o, InsertionSort(o, s[..|s| - 1]), s[|s| - 1])
  }

  /** Merge two runs; the left head goes first only when strictly before the right one. */
  function MergeRuns(o: Order, l: seq<Range>, r: seq<Range>): seq<Range> {
    if l == [] then r
    else if r == [] then l
    else if Before(o, l[0], r[0]) then [l[0]] + MergeRuns(o, l[1..], r)
    else [r[0]] + MergeRuns(o, l, r[1..])
  }

  function HybridSort(o: Order, s: seq<Range>): seq<Range>
    decreases |s|
  {
    if |s| < MIN_MERGE_SIZE then InsertionSort(o, s)
    else MergeRuns(o, HybridSort(o, s[..|s| / 2]), HybridSort(o, s[|s| / 2..]))
  }

  // ----- permutation, for every order and every table -----

  lemma {:induction false} InsertMultiset(o: Order, s: seq<Range>, x: Range)
    ensures multiset(Insert(o, s, x)) == multiset(s) + multiset{x}
  {
    if s != [] {
      InsertMultiset(o, s[..|s| - 1], x);
      assert s == s[..|s| - 1] + [s[|s| - 1]];
    }
  }

  lemma {:induction false} InsertionSortMultiset(o: Order, s: seq<Range>)
    ensures multiset(InsertionSort(o, s)) == multiset(s)
  {
    if s != [] {
      var init, x := s[..|s| - 1], s[|s| - 1];
      assert s == init + [x];
      InsertionSortMultiset(o, init);
      InsertMultiset(o, InsertionSort(o, init), x);
      assert InsertionSort(o, s) == Insert(o, InsertionSort(o, init), x);
    }
  }

  lemma {:induction false} MergeRunsMultiset(o: Order, l: seq<Range>, r: seq<Range>)
    ensures multiset(MergeRuns(o, l, r)) == multiset(l) + multiset(r)
  {
    if l != [] && r != [] {
      assert l == [l[0]] + l[1..] && r == [r[0]] + r[1..];
      if Before(o, l[0], r[0]) { MergeRunsMultiset(o, l[1..], r); } else { MergeRunsMultiset(o, l, r[1..]); }
    }
  }

  /** Whatever the order, even one that is not an order, no range is lost or invented. */
  lemma {:induction false} SortIsPermutation(o: Order, s: seq<Range>)
    ensures multiset(HybridSort(o, s)) == multiset(s)
    ensures |HybridSort(o, s)| == |s|
    decreases |s|
  {
    if |s| < MIN_MERGE_SIZE {
      InsertionSortMultiset(o, s);
    } else {
      var m := |s| / 2;
      SortIsPermutation(o, s[..m]);
      SortIsPermutation(o, s[m..]);
      MergeRunsMultiset(o, HybridSort(o, s[..m]), HybridSort(o, s[m..]));
      assert s == s[..m] + s[m..];
    }
    assert |HybridSort(o, s)| == |multiset(HybridSort(o, s))|;
  }

  // ----- sortedness and ties -----

  lemma SnocSorted(o: Order, s: seq<Range>, x: Range)
    requires Sorted(o, s) && forall y | y in s :: Chain(o, y, x) <= 0
    ensures Sorted(o, s + [x])
  {
    hide Chain;
  }

  lemma InitSorted(o: Order, s: seq<Range>)
    requires Sorted(o, s) && s != []
    ensures Sorted(o, s[..|s| - 1])
    ensures forall y | y in s :: y == s[|s| - 1] || Chain(o, y, s[|s| - 1]) <= 0
  {
    hide Chain;
  }

  lemma {:induction false} InsertSorted(o: Order, d: set<Range>, s: seq<Range>, x: Range)
    requires WeakOrder(o, d) && Over(d, s) && x in d && Sorted(o, s)
    ensures Sorted(o, Insert(o, s, x))
  {
    hide Chain, WeakOrder, Sorted;
    if s == [] {
      OneSorted(o, x);
    } else {
      var n := |s| - 1;
      ChainSigns(o, s[n], x);
      InitSorted(o, s);
      if Before(o, s[n], x) {
        forall y | y in s ensures Chain(o, y, x) <= 0 {
          if y != s[n] { ChainTransitive(o, d, y, s[n], x); }
        }
        SnocSorted(o, s, x);
      } else {
        InsertSorted(o, d, s[..n], x);
        InsertMultiset(o, s[..n], x);
        forall y | y in Insert(o, s[..n], x) ensures Chain(o, y, s[n]) <= 0 {
          assert y in multiset(Insert(o, s[..n], x));
          if y != x { assert y in s[..n] && y in s; if y == s[n] { ChainSigns(o, y, y); } }
        }
        SnocSorted(o, Insert(o, s[..n], x), s[n]);
      }
    }
  }

  lemma OneSorted(o: Order, x: Range)
    ensures Sorted(o, Insert(o, [], x))
  {
  }

  lemma {:induction false} InsertTies(o: Order, d: set<Range>, s: seq<Range>, x: Range, z: Range)
    requires WeakOrder(o, d) && Over(d, s) && x in d && z in d && Sorted(o, s)
    ensures Ties(o, z, Insert(o, s, x)) == Ties(o, z, [x]) + Ties(o, z, s)
  {
    hide Chain, WeakOrder, Sorted;
    if s != [] {
      var init, last := s[..|s| - 1], s[|s| - 1];
      InitSorted(o, s);
      if Before(o, last, x) {
        TiesConcat(o, z, s, [x]);
        if Chain(o, z, x) == 0 {
          forall y | y in s ensures Chain(o, z, y) != 0 {
            AllBelow(o, d, s, x, y, z);
          }
          NoTies(o, z, s);
        }
      } else {
        InsertTies(o, d, init, x, z);
        TiesConcat(o, z, init, [last]);
        TiesConcat(o, z, Insert(o, init, x), [last]);
        assert s == init + [last];
      }
    }
  }

  /** A tie class cannot reach down across a strict step. */
  lemma AllBelow(o: Order, d: set<Range>, s: seq<Range>, x: Range, y: Range, z: Range)
    requires WeakOrder(o, d) && Over(d, s) && x in d && z in d && Sorted(o, s)
    requires s != [] && Before(o, s[|s| - 1], x) && y in s
    requires Chain(o, z, x) == 0
    ensures Chain(o, z, y) > 0
  {
    hide Chain, WeakOrder;
    var last := s[|s| - 1];
    ChainSigns(o, y, y);
    ChainTransitive(o, d, y, last, x);
    ChainSigns(o, z, x);
    ChainTransitive(o, d, y, x, z);
    ChainSigns(o, y, z);
  }

  lemma PermutationOver(d: set<Range>, s: seq<Range>, t: seq<Range>)
    requires multiset(s) == multiset(t) && Over(d, t)
    ensures Over(d, s)
  {
    forall r | r in s ensures r in d { assert r in multiset(s); }
  }

  /** One round: the next element goes in front of its ties. */
  lemma InsertIsStable(o: Order, d: set<Range>, t: seq<Range>, init: seq<Range>, x: Range)
    requires WeakOrder(o, d) && Over(d, t) && x in d && StableSortOf(o, d, t, Reverse(init))
    ensures StableSortOf(o, d, Insert(o, t, x), Reverse(init + [x]))
  {
    hide Chain, WeakOrder, Sorted, Ties, Insert;
    InsertSorted(o, d, t, x);
    InsertMultiset(o, t, x);
    ReverseConcat(init, [x]);
    assert Reverse([x]) == [x];
    forall z | z in d ensures Ties(o, z, Insert(o, t, x)) == Ties(o, z, [x] + Reverse(init)) {
      InsertTies(o, d, t, x, z);
      TiesConcat(o, z, [x], Reverse(init));
    }
  }

  lemma {:induction false} InsertionSortIsStable(o: Order, d: set<Range>, s: seq<Range>)
    requires WeakOrder(o, d) && Over(d, s)
    ensures StableSortOf(o, d, InsertionSort(o, s), Reverse(s))
  {
    hide Chain, WeakOrder, Insert, SameTies;
    if s == [] {
      NothingSorted(o, d);
    } else {
      var n := |s| - 1;
      assert s == s[..n] + [s[n]];
      InsertionSortIsStable(o, d, s[..n]);
      InsertionSortMultiset(o, s[..n]);
      PermutationOver(d, InsertionSort(o, s[..n]), s[..n]);
      InsertIsStable(o, d, InsertionSort(o, s[..n]), s[..n], s[n]);
    }
  }

  lemma NothingSorted(o: Order, d: set<Range>)
    ensures StableSortOf(o, d, [], [])
  {
  }

  lemma ConsSorted(o: Order, h: Range, s: seq<Range>)
    requires Sorted(o, s) && forall y | y in s :: Chain(o, h, y) <= 0
    ensures Sorted(o, [h] + s)
  {
    hide Chain;
  }

  /** h is not above any element of a sorted table whose head it is not above. */
  lemma NotAboveAll(o: Order, d: set<Range>, h: Range, s: seq<Range>)
    requires WeakOrder(o, d) && Over(d, s) && h in d && Sorted(o, s)
    requires s != [] && Chain(o, h, s[0]) <= 0
    ensures forall y | y in s :: Chain(o, h, y) <= 0
  {
    hide Chain, WeakOrder;
    forall i | 0 <= i < |s| ensures Chain(o, h, s[i]) <= 0 {
      if i > 0 { ChainTransitive(o, d, h, s[0], s[i]); }
    }
  }

  lemma {:induction false} MergeRunsSorted(o: Order, d: set<Range>, l: seq<Range>, r: seq<Range>)
    requires WeakOrder(o, d) && Over(d, l) && Over(d, r) && Sorted(o, l) && Sorted(o, r)
    ensures Sorted(o, MergeRuns(o, l, r))
  {
    hide Chain, WeakOrder, Sorted;
    if l != [] && r != [] {
      ChainSigns(o, l[0], r[0]);
      if Before(o, l[0], r[0]) {
        SortedTail(o, l);
        NotAboveAll(o, d, l[0], r);
        MergeRunsSorted(o, d, l[1..], r);
        ConsMerged(o, l[0], l[1..], r);
      } else {
        SortedTail(o, r);
        NotAboveAll(o, d, r[0], l);
        MergeRunsSorted(o, d, l, r[1..]);
        ConsMerged(o, r[0], l, r[1..]);
      }
    }
  }

  lemma ConsMerged(o: Order, h: Range, l: seq<Range>, r: seq<Range>)
    requires Sorted(o, MergeRuns(o, l, r))
    requires forall y | y in l || y in r :: Chain(o, h, y) <= 0
    ensures Sorted(o, [h] + MergeRuns(o, l, r))
  {
    hide Chain, Sorted;
    MergeRunsMultiset(o, l, r);
    forall y | y in MergeRuns(o, l, r) ensures Chain(o, h, y) <= 0 {
      assert y in multiset(MergeRuns(o, l, r));
    }
    ConsSorted(o, h, MergeRuns(o, l, r));
  }

  lemma {:induction false} MergeRunsTies(o: Order, d: set<Range>, l: seq<Range>, r: seq<Range>, z: Range)
    requires WeakOrder(o, d) && Over(d, l) && Over(d, r) && Sorted(o, l) && Sorted(o, r) && z in d
    ensures Ties(o, z, MergeRuns(o, l, r)) == Ties(o, z, r) + Ties(o, z, l)
  {
    hide Chain, WeakOrder, Sorted;
    if l != [] && r != [] {
      if Before(o, l[0], r[0]) {
        SortedTail(o, l);
        MergeRunsTies(o, d, l[1..], r, z);
        TiesConcat(o, z, [l[0]], MergeRuns(o, l[1..], r));
        if Chain(o, z, l[0]) == 0 {
          forall y | y in r ensures Chain(o, z, y) != 0 {
            AllAbove(o, d, r, l[0], y, z);
          }
          NoTies(o, z, r);
        }
      } else {
        SortedTail(o, r);
        MergeRunsTies(o, d, l, r[1..], z);
        TiesConcat(o, z, [r[0]], MergeRuns(o, l, r[1..]));
      }
    }
  }

  /** A tie class cannot reach up across a strict step. */
  lemma AllAbove(o: Order, d: set<Range>, s: seq<Range>, x: Range, y: Range, z: Range)
    requires WeakOrder(o, d) && Over(d, s) && x in d && z in d && Sorted(o, s)
    requires s != [] && Before(o, x, s[0]) && y in s
    requires Chain(o, z, x) == 0
    ensures Chain(o, z, y) < 0
  {
    hide Chain, WeakOrder;
    ChainSigns(o, y, y);
    ChainTransitive(o, d, x, s[0], y);
    ChainTransitive(o, d, z, x, y);
  }

  /** The sort computes the stable ascending sort of the reversed table: equal ranges come out in
      exactly reversed input order, across both branches and every size. */
  lemma {:induction false} SortIsStableOnReverse(o: Order, d: set<Range>, s: seq<Range>)
    requires WeakOrder(o, d) && Over(d, s)
    ensures StableSortOf(o, d, HybridSort(o, s), Reverse(s))
    decreases |s|
  {
    hide Chain, WeakOrder, Sorted;
    if |s| < MIN_MERGE_SIZE {
      InsertionSortIsStable(o, d, s);
    } else {
      var m := |s| / 2;
      var l, r := HybridSort(o, s[..m]), HybridSort(o, s[m..]);
      SortIsStableOnReverse(o, d, s[..m]);
      SortIsStableOnReverse(o, d, s[m..]);
      SortKeepsOver(o, d, s[..m]);
      SortKeepsOver(o, d, s[m..]);
      SortIsPermutation(o, s);
      ReverseMultiset(s);
      MergeRunsSorted(o, d, l, r);
      assert s == s[..m] + s[m..];
      ReverseConcat(s[..m], s[m..]);
      forall z | z in d ensures Ties(o, z, HybridSort(o, s)) == Ties(o, z, Reverse(s)) {
        MergeRunsTies(o, d, l, r, z);
        TiesConcat(o, z, Reverse(s[m..]), Reverse(s[..m]));
      }
    }
  }

  lemma SortKeepsOver(o: Order, d: set<Range>, s: seq<Range>)
    requires Over(d, s)
    ensures Over(d, HybridSort(o, s))
  {
    hide HybridSort;
    SortIsPermutation(o, s);
    PermutationOver(d, HybridSort(o, s), s);
  }

  /** Any table that is a stable sort of the reversed input is the one the program produces. */
  lemma SortIsTheOnlyOne(o: Order, d: set<Range>, s: seq<Range>, r: seq<Range>)
    requires WeakOrder(o, d) && Over(d, s) && StableSortOf(o, d, r, Reverse(s))
    ensures r == HybridSort(o, s)
  {
    hide Chain, Ties, HybridSort, WeakOrder, Sorted;
    SortIsStableOnReverse(o, d, s);
    SortKeepsOver(o, d, s);
    ReverseMultiset(s);
    PermutationOver(d, r, s);
    StableSortIsUnique(o, d, r, HybridSort(o, s));
  }

  /** The result is the stable sort of the table itself exactly when each class of ties reads the same
      backwards. */
  lemma SortIsStableIff(o: Order, d: set<Range>, s: seq<Range>)
    requires WeakOrder(o, d) && Over(d, s)
    ensures StableSortOf(o, d, HybridSort(o, s), s) <==> forall x | x in d :: Ties(o, x, s) == Reverse(Ties(o, x, s))
  {
    hide Chain, Ties, HybridSort, WeakOrder, Sorted;
    SortIsStableOnReverse(o, d, s);
    ReverseMultiset(s);
    forall x | x in d ensures Ties(o, x, HybridSort(o, s)) == Reverse(Ties(o, x, s)) {
      TiesReverse(o, x, s);
    }
  }

  // ----- compositions -----

  lemma ReverseOfSorted(o: Order, s: seq<Range>)
    requires Sorted(o, s)
    ensures forall i, j | 0 <= i < j < |s| :: Chain(o, Reverse(s)[i], Reverse(s)[j]) >= 0
  {
    hide Chain;
    forall i, j | 0 <= i < j < |s| ensures Chain(o, Reverse(s)[i], Reverse(s)[j]) >= 0 {
      var a, b := s[|s| - 1 - i], s[|s| - 1 - j];
      assert Chain(o, b, a) <= 0;
      ChainSigns(o, b, a);
    }
  }

  lemma ReverseTies(o: Order, d: set<Range>, h: seq<Range>, s: seq<Range>)
    requires SameTies(o, d, h, Reverse(s))
    ensures SameTies(o, d, Reverse(h), s)
  {
    hide Chain, Ties;
    forall x | x in d ensures Ties(o, x, Reverse(h)) == Ties(o, x, s) {
      TiesReverse(o, x, h);
      TiesReverse(o, x, s);
      ReverseReverse(Ties(o, x, s));
    }
  }

  /** The stable descending sort of s. */
  ghost predicate DescendingSortOf(o: Order, d: set<Range>, r: seq<Range>, s: seq<Range>) {
    && (forall i, j | 0 <= i < j < |r| :: Chain(o, r[i], r[j]) >= 0)
    && multiset(r) == multiset(s)
    && SameTies(o, d, r, s)
  }

  /** --reverse: sorting and flipping is the stable descending sort, ties in original order. */
  lemma SortThenFlipIsDescending(o: Order, d: set<Range>, s: seq<Range>)
    requires WeakOrder(o, d) && Over(d, s)
    ensures DescendingSortOf(o, d, Reverse(HybridSort(o, s)), s)
  {
    hide Chain, Ties, HybridSort, WeakOrder;
    SortIsStableOnReverse(o, d, s);
    SortIsPermutation(o, s);
    ReverseMultiset(HybridSort(o, s));
    ReverseOfSorted(o, HybridSort(o, s));
    ReverseTies(o, d, HybridSort(o, s), s);
  }

  /** Sorting twice by the same keys is the stable ascending sort of the original table. */
  lemma SortTwiceIsStable(o: Order, d: set<Range>, s: seq<Range>)
    requires WeakOrder(o, d) && Over(d, s)
    ensures StableSortOf(o, d, HybridSort(o, HybridSort(o, s)), s)
  {
    hide Chain, Ties, HybridSort, WeakOrder, Sorted;
    var h := HybridSort(o, s);
    SortIsStableOnReverse(o, d, s);
    SortIsPermutation(o, s);
    SortKeepsOver(o, d, s);
    SortIsStableOnReverse(o, d, h);
    ReverseMultiset(h);
    ReverseTies(o, d, h, s);
  }

  /** Keys weigh from left to right: sorting by k1 + k2 is sorting by k2, flipping, sorting by k1. */
  lemma KeyListFactors(o: Order, d: set<Range>, k1: seq<Key>, k2: seq<Key>, s: seq<Range>)
    requires WeakOrder(o.(keys := k1), d) && WeakOrder(o.(keys := k2), d) && WeakOrder(o.(keys := k1 + k2), d)
    requires Over(d, s)
    ensures HybridSort(o.(keys := k1 + k2), s) ==
            HybridSort(o.(keys := k1), Reverse(HybridSort(o.(keys := k2), s)))
  {
    hide Chain, Ties, HybridSort, WeakOrder, Sorted;
    var o1, o2, o12 := o.(keys := k1), o.(keys := k2), o.(keys := k1 + k2);
    var t := HybridSort(o2, s);
    var r := HybridSort(o1, Reverse(t));
    SortIsStableOnReverse(o2, d, s);
    SortIsPermutation(o2, s);
    SortIsPermutation(o1, Reverse(t));
    ReverseMultiset(t); ReverseMultiset(s);
    ReverseReverse(t);
    PermutationOver(d, Reverse(t), s);
    PermutationOver(d, r, s);
    SortIsStableOnReverse(o1, d, Reverse(t));
    SortedByBoth(o, d, k1, k2, r, t);
    forall x | x in d ensures Ties(o12, x, r) == Ties(o12, x, Reverse(s)) {
      TiesOfConcat(o, k1, k2, x, r);
      TiesOfConcat(o, k1, k2, x, t);
      TiesOfConcat(o, k1, k2, x, Reverse(s));
    }
    SortIsTheOnlyOne(o12, d, s, r);
  }
}

/** The laws of the sort on the tables it is given: mergesort_ranges runs after do_counting
    (src/dhcpd-pools.c), so the counters of all ranges come from one lease list.  On such a table every
    key list is a strict weak order, whatever sizes and percentages occur in it. */
module CountedTables {
  import opened Address
  import opened Pools
  import opened Ordering
  import opened StableSort
  import opened Sorting
  import opened Tally

  /** A range as the sweep leaves it. */
  predicate CountedRange(ver: Version, leases: seq<Lease>, r: Range) {
    && r.first <= r.last && InSpace(ver, r.last)
    && r.count == Count(leases, r.first, r.last, ACTIVE)
    && r.touched == Count(leases, r.first, r.last, FREE)
    && r.backups == Count(leases, r.first, r.last, BACKUP)
  }

  ghost predicate CountedTable(ver: Version, leases: seq<Lease>, s: seq<Range>) {
    forall r | r in s :: CountedRange(ver, leases, r)
  }

  /** What lies in an interval lies in every larger one. */
  lemma {:induction false} CountMonotone(leases: seq<Lease>, first: Addr, last: Addr, first': Addr, last': Addr,
                                         kind: LeaseType)
    requires first' <= first && last <= last'
    ensures Count(leases, first, last, kind) <= Count(leases, first', last', kind)
  {
    if leases != [] { CountMonotone(leases[..|leases| - 1], first, last, first', last', kind); }
  }

  /** The sweep leaves a counted table. */
  lemma SweepLeavesCounted(ver: Version, leases: seq<Lease>, rs: seq<Range>, out: seq<Range>)
    requires AllCounted(leases, rs, out) && ZeroCounters(rs)
    requires forall r | r in rs :: r.first <= r.last && InSpace(ver, r.last)
    ensures CountedTable(ver, leases, out)
  {
    hide Count;
    forall r | r in out ensures CountedRange(ver, leases, r) {
      var i :| 0 <= i < |out| && out[i] == r;
      assert rs[i] in rs;
    }
  }

  // ----- one key -----

  /** A key without a value on r: a percentage of the full IPv4 space with nothing to count. */
  lemma UndefinedKey(o: Order, k: Key, r: Range)
    requires r.first <= r.last && InSpace(o.ver, r.last) && !Defined(o, k, r)
    ensures o.ver == IPv4 && r.first == 0 && r.last == SPACE4 - 1 && r.count == 0
    ensures k == ByPercent || (k == ByTcPercent && r.touched == 0)
  {
  }

  /** Where nothing is counted the percentage is 0 or undefined, and ties with any such. */
  lemma ZerosTie(o: Order, k: Key, a: Range, b: Range)
    requires k == ByPercent || (k == ByTcPercent && a.touched == b.touched == 0)
    requires a.count == b.count == 0
    ensures Compare(o, k, a, b) == 0
  {
    hide RangeSize;
    ZeroRatio(SizeOf(o.ver, a));
    ZeroRatio(SizeOf(o.ver, b));
  }

  lemma ZeroRatio(d: int)
    ensures Ratio(0, d) == Num(0.0) || Ratio(0, d) == NaN
  {
    if d != 0 { assert 0.0 / d as real == 0.0; }
  }

  /** If the full IPv4 space has nothing to count, no range has. */
  lemma UndefinedTiesAll(o: Order, leases: seq<Lease>, k: Key, u: Range, a: Range, b: Range)
    requires CountedRange(o.ver, leases, u) && !Defined(o, k, u)
    requires CountedRange(o.ver, leases, a) && CountedRange(o.ver, leases, b)
    ensures Compare(o, k, a, b) == 0
  {
    hide Count, Compare, Defined;
    UndefinedKey(o, k, u);
    forall kind, r | r in {a, b}
      ensures Count(leases, r.first, r.last, kind) <= Count(leases, u.first, u.last, kind)
    {
      CountMonotone(leases, r.first, r.last, u.first, u.last, kind);
    }
    ZerosTie(o, k, a, b);
  }

  lemma CountedKeyIsWeak(o: Order, leases: seq<Lease>, k: Key, d: set<Range>)
    requires forall r | r in d :: CountedRange(o.ver, leases, r)
    ensures KeyWeak(o, k, d)
  {
    hide CountedRange, Defined, Compare;
    if forall r | r in d :: Defined(o, k, r) {
      DefinedIsWeak(o, k, d);
    } else {
      var u :| u in d && !Defined(o, k, u);
      forall a, b, c | a in d && b in d && c in d ensures KeyTransits(o, k, a, b, c) {
        UndefinedTiesAll(o, leases, k, u, a, c);
      }
    }
  }

  // ----- every key list -----

  lemma CountedIsWeak(o: Order, leases: seq<Lease>, s: seq<Range>)
    requires CountedTable(o.ver, leases, s)
    ensures WeakOrder(o, Elements(s)) && Over(Elements(s), s)
  {
    hide CountedRange, WeakOrder, KeyWeak;
    forall k | k in o.keys ensures KeyWeak(o, k, Elements(s)) {
      CountedKeyIsWeak(o, leases, k, Elements(s));
    }
    ChainIsWeak(o, Elements(s));
  }

  /** `merge` is a strict weak order on counted ranges, for every key list. */
  lemma MergeIsStrictWeakOrder(o: Order, leases: seq<Lease>, a: Range, b: Range, c: Range)
    requires CountedTable(o.ver, leases, [a, b, c])
    ensures !Before(o, a, a)
    ensures Before(o, a, b) && Before(o, b, c) ==> Before(o, a, c)
    ensures Tied(o, a, b) && Tied(o, b, c) ==> Tied(o, a, c)
  {
    hide CountedTable, Before, WeakOrder;
    CountedIsWeak(o, leases, [a, b, c]);
    StrictWeakOrder(o, Elements([a, b, c]), a, b, c);
  }

  /** Equal ranges come out in reversed order: the sort is the stable sort of the reversed table. */
  lemma CountedSort(o: Order, leases: seq<Lease>, s: seq<Range>)
    requires CountedTable(o.ver, leases, s)
    ensures StableSortOf(o, Elements(s), HybridSort(o, s), Reverse(s))
  {
    hide CountedTable, WeakOrder, StableSortOf;
    CountedIsWeak(o, leases, s);
    SortIsStableOnReverse(o, Elements(s), s);
  }

  lemma CountedSortIsTheOnlyOne(o: Order, leases: seq<Lease>, s: seq<Range>, r: seq<Range>)
    requires CountedTable(o.ver, leases, s)
    ensures StableSortOf(o, Elements(s), r, Reverse(s)) <==> r == HybridSort(o, s)
  {
    hide CountedTable, WeakOrder, StableSortOf;
    CountedSort(o, leases, s);
    CountedIsWeak(o, leases, s);
    if StableSortOf(o, Elements(s), r, Reverse(s)) { SortIsTheOnlyOne(o, Elements(s), s, r); }
  }

  /** Sort and flip: the stable descending sort. */
  lemma CountedSortThenFlip(o: Order, leases: seq<Lease>, s: seq<Range>)
    requires CountedTable(o.ver, leases, s)
    ensures DescendingSortOf(o, Elements(s), Reverse(HybridSort(o, s)), s)
  {
    hide CountedTable, WeakOrder, DescendingSortOf;
    CountedIsWeak(o, leases, s);
    SortThenFlipIsDescending(o, Elements(s), s);
  }

  lemma CountedSortTwice(o: Order, leases: seq<Lease>, s: seq<Range>)
    requires CountedTable(o.ver, leases, s)
    ensures StableSortOf(o, Elements(s), HybridSort(o, HybridSort(o, s)), s)
  {
    hide CountedTable, WeakOrder, StableSortOf;
    CountedIsWeak(o, leases, s);
    SortTwiceIsStable(o, Elements(s), s);
  }

  /** Keys weigh from left to right. */
  lemma CountedKeyListFactors(o: Order, leases: seq<Lease>, k1: seq<Key>, k2: seq<Key>, s: seq<Range>)
    requires CountedTable(o.ver, leases, s)
    ensures HybridSort(o.(keys := k1 + k2), s) ==
            HybridSort(o.(keys := k1), Reverse(HybridSort(o.(keys := k2), s)))
  {
    hide CountedTable, WeakOrder, HybridSort;
    CountedIsWeak(o.(keys := k1), leases, s);
    CountedIsWeak(o.(keys := k2), leases, s);
    CountedIsWeak(o.(keys := k1 + k2), leases, s);
    KeyListFactors(o, Elements(s), k1, k2, s);
  }

  // ----- the claim of stability -----

  /** When the sort is stable: each class of ties reads the same backwards, which for a table without
      repeated entries means that no two of them tie. */
  lemma CountedSortIsStableIff(o: Order, leases: seq<Lease>, s: seq<Range>)
    requires CountedTable(o.ver, leases, s)
    ensures StableSortOf(o, Elements(s), HybridSort(o, s), s) <==>
              forall x | x in s :: Ties(o, x, s) == Reverse(Ties(o, x, s))
    ensures Distinct(s) ==> (StableSortOf(o, Elements(s), HybridSort(o, s), s) <==> NoTwoTied(o, s))
  {
    hide CountedTable, WeakOrder, StableSortOf, Ties, NoTwoTied;
    CountedIsWeak(o, leases, s);
    SortIsStableIff(o, Elements(s), s);
    if Distinct(s) { PalindromeIff(o, Elements(s), s); }
  }

  const TEN := Range(0, 1, 10, 0, 0, 0)
  const OTHER_TEN := Range(0, 11, 20, 0, 0, 0)
  const BY_SIZE := Order(IPv4, [], [ByMax])

  /** A table it fails on: two ranges of ten addresses sorted by size change places. */
  lemma TiedPairIsReversed()
    ensures CountedTable(IPv4, [], [TEN, OTHER_TEN])
    ensures HybridSort(BY_SIZE, [TEN, OTHER_TEN]) == [OTHER_TEN, TEN]
    ensures !StableSortOf(BY_SIZE, Elements([TEN, OTHER_TEN]), HybridSort(BY_SIZE, [TEN, OTHER_TEN]), [TEN, OTHER_TEN])
  {
    hide Ties, Sorted, HybridSort;
    var s := [TEN, OTHER_TEN];
    assert Chain(BY_SIZE, TEN, OTHER_TEN) == 0 && !Before(BY_SIZE, TEN, OTHER_TEN);
    SortOfTwo(BY_SIZE, TEN, OTHER_TEN);
    assert Distinct(s) && s[0] == TEN && s[1] == OTHER_TEN;
    CountedSortIsStableIff(BY_SIZE, [], s);
  }

  lemma SortOfTwo(o: Order, x: Range, y: Range)
    requires !Before(o, x, y)
    ensures HybridSort(o, [x, y]) == [y, x]
  {
    assert [x, y][..1] == [x] && [x][..0] == [];
    assert InsertionSort(o, [x]) == [x];
    assert Insert(o, [x], y) == [y, x];
  }
}

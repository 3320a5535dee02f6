/** The order of the printed table (main in src/dhcpd-pools.c): prepare_data sorts by address, then come
    the optional sort by keys and the optional flip. */
module PrintOrder {
  import opened Address
  import opened Pools
  import opened Ordering
  import opened StableSort
  import opened Sorting
  import opened Preparation
  import opened CountedTables

  /** The table after the optional sort and the optional flip. */
  function Arranged(o: Order, reverse: bool, rs: seq<Range>): seq<Range> {
    var sorted := if o.keys == [] then rs else HybridSort(o, rs);
    if reverse then Reverse(sorted) else sorted
  }

  lemma ArrangedIsPermutation(o: Order, reverse: bool, rs: seq<Range>)
    ensures multiset(Arranged(o, reverse, rs)) == multiset(rs)
  {
    hide HybridSort;
    SortIsPermutation(o, rs);
    ReverseMultiset(HybridSort(o, rs));
    ReverseMultiset(rs);
  }

  /** a may be printed above b: without keys the lower first address comes first; with keys the range
      that is smaller by them, and of ties the one with the higher first address. */
  predicate Above(o: Order, a: Range, b: Range) {
    if o.keys == [] then a.first <= b.first
    else Chain(o, a, b) < 0 || (Chain(o, a, b) == 0 && a.first >= b.first)
  }

  ghost predicate InPrintOrder(o: Order, reverse: bool, out: seq<Range>) {
    forall i, j | 0 <= i < j < |out| :: if reverse then Above(o, out[j], out[i]) else Above(o, out[i], out[j])
  }

  // ----- the order the program produces -----

  lemma SortedByIp(ver: Version, s: seq<Range>)
    ensures RangesSorted(ver, s) <==> Sorted(IpOrder(ver), s)
    ensures RangesSorted(ver, s) <==> forall i, j | 0 <= i < j < |s| :: s[i].first <= s[j].first
  {
    hide Chain, IpComp;
    forall i, j | 0 <= i < j < |s|
      ensures Chain(IpOrder(ver), s[i], s[j]) == IpComp(ver, s[i].first, s[j].first)
    {
      ChainByIp(ver, s[i], s[j]);
    }
  }

  /** The ties of a table sorted by address come out of the sort by descending address. */
  lemma TiesDescend(o: Order, d: set<Range>, s: seq<Range>, i: nat, j: nat)
    requires RangesSorted(o.ver, s) && StableSortOf(o, d, HybridSort(o, s), Reverse(s)) && Over(d, HybridSort(o, s))
    requires i < j < |HybridSort(o, s)| && Chain(o, HybridSort(o, s)[i], HybridSort(o, s)[j]) == 0
    ensures HybridSort(o, s)[i].first >= HybridSort(o, s)[j].first
  {
    hide Chain, HybridSort, IpComp, RangesSorted;
    var h := HybridSort(o, s);
    ChainSigns(o, h[i], h[i]);
    var k, l := TiesKeepOrder(o, h[i], h, i, j);
    var t := Ties(o, h[i], s);
    TiesReverse(o, h[i], s);
    assert Ties(o, h[i], h) == Reverse(t);
    SortedByIp(o.ver, s);
    SortedTies(o, IpOrder(o.ver), h[i], s);
    SortedByIp(o.ver, t);
    assert t[|t| - 1 - l].first <= t[|t| - 1 - k].first;
  }

  lemma SortedInPrintOrder(o: Order, leases: seq<Lease>, s: seq<Range>)
    requires o.keys != [] && RangesSorted(o.ver, s) && CountedTable(o.ver, leases, s)
    ensures InPrintOrder(o, false, HybridSort(o, s))
  {
    hide Chain, HybridSort, CountedTable, RangesSorted, WeakOrder;
    var h := HybridSort(o, s);
    CountedSort(o, leases, s);
    CountedIsWeak(o, leases, s);
    SortKeepsOver(o, Elements(s), s);
    forall i, j | 0 <= i < j < |h| ensures Above(o, h[i], h[j]) {
      assert Chain(o, h[i], h[j]) <= 0;
      if Chain(o, h[i], h[j]) == 0 { TiesDescend(o, Elements(s), s, i, j); }
    }
  }

  lemma FlipInPrintOrder(o: Order, s: seq<Range>)
    requires InPrintOrder(o, false, s)
    ensures InPrintOrder(o, true, Reverse(s))
  {
    hide Above;
  }

  /** What is printed: the counted table, which came in sorted by address, in print order. */
  lemma ArrangedInPrintOrder(o: Order, reverse: bool, leases: seq<Lease>, rs: seq<Range>)
    requires RangesSorted(o.ver, rs) && CountedTable(o.ver, leases, rs)
    ensures InPrintOrder(o, reverse, Arranged(o, reverse, rs))
  {
    hide Chain, HybridSort, CountedTable, RangesSorted;
    if o.keys == [] { SortedByIp(o.ver, rs); } else { SortedInPrintOrder(o, leases, rs); }
    FlipInPrintOrder(o, if o.keys == [] then rs else HybridSort(o, rs));
  }

  // ----- the order determines the table -----

  ghost predicate DistinctFirsts(s: seq<Range>) {
    forall i, j | 0 <= i < j < |s| :: s[i].first != s[j].first
  }

  lemma DistinctPermutes(s: seq<Range>, t: seq<Range>)
    requires multiset(s) == multiset(t) && DistinctFirsts(s)
    ensures DistinctFirsts(t)
  {
    forall i, j | 0 <= i < j < |t| ensures t[i].first != t[j].first {
      var k, l := Mates(s, t, i, j);
    }
  }

  /** Of two ranges with different first addresses only one may be printed above the other. */
  lemma AboveOneWay(o: Order, a: Range, b: Range)
    requires Above(o, a, b) && Above(o, b, a)
    ensures a.first == b.first
  {
    hide Chain;
    ChainSigns(o, a, b);
    ChainSigns(o, b, a);
  }

  lemma SameHead(o: Order, reverse: bool, s: seq<Range>, t: seq<Range>)
    requires s != [] && multiset(s) == multiset(t) && DistinctFirsts(s)
    requires InPrintOrder(o, reverse, s) && InPrintOrder(o, reverse, t)
    ensures t != [] && t[0] == s[0]
  {
    hide Above;
    var j := FindSame(s, t, s[0]);
    var i := FindSame(t, s, t[0]);
    if i > 0 && j > 0 {
      if reverse { AboveOneWay(o, s[i], s[0]); } else { AboveOneWay(o, s[0], s[i]); }
    }
  }

  lemma WithoutHead(s: seq<Range>, t: seq<Range>)
    requires s != [] && t != [] && s[0] == t[0] && multiset(s) == multiset(t)
    ensures multiset(s[1..]) == multiset(t[1..])
  {
    HeadOut(s);
    HeadOut(t);
    Cancel(multiset(s[1..]), multiset(t[1..]), s[0]);
  }

  lemma TailInPrintOrder(o: Order, reverse: bool, s: seq<Range>)
    requires s != [] && InPrintOrder(o, reverse, s)
    ensures InPrintOrder(o, reverse, s[1..])
  {
    hide Above;
  }

  /** Two permutations in print order are equal when first addresses are distinct. */
  lemma {:induction false} PrintOrderDetermines(o: Order, reverse: bool, s: seq<Range>, t: seq<Range>)
    requires multiset(s) == multiset(t) && DistinctFirsts(s)
    requires InPrintOrder(o, reverse, s) && InPrintOrder(o, reverse, t)
    ensures s == t
  {
    hide InPrintOrder;
    assert |s| == |multiset(s)| == |multiset(t)| == |t|;
    if s != [] {
      SameHead(o, reverse, s, t);
      WithoutHead(s, t);
      TailInPrintOrder(o, reverse, s);
      TailInPrintOrder(o, reverse, t);
      assert DistinctFirsts(s[1..]) by { DistinctTail(s); }
      PrintOrderDetermines(o, reverse, s[1..], t[1..]);
      assert s == [s[0]] + s[1..] && t == [t[0]] + t[1..];
    }
  }

  lemma DistinctTail(s: seq<Range>)
    requires s != [] && DistinctFirsts(s)
    ensures DistinctFirsts(s[1..])
  {
  }

  /** The table a run prints for the counted ranges rs, listed in any order. */
  function Printed(o: Order, reverse: bool, rs: seq<Range>): seq<Range> {
    Arranged(o, reverse, HybridSort(IpOrder(o.ver), rs))
  }

  lemma CountedPermutes(ver: Version, leases: seq<Lease>, s: seq<Range>, t: seq<Range>)
    requires multiset(s) == multiset(t) && CountedTable(ver, leases, s)
    ensures CountedTable(ver, leases, t)
  {
    hide CountedRange;
    forall r | r in t ensures CountedRange(ver, leases, r) { assert r in multiset(t); }
  }

  /** A permutation of counted ranges is the printed table exactly when it is in print order. */
  lemma PrintedIff(o: Order, reverse: bool, leases: seq<Lease>, rs: seq<Range>, out: seq<Range>)
    requires CountedTable(o.ver, leases, rs) && DistinctFirsts(rs) && multiset(out) == multiset(rs)
    ensures InPrintOrder(o, reverse, out) <==> out == Printed(o, reverse, rs)
  {
    hide InPrintOrder, CountedTable, HybridSort, Arranged, RangesSorted;
    var w := HybridSort(IpOrder(o.ver), rs);
    HybridSortByIp(o.ver, rs);
    CountedPermutes(o.ver, leases, rs, w);
    ArrangedInPrintOrder(o, reverse, leases, w);
    ArrangedIsPermutation(o, reverse, w);
    DistinctPermutes(rs, out);
    if InPrintOrder(o, reverse, out) { PrintOrderDetermines(o, reverse, out, Printed(o, reverse, rs)); }
  }
}

/** prepare_data: sort the lease hash and the range table (src/analyze.c).  HASH_SORT and qsort are
    library code; any result they may give is covered: sorted by the comparator, a permutation. */
module Preparation {
  import opened Address
  import opened Pools
  import opened Ordering
  import opened StableSort
  import opened Sorting
  import opened LeaseLog
  import opened Tally

  // ----- leases -----

  /** leasecomp never finds a later lease below an earlier one. */
  predicate LeasesSorted(ver: Version, s: seq<Lease>) {
    forall i, j | 0 <= i < j < |s| :: IpComp(ver, s[i].ip, s[j].ip) <= 0
  }

  function InsertLease(s: seq<Lease>, x: Lease): seq<Lease> {
    if s == [] || s[|s| - 1].ip <= x.ip then s + [x]
    else InsertLease(s[..|s| - 1], x) + [s[|s| - 1]]
  }

  function SortLeases(s: seq<Lease>): seq<Lease> {
    if s == [] then [] else InsertLease(SortLeases(s[..|s| - 1]), s[|s| - 1])
  }

  lemma {:induction false} InsertLeaseMultiset(s: seq<Lease>, x: Lease)
    ensures multiset(InsertLease(s, x)) == multiset(s) + multiset{x}
  {
    if s != [] {
      InsertLeaseMultiset(s[..|s| - 1], x);
      assert s == s[..|s| - 1] + [s[|s| - 1]];
    }
  }

  lemma SortedSnoc(ver: Version, s: seq<Lease>, x: Lease)
    requires LeasesSorted(ver, s) && forall y | y in s :: y.ip <= x.ip
    ensures LeasesSorted(ver, s + [x])
  {
    hide IpComp;
  }

  lemma {:induction false} InsertLeaseSorts(ver: Version, s: seq<Lease>, x: Lease)
    requires LeasesSorted(ver, s)
    ensures LeasesSorted(ver, InsertLease(s, x))
  {
    hide IpComp;
    if s != [] {
      var n := |s| - 1;
      forall i | 0 <= i < |s| ensures s[i].ip <= s[n].ip {
        assert i < n ==> IpComp(ver, s[i].ip, s[n].ip) <= 0;
      }
      if s[n].ip <= x.ip {
        SortedSnoc(ver, s, x);
      } else {
        InsertLeaseSorts(ver, s[..n], x);
        InsertLeaseMultiset(s[..n], x);
        forall y | y in InsertLease(s[..n], x) ensures y.ip <= s[n].ip {
          assert y in multiset(InsertLease(s[..n], x));
        }
        SortedSnoc(ver, InsertLease(s[..n], x), s[n]);
      }
    }
  }

  lemma {:induction false} SortLeasesSorts(ver: Version, s: seq<Lease>)
    ensures LeasesSorted(ver, SortLeases(s)) && multiset(SortLeases(s)) == multiset(s)
  {
    hide IpComp, InsertLease;
    if s != [] {
      var n := |s| - 1;
      SortLeasesSorts(ver, s[..n]);
      InsertLeaseSorts(ver, SortLeases(s[..n]), s[n]);
      InsertLeaseMultiset(SortLeases(s[..n]), s[n]);
      assert s == s[..n] + [s[n]];
    }
  }

  /** A sorted permutation of a table with unique addresses is strictly ascending. */
  lemma SortedUniqueAscends(ver: Version, s: seq<Lease>, t: seq<Lease>)
    requires Unique(t) && multiset(s) == multiset(t) && LeasesSorted(ver, s)
    ensures Ascending(s)
  {
    hide IpComp;
    forall i, j | 0 <= i < j < |s| ensures s[i].ip < s[j].ip {
      var k, l := Mates(t, s, i, j);
      assert IpComp(ver, s[i].ip, s[j].ip) <= 0;
    }
  }

  lemma PermutationRepresents(s: seq<Lease>, t: seq<Lease>, m: map<Addr, LeaseType>)
    requires multiset(s) == multiset(t) && Ascending(s) && Represents(t, m)
    ensures Represents(s, m)
  {
    forall i | 0 <= i < |s| ensures s[i].ip in m && m[s[i].ip] == s[i].kind {
      assert s[i] in multiset(t);
      var k :| 0 <= k < |t| && t[k] == s[i];
    }
    forall a | a in m ensures exists i :: 0 <= i < |s| && s[i].ip == a {
      var k :| 0 <= k < |t| && t[k].ip == a;
      assert t[k] in multiset(s);
      var i :| 0 <= i < |s| && s[i] == t[k];
      assert s[i].ip == a;
    }
  }

  /** HASH_SORT(leases, leasecomp). */
  method HashSort(ver: Version, table: LeaseTable)
    requires Unique(table.entries)
    modifies table
    ensures Ascending(table.entries)
    ensures multiset(table.entries) == multiset(old(table.entries))
    ensures forall m :: old(Represents(table.entries, m)) ==> Represents(table.entries, m)
  {
    hide IpComp;
    ghost var was := table.entries;
    SortLeasesSorts(ver, was);
    var sorted: seq<Lease> := *;
    if !(LeasesSorted(ver, sorted) && multiset(sorted) == multiset(table.entries)) {
      sorted := SortLeases(table.entries);
    }
    table.entries := sorted;
    SortedUniqueAscends(ver, sorted, was);
    forall m | Represents(was, m) ensures Represents(sorted, m) {
      PermutationRepresents(sorted, was, m);
    }
  }

  // ----- ranges -----

  /** rangecomp never finds a later range below an earlier one. */
  predicate RangesSorted(ver: Version, s: seq<Range>) {
    forall i, j | 0 <= i < j < |s| :: IpComp(ver, s[i].first, s[j].first) <= 0
  }

  /** The order of rangecomp as a key list. */
  function IpOrder(ver: Version): Order {
    Order(ver, [], [ByIp])
  }

  lemma IpIsWeak(ver: Version, d: set<Range>)
    ensures WeakOrder(IpOrder(ver), d)
  {
    hide IpComp;
    DefinedIsWeak(IpOrder(ver), ByIp, d);
    ChainIsWeak(IpOrder(ver), d);
  }

  lemma ChainByIp(ver: Version, a: Range, b: Range)
    ensures Chain(IpOrder(ver), a, b) == IpComp(ver, a.first, b.first)
  {
    hide IpComp;
  }

  lemma HybridSortByIp(ver: Version, s: seq<Range>)
    ensures var w := HybridSort(IpOrder(ver), s);
            RangesSorted(ver, w) && multiset(w) == multiset(s)
  {
    hide IpComp, Chain, HybridSort, WeakOrder, Ties;
    var w := HybridSort(IpOrder(ver), s);
    IpIsWeak(ver, Elements(s));
    SortIsStableOnReverse(IpOrder(ver), Elements(s), s);
    SortIsPermutation(IpOrder(ver), s);
    forall i, j | 0 <= i < j < |w| ensures IpComp(ver, w[i].first, w[j].first) <= 0 {
      assert Chain(IpOrder(ver), w[i], w[j]) <= 0;
      ChainByIp(ver, w[i], w[j]);
    }
  }

  /** qsort(ranges, num_ranges, rangecomp): not stable, so any sorted permutation. */
  method QsortRanges(ver: Version, ranges: array<Range>, numRanges: nat)
    requires numRanges <= ranges.Length
    modifies ranges
    ensures RangesSorted(ver, ranges[..numRanges])
    ensures multiset(ranges[..numRanges]) == multiset(old(ranges[..numRanges]))
    ensures forall k | numRanges <= k < ranges.Length :: ranges[k] == old(ranges[k])
  {
    hide IpComp;
    ghost var was := ranges[..numRanges];
    var sorted: seq<Range> := *;
    if !(RangesSorted(ver, sorted) && multiset(sorted) == multiset(ranges[..numRanges])) {
      HybridSortByIp(ver, ranges[..numRanges]);
      sorted := HybridSort(IpOrder(ver), ranges[..numRanges]);
    }
    assert |sorted| == |multiset(sorted)| == numRanges;
    forall k | 0 <= k < numRanges {
      ranges[k] := sorted[k];
    }
    assert ranges[..numRanges] == sorted;
  }

  method PrepareData(ver: Version, table: LeaseTable, ranges: array<Range>, numRanges: nat)
    requires Unique(table.entries) && numRanges <= ranges.Length
    modifies table, ranges
    ensures Ascending(table.entries)
    ensures forall m :: old(Represents(table.entries, m)) ==> Represents(table.entries, m)
    ensures RangesSorted(ver, ranges[..numRanges])
    ensures multiset(ranges[..numRanges]) == multiset(old(ranges[..numRanges]))
    ensures forall k | numRanges <= k < ranges.Length :: ranges[k] == old(ranges[k])
  {
    hide IpComp, Represents;
    HashSort(ver, table);
    QsortRanges(ver, ranges, numRanges);
  }
}

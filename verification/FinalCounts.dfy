/** What a run should report: for each declared range and each network, the numbers of addresses by their
    last recorded state; and the proof that the counted tables hold exactly that. */
module FinalCounts {
  import opened Address
  import opened Pools
  import opened LeaseLog
  import opened Tally
  import opened CountedTables
  import opened PrintOrder
  import Counting

  /** The distinct addresses of r whose last recorded state is `kind`. */
  ghost function Last(m: map<Addr, LeaseType>, r: Range, kind: LeaseType): nat {
    |Addresses(m, r.first, r.last, kind)|
  }

  ghost function FinalRange(m: map<Addr, LeaseType>, r: Range): Range {
    r.(count := Last(m, r, ACTIVE), touched := Last(m, r, FREE), backups := Last(m, r, BACKUP))
  }

  ghost function FinalRanges(m: map<Addr, LeaseType>, rs: seq<Range>): seq<Range> {
    if rs == [] then [] else FinalRanges(m, rs[..|rs| - 1]) + [FinalRange(m, rs[|rs| - 1])]
  }

  lemma {:induction false} FinalRangesAt(m: map<Addr, LeaseType>, rs: seq<Range>)
    ensures |FinalRanges(m, rs)| == |rs|
    ensures forall k | 0 <= k < |rs| :: FinalRanges(m, rs)[k] == FinalRange(m, rs[k])
  {
    hide FinalRange;
    if rs != [] { FinalRangesAt(m, rs[..|rs| - 1]); }
  }

  /** The sum of one state over the ranges in scope. */
  ghost function LastIn(m: map<Addr, LeaseType>, rs: seq<Range>, scope: Scope, kind: LeaseType): nat {
    if rs == [] then 0
    else LastIn(m, rs[..|rs| - 1], scope, kind) + if scope.Has(rs[|rs| - 1]) then Last(m, rs[|rs| - 1], kind) else 0
  }

  ghost function FinalNet(ver: Version, m: map<Addr, LeaseType>, rs: seq<Range>, k: nat, name: string): Net {
    Net(name, ScopeSize(ver, rs, Of(k)), LastIn(m, rs, Of(k), ACTIVE), LastIn(m, rs, Of(k), FREE),
        LastIn(m, rs, Of(k), BACKUP))
  }

  /** The shared networks 1, 2, ... named by names[1], names[2], ... */
  ghost function FinalNets(ver: Version, m: map<Addr, LeaseType>, rs: seq<Range>, names: seq<string>): seq<Net>
    requires names != []
  {
    if |names| == 1 then []
    else
      var n := |names| - 1;
      FinalNets(ver, m, rs, names[..n]) + [FinalNet(ver, m, rs, n, names[n])]
  }

  lemma {:induction false} FinalNetsAt(ver: Version, m: map<Addr, LeaseType>, rs: seq<Range>, names: seq<string>)
    requires names != []
    ensures |FinalNets(ver, m, rs, names)| == |names| - 1
    ensures forall k | 0 <= k < |names| - 1 ::
              FinalNets(ver, m, rs, names)[k] == FinalNet(ver, m, rs, k + 1, names[k + 1])
  {
    hide FinalNet;
    if |names| > 1 { FinalNetsAt(ver, m, rs, names[..|names| - 1]); }
  }

  /** "All networks": every range counts, and the backups of ranges outside shared networks twice. */
  ghost function FinalTotal(ver: Version, m: map<Addr, LeaseType>, rs: seq<Range>, name: string): Net {
    Net(name, ScopeSize(ver, rs, All), LastIn(m, rs, All, ACTIVE), LastIn(m, rs, All, FREE),
        LastIn(m, rs, All, BACKUP) + LastIn(m, rs, Of(0), BACKUP))
  }

  /** Every range has a size that an unsigned long holds. */
  ghost predicate AllFit(ver: Version, rs: seq<Range>) {
    forall r | r in rs :: 0 <= SizeOf(ver, r) < 0x1_0000_0000_0000_0000
  }

  // ----- the sums do not depend on the order of the ranges -----

  lemma {:induction false} ScopeCountSplit(leases: seq<Lease>, s: seq<Range>, t: seq<Range>, scope: Scope,
                                           kind: LeaseType)
    ensures ScopeCount(leases, s + t, scope, kind) ==
            ScopeCount(leases, s, scope, kind) + ScopeCount(leases, t, scope, kind)
  {
    hide Count;
    if t == [] {
      assert s + t == s;
    } else {
      assert (s + t)[..|s + t| - 1] == s + t[..|t| - 1];
      ScopeCountSplit(leases, s, t[..|t| - 1], scope, kind);
    }
  }

  lemma ScopeCountWithout(leases: seq<Lease>, t: seq<Range>, i: nat, scope: Scope, kind: LeaseType)
    requires i < |t|
    ensures ScopeCount(leases, t, scope, kind) ==
            ScopeCount(leases, t[..i] + t[i + 1..], scope, kind)
            + if scope.Has(t[i]) then Count(leases, t[i].first, t[i].last, kind) else 0
  {
    hide Count;
    assert t == t[..i + 1] + t[i + 1..] && t[..i + 1][..i] == t[..i];
    ScopeCountSplit(leases, t[..i + 1], t[i + 1..], scope, kind);
    ScopeCountSplit(leases, t[..i], t[i + 1..], scope, kind);
  }

  lemma {:induction false} ScopeCountPermutes(leases: seq<Lease>, s: seq<Range>, t: seq<Range>, scope: Scope,
                                              kind: LeaseType)
    requires multiset(s) == multiset(t)
    ensures ScopeCount(leases, s, scope, kind) == ScopeCount(leases, t, scope, kind)
  {
    hide Count;
    if s == [] {
      assert |multiset(t)| == 0;
    } else {
      var i := RemoveSame(s, t);
      ScopeCountPermutes(leases, s[..|s| - 1], t[..i] + t[i + 1..], scope, kind);
      ScopeCountWithout(leases, t, i, scope, kind);
    }
  }

  lemma {:induction false} ScopeSizeSplit(ver: Version, s: seq<Range>, t: seq<Range>, scope: Scope)
    ensures ScopeSize(ver, s + t, scope) == ScopeSize(ver, s, scope) + ScopeSize(ver, t, scope)
  {
    hide SizeOf;
    if t == [] {
      assert s + t == s;
    } else {
      assert (s + t)[..|s + t| - 1] == s + t[..|t| - 1];
      ScopeSizeSplit(ver, s, t[..|t| - 1], scope);
    }
  }

  lemma ScopeSizeWithout(ver: Version, t: seq<Range>, i: nat, scope: Scope)
    requires i < |t|
    ensures ScopeSize(ver, t, scope) ==
            ScopeSize(ver, t[..i] + t[i + 1..], scope) + if scope.Has(t[i]) then SizeOf(ver, t[i]) else 0
  {
    hide SizeOf;
    assert t == t[..i + 1] + t[i + 1..] && t[..i + 1][..i] == t[..i];
    ScopeSizeSplit(ver, t[..i + 1], t[i + 1..], scope);
    ScopeSizeSplit(ver, t[..i], t[i + 1..], scope);
  }

  lemma {:induction false} ScopeSizePermutes(ver: Version, s: seq<Range>, t: seq<Range>, scope: Scope)
    requires multiset(s) == multiset(t)
    ensures ScopeSize(ver, s, scope) == ScopeSize(ver, t, scope)
  {
    hide SizeOf;
    if s == [] {
      assert |multiset(t)| == 0;
    } else {
      var i := RemoveSame(s, t);
      ScopeSizePermutes(ver, s[..|s| - 1], t[..i] + t[i + 1..], scope);
      ScopeSizeWithout(ver, t, i, scope);
    }
  }

  lemma FinalRangesSnoc(m: map<Addr, LeaseType>, s: seq<Range>, r: Range)
    ensures FinalRanges(m, s + [r]) == FinalRanges(m, s) + [FinalRange(m, r)]
  {
    assert (s + [r])[..|s|] == s;
  }

  lemma {:induction false} FinalRangesMultiset(m: map<Addr, LeaseType>, s: seq<Range>, t: seq<Range>)
    ensures multiset(FinalRanges(m, s + t)) == multiset(FinalRanges(m, s)) + multiset(FinalRanges(m, t))
    decreases |t|
  {
    hide FinalRange, FinalRanges;
    if t == [] {
      assert s + t == s;
      NoFinalRanges(m);
    } else {
      var init, r := t[..|t| - 1], t[|t| - 1];
      assert s + t == s + init + [r] && t == init + [r];
      FinalRangesMultiset(m, s, init);
      FinalRangesSnoc(m, s + init, r);
      FinalRangesSnoc(m, init, r);
    }
  }

  lemma NoFinalRanges(m: map<Addr, LeaseType>)
    ensures FinalRanges(m, []) == []
  {
  }

  lemma FinalRangesWithout(m: map<Addr, LeaseType>, t: seq<Range>, i: nat)
    requires i < |t|
    ensures multiset(FinalRanges(m, t)) ==
            multiset(FinalRanges(m, t[..i] + t[i + 1..])) + multiset{FinalRange(m, t[i])}
  {
    hide FinalRange, FinalRanges;
    assert t == t[..i] + [t[i]] + t[i + 1..];
    FinalRangesMultiset(m, t[..i] + [t[i]], t[i + 1..]);
    FinalRangesMultiset(m, t[..i], t[i + 1..]);
    FinalRangesSnoc(m, t[..i], t[i]);
  }

  lemma {:induction false} FinalRangesPermute(m: map<Addr, LeaseType>, s: seq<Range>, t: seq<Range>)
    requires multiset(s) == multiset(t)
    ensures multiset(FinalRanges(m, s)) == multiset(FinalRanges(m, t))
  {
    hide FinalRange, FinalRanges;
    if s == [] {
      assert |multiset(t)| == 0;
    } else {
      var i := RemoveSame(s, t);
      var init, r := s[..|s| - 1], s[|s| - 1];
      assert s == init + [r];
      FinalRangesPermute(m, init, t[..i] + t[i + 1..]);
      FinalRangesWithout(m, t, i);
      FinalRangesSnoc(m, init, r);
    }
  }

  // ----- entries of the sorted table and last states -----

  lemma {:induction false} ScopeCountIsLast(leases: seq<Lease>, m: map<Addr, LeaseType>, rs: seq<Range>, scope: Scope,
                                            kind: LeaseType)
    requires Represents(leases, m)
    ensures ScopeCount(leases, rs, scope, kind) == LastIn(m, rs, scope, kind)
  {
    hide Count, Represents, Addresses;
    if rs != [] {
      var r := rs[|rs| - 1];
      ScopeCountIsLast(leases, m, rs[..|rs| - 1], scope, kind);
      CountIsCardinality(leases, m, r.first, r.last, kind);
    }
  }

  /** End-to-end counting: each range's counters are the numbers of distinct addresses in it by their
      last recorded state. */
  lemma CountedIsFinal(leases: seq<Lease>, m: map<Addr, LeaseType>, rs: seq<Range>, out: seq<Range>)
    requires Represents(leases, m) && ZeroCounters(rs) && AllCounted(leases, rs, out)
    ensures out == FinalRanges(m, rs)
  {
    hide Count, Represents, Addresses, FinalRanges;
    FinalRangesAt(m, rs);
    forall k | 0 <= k < |rs| ensures out[k] == FinalRange(m, rs[k]) {
      assert rs[k] in rs;
      CountIsCardinality(leases, m, rs[k].first, rs[k].last, ACTIVE);
      CountIsCardinality(leases, m, rs[k].first, rs[k].last, FREE);
      CountIsCardinality(leases, m, rs[k].first, rs[k].last, BACKUP);
    }
  }

  /** A shared network after the sweep over any permutation of the declared ranges. */
  lemma NetIsFinal(ver: Version, leases: seq<Lease>, m: map<Addr, LeaseType>, decls: seq<Range>, rs: seq<Range>,
                   k: nat, n: Net, n': Net)
    requires Represents(leases, m) && multiset(rs) == multiset(decls) && AllFit(ver, decls)
    requires n.available == 0 && n.used == n.touched == n.backups == 0
    requires Counting.NetCounted(ver, leases, rs, k, n, n')
    ensures n' == FinalNet(ver, m, decls, k, n.name)
  {
    hide ScopeCount, ScopeSize, LastIn, Represents, SizeOf;
    forall kind ensures ScopeCount(leases, rs, Of(k), kind) == LastIn(m, decls, Of(k), kind) {
      ScopeCountPermutes(leases, rs, decls, Of(k), kind);
      ScopeCountIsLast(leases, m, decls, Of(k), kind);
    }
    ScopeSizePermutes(ver, rs, decls, Of(k));
    forall r | r in rs ensures 0 <= SizeOf(ver, r) < 0x1_0000_0000_0000_0000 {
      assert r in multiset(decls);
    }
  }

  /** "All networks" after both loops over any permutation of the declared ranges. */
  lemma TotalIsFinal(ver: Version, leases: seq<Lease>, m: map<Addr, LeaseType>, decls: seq<Range>, rs: seq<Range>,
                     out: seq<Range>, total: Net)
    requires Represents(leases, m) && multiset(rs) == multiset(decls)
    requires ZeroCounters(rs) && AllCounted(leases, rs, out)
    requires total.available == ScopeSize(ver, out, All)
    requires total.used == ScopeSum(out, All, ACTIVE) && total.touched == ScopeSum(out, All, FREE)
    requires total.backups == ScopeCount(leases, rs, Of(0), BACKUP) + ScopeSum(out, All, BACKUP)
    ensures total == FinalTotal(ver, m, decls, total.name)
  {
    hide ScopeCount, ScopeSize, ScopeSum, LastIn, Represents, SizeOf, AllCounted, ZeroCounters;
    forall kind, scope ensures ScopeCount(leases, rs, scope, kind) == LastIn(m, decls, scope, kind) {
      ScopeCountPermutes(leases, rs, decls, scope, kind);
      ScopeCountIsLast(leases, m, decls, scope, kind);
    }
    forall kind ensures ScopeSum(out, All, kind) == ScopeCount(leases, rs, All, kind) {
      CountersAddUp(leases, rs, out, All, kind);
    }
    Counting.SameSizes(ver, leases, rs, out);
    ScopeSizePermutes(ver, rs, decls, All);
  }

  /** Counting does not change first addresses. */
  lemma FinalFirsts(m: map<Addr, LeaseType>, rs: seq<Range>)
    requires DistinctFirsts(rs)
    ensures DistinctFirsts(FinalRanges(m, rs))
  {
    hide FinalRanges;
    FinalRangesAt(m, rs);
  }

  // ----- the cost of the sweep -----

  /** The recorded address a lies above all ranges but possibly the one at h. */
  ghost predicate AboveAllBut(m: map<Addr, LeaseType>, rs: seq<Range>, a: Addr, h: nat) {
    a in m && h < |rs| && forall j | 0 <= j < |rs| && j != h :: rs[j].last < a
  }

  /** Some recorded address lies above all ranges but one; of disjoint ranges that one is the highest. */
  ghost predicate LeaseAboveAllButOne(m: map<Addr, LeaseType>, rs: seq<Range>) {
    |rs| <= 1 || exists a, h :: AboveAllBut(m, rs, a, h)
  }

  lemma AboveAllButIff(leases: seq<Lease>, m: map<Addr, LeaseType>, rs: seq<Range>, h: nat)
    requires Ascending(leases) && Represents(leases, m) && leases != []
    ensures Counting.OutlastAllBut(leases, rs, h) <==> exists a :: AboveAllBut(m, rs, a, h)
  {
    var top := leases[|leases| - 1].ip;
    if Counting.OutlastAllBut(leases, rs, h) { assert AboveAllBut(m, rs, top, h); }
    if a :| AboveAllBut(m, rs, a, h) {
      var i :| 0 <= i < |leases| && leases[i].ip == a;
      Counting.TopLease(leases, i);
    }
  }

  lemma LeaseAboveAllButOneIff(leases: seq<Lease>, m: map<Addr, LeaseType>, rs: seq<Range>)
    requires Ascending(leases) && Represents(leases, m)
    ensures LeaseAboveAllButOne(m, rs) <==> Counting.RunOuts(leases, rs) <= 1
  {
    hide Ascending, Counting.RunOuts, AboveAllBut;
    Counting.RunOutsAtMostOne(leases, rs);
    if |rs| >= 2 {
      if leases == [] {
        NothingAbove(m, rs);
        forall h: nat ensures !Counting.OutlastAllBut(leases, rs, h) {
          assert Counting.RunOut(leases, rs[if h == 0 then 1 else 0]);
        }
      } else {
        if h: nat :| Counting.OutlastAllBut(leases, rs, h) {
          AboveAllButIff(leases, m, rs, h);
          var a :| AboveAllBut(m, rs, a, h);
        }
        if a: Addr, h: nat :| AboveAllBut(m, rs, a, h) {
          AboveAllButIff(leases, m, rs, h);
        }
      }
    }
  }

  lemma NothingAbove(m: map<Addr, LeaseType>, rs: seq<Range>)
    requires Represents([], m)
    ensures forall a, h :: !AboveAllBut(m, rs, a, h)
  {
  }

  /** The bounds of the sweep over disjoint ranges do not depend on the order they were declared in. */
  lemma SweepBoundsOfDecls(leases: seq<Lease>, decls: seq<Range>, rs: seq<Range>, moves: nat)
    requires multiset(rs) == multiset(decls) && Disjoint(decls) && forall r | r in decls :: r.first <= r.last
    requires forall i, j | 0 <= i < j < |rs| :: rs[i].first <= rs[j].first
    requires Counting.InOrder(rs) ==> Counting.SweepBounds(leases, rs, moves)
    ensures Counting.SweepBounds(leases, decls, moves)
  {
    hide Disjoint, Counting.InOrder, Counting.RunOuts;
    Counting.DisjointInOrder(decls, rs);
    Counting.RunOutsPermutes(leases, rs, decls);
    assert |rs| == |multiset(rs)| == |decls|;
  }

  // ----- occupancy -----

  /** No proper range has more addresses in use than it has addresses. */
  ghost predicate RangesWithin(ver: Version, out: seq<Range>) {
    forall r | r in out && ProperRange(ver, r) :: r.count + r.touched + r.backups <= SizeOf(ver, r)
  }

  /** Nor has a shared network whose ranges are proper and of a size that fits; used and touched
      addresses of "All networks" stay within the available ones if all ranges are proper. */
  ghost predicate NetsWithin(ver: Version, decls: seq<Range>, ns: seq<Net>) {
    && (forall k | 0 < k < |ns| && Counting.NetFits(ver, decls, k) && ProperIn(ver, decls, Of(k)) ::
          ns[k].used + ns[k].touched + ns[k].backups <= ns[k].available)
    && (ns != [] && ProperIn(ver, decls, All) ==> ns[0].used + ns[0].touched <= ns[0].available)
  }

  lemma CountedIsWithin(ver: Version, leases: seq<Lease>, out: seq<Range>)
    requires Ascending(leases) && CountedTable(ver, leases, out)
    ensures RangesWithin(ver, out)
  {
    hide Ascending, Count, RangeSize, ProperRange;
    forall r | r in out && ProperRange(ver, r) ensures r.count + r.touched + r.backups <= SizeOf(ver, r) {
      RangeOccupancy(ver, leases, r);
    }
  }

  lemma NetIsWithin(ver: Version, leases: seq<Lease>, decls: seq<Range>, rs: seq<Range>, k: nat, n: Net, n': Net)
    requires Ascending(leases) && multiset(rs) == multiset(decls)
    requires Counting.NetFits(ver, decls, k) && ProperIn(ver, decls, Of(k))
    requires Counting.NetCounted(ver, leases, rs, k, n, n')
    requires n.available == 0 && n.used == n.touched == n.backups == 0
    ensures n'.used + n'.touched + n'.backups <= n'.available
  {
    hide Ascending, ProperRange, SizeOf, Counting.NetCounted;
    forall r | r in rs ensures r in decls { assert r in multiset(rs); }
    Counting.NetworkOccupancy(ver, leases, rs, k, n, n');
  }

  // ----- available addresses -----

  /** The available addresses of the networks, from the declared ranges alone. */
  ghost predicate NetsAvailable(ver: Version, decls: seq<Range>, ns: seq<Net>)
    requires AllOrdered(ver, decls)
  {
    && ns != [] && ns[0].available == AddressSum(ver, decls, All)
    && forall k | 0 < k < |ns| && Counting.NetFits(ver, decls, k) ::
         ns[k].available == AddressSum(ver, decls, Of(k))
  }

  lemma AddressSumPermutes(ver: Version, s: seq<Range>, t: seq<Range>, scope: Scope)
    requires multiset(s) == multiset(t) && AllOrdered(ver, s) && AllOrdered(ver, t)
    ensures AddressSum(ver, s, scope) == AddressSum(ver, t, scope)
  {
    hide AddressSum, ScopeSize, AllOrdered;
    ScopeSizePermutes(ver, s, t, scope);
    ScopeSizeIsAddresses(ver, s, scope);
    ScopeSizeIsAddresses(ver, t, scope);
  }

  lemma AvailableOfDecls(ver: Version, decls: seq<Range>, rs: seq<Range>, before: seq<Net>, after: seq<Net>, n: nat)
    requires multiset(rs) == multiset(decls) && AllOrdered(ver, decls) && AllOrdered(ver, rs)
    requires 0 < n <= |after| && Counting.AvailableIs(ver, rs, before, after)
    requires forall k | 0 < k < n :: before[k].available == 0
    ensures NetsAvailable(ver, decls, after[..n])
  {
    hide AddressSum, AllOrdered, SizeOf;
    forall scope ensures AddressSum(ver, rs, scope) == AddressSum(ver, decls, scope) {
      AddressSumPermutes(ver, rs, decls, scope);
    }
    forall r | r in rs ensures r in decls { assert r in multiset(rs); }
  }
}

/** The naive count do_counting stands for: for every range, filter all leases; and its laws. */
module Tally {
  import opened Address
  import opened Pools
  import opened LeaseLog

  ghost predicate Ascending(leases: seq<Lease>) {
    forall i, j | 0 <= i < j < |leases| :: leases[i].ip < leases[j].ip
  }

  predicate Within(first: Addr, last: Addr, a: Addr) {
    first <= a <= last
  }

  /** The number of leases of one state in [first, last]. */
  function Count(leases: seq<Lease>, first: Addr, last: Addr, kind: LeaseType): nat {
    if leases == [] then 0
    else
      var x := leases[|leases| - 1];
      Count(leases[..|leases| - 1], first, last, kind)
      + if Within(first, last, x.ip) && x.kind == kind then 1 else 0
  }

  function Occupied(leases: seq<Lease>, r: Range): nat {
    Count(leases, r.first, r.last, ACTIVE) + Count(leases, r.first, r.last, FREE)
    + Count(leases, r.first, r.last, BACKUP)
  }

  /** r with the leases in it added to its counters. */
  function Counted(leases: seq<Lease>, r: Range): Range {
    r.(count := r.count + Count(leases, r.first, r.last, ACTIVE),
       touched := r.touched + Count(leases, r.first, r.last, FREE),
       backups := r.backups + Count(leases, r.first, r.last, BACKUP))
  }

  /** All ranges, or those of one shared network. */
  datatype Scope = All | Of(net: nat) {
    predicate Has(r: Range) { this == All || r.net == net }
  }

  function ScopeCount(leases: seq<Lease>, rs: seq<Range>, scope: Scope, kind: LeaseType): nat {
    if rs == [] then 0
    else
      var r := rs[|rs| - 1];
      ScopeCount(leases, rs[..|rs| - 1], scope, kind)
      + if scope.Has(r) then Count(leases, r.first, r.last, kind) else 0
  }

  function ScopeSize(ver: Version, rs: seq<Range>, scope: Scope): int {
    if rs == [] then 0
    else
      var r := rs[|rs| - 1];
      ScopeSize(ver, rs[..|rs| - 1], scope) + if scope.Has(r) then SizeOf(ver, r) else 0
  }

  /** Addresses in order, within the version's space. */
  ghost predicate AllOrdered(ver: Version, rs: seq<Range>) {
    forall r | r in rs :: r.first <= r.last && InSpace(ver, r.last)
  }

  /** The number of addresses in the ranges in scope; the full IPv4 space counts as none. */
  function AddressSum(ver: Version, rs: seq<Range>, scope: Scope): nat
    requires AllOrdered(ver, rs)
  {
    if rs == [] then 0
    else
      var r := rs[|rs| - 1];
      AddressSum(ver, rs[..|rs| - 1], scope)
      + if !scope.Has(r) || (ver == IPv4 && r.first == 0 && r.last == 0xFFFF_FFFF) then 0
        else r.last - r.first + 1
  }

  /** The sizes that are summed up are numbers of addresses. */
  lemma {:induction false} ScopeSizeIsAddresses(ver: Version, rs: seq<Range>, scope: Scope)
    requires AllOrdered(ver, rs)
    ensures ScopeSize(ver, rs, scope) == AddressSum(ver, rs, scope)
  {
    hide SizeOf;
    if rs != [] {
      var n := |rs| - 1;
      ScopeSizeIsAddresses(ver, rs[..n], scope);
      assert rs[n] in rs;
      SizeIsAddresses(ver, rs[n]);
    }
  }

  function Counter(r: Range, kind: LeaseType): nat {
    match kind
    case ACTIVE => r.count
    case FREE => r.touched
    case BACKUP => r.backups
  }

  /** The sum of one counter over the ranges in scope. */
  function ScopeSum(rs: seq<Range>, scope: Scope, kind: LeaseType): nat {
    if rs == [] then 0
    else
      var r := rs[|rs| - 1];
      ScopeSum(rs[..|rs| - 1], scope, kind) + if scope.Has(r) then Counter(r, kind) else 0
  }

  ghost predicate ZeroCounters(rs: seq<Range>) {
    forall r | r in rs :: r.count == r.touched == r.backups == 0
  }

  ghost predicate AllCounted(leases: seq<Lease>, rs: seq<Range>, out: seq<Range>) {
    |out| == |rs| && forall i | 0 <= i < |rs| :: out[i] == Counted(leases, rs[i])
  }

  /** Conservation: what the counters of the ranges in scope add up to is the naive sum. */
  lemma {:induction false} CountersAddUp(leases: seq<Lease>, rs: seq<Range>, out: seq<Range>, scope: Scope,
                                         kind: LeaseType)
    requires AllCounted(leases, rs, out) && ZeroCounters(rs)
    ensures ScopeSum(out, scope, kind) == ScopeCount(leases, rs, scope, kind)
  {
    if rs != [] {
      var n := |rs| - 1;
      assert rs[n] in rs;
      CountersAddUp(leases, rs[..n], out[..n], scope, kind);
    }
  }

  // ----- the part of the list that matters to a range -----

  lemma {:induction false} CountNone(leases: seq<Lease>, first: Addr, last: Addr, kind: LeaseType)
    requires forall i | 0 <= i < |leases| :: !Within(first, last, leases[i].ip)
    ensures Count(leases, first, last, kind) == 0
  {
    if leases != [] {
      CountNone(leases[..|leases| - 1], first, last, kind);
    }
  }

  lemma {:induction false} CountConcat(s: seq<Lease>, t: seq<Lease>, first: Addr, last: Addr, kind: LeaseType)
    ensures Count(s + t, first, last, kind) == Count(s, first, last, kind) + Count(t, first, last, kind)
  {
    if t == [] {
      assert s + t == s;
    } else {
      assert (s + t)[..|s + t| - 1] == s + t[..|t| - 1];
      CountConcat(s, t[..|t| - 1], first, last, kind);
    }
  }

  lemma CountNext(leases: seq<Lease>, p: nat, first: Addr, last: Addr, kind: LeaseType)
    requires p < |leases|
    ensures Count(leases[..p + 1], first, last, kind) ==
            Count(leases[..p], first, last, kind)
            + if Within(first, last, leases[p].ip) && leases[p].kind == kind then 1 else 0
  {
    assert leases[..p + 1][..p] == leases[..p];
  }

  // ----- pigeonhole -----

  /** At most as many distinct addresses are in use as lie in the range. */
  lemma {:induction false} Pigeonhole(leases: seq<Lease>, r: Range)
    requires Ascending(leases) && r.first <= r.last
    ensures Occupied(leases, r) <= r.last - r.first + 1
    ensures leases != [] && leases[|leases| - 1].ip < r.last ==>
              var top := leases[|leases| - 1].ip;
              Occupied(leases, r) <= if top < r.first then 0 else top - r.first + 1
    decreases |leases|
  {
    if leases != [] {
      var n := |leases| - 1;
      Pigeonhole(leases[..n], r);
      var x := leases[n];
      if n > 0 { assert leases[n - 1].ip < x.ip; }
    }
  }

  /** Occupancy of one range: count + touched + backups never exceed its size. */
  lemma RangeOccupancy(ver: Version, leases: seq<Lease>, r: Range)
    requires Ascending(leases) && ProperRange(ver, r)
    ensures Occupied(leases, r) <= SizeOf(ver, r)
  {
    Pigeonhole(leases, r);
  }

  /** The full IPv4 space is the exception: its size wraps to 0. */
  lemma OccupancyIff(ver: Version, leases: seq<Lease>, r: Range)
    requires Ascending(leases) && r.first <= r.last && InSpace(ver, r.last)
    ensures Occupied(leases, r) <= SizeOf(ver, r) <==> ProperRange(ver, r) || Occupied(leases, r) == 0
  {
    Pigeonhole(leases, r);
  }

  /** The ranges in scope are proper. */
  ghost predicate ProperIn(ver: Version, rs: seq<Range>, scope: Scope) {
    forall r | r in rs && scope.Has(r) :: ProperRange(ver, r)
  }

  /** Occupancy of a shared network, or of all ranges together. */
  lemma {:induction false} ScopeOccupancy(ver: Version, leases: seq<Lease>, rs: seq<Range>, scope: Scope)
    requires Ascending(leases) && ProperIn(ver, rs, scope)
    ensures ScopeCount(leases, rs, scope, ACTIVE) + ScopeCount(leases, rs, scope, FREE)
            + ScopeCount(leases, rs, scope, BACKUP) <= ScopeSize(ver, rs, scope)
  {
    hide Count, SizeOf, ProperRange;
    if rs != [] {
      var n := |rs| - 1;
      ScopeOccupancy(ver, leases, rs[..n], scope);
      assert rs[n] in rs;
      if scope.Has(rs[n]) { RangeOccupancy(ver, leases, rs[n]); }
    }
  }

  // ----- exact cover -----

  ghost predicate Disjoint(rs: seq<Range>) {
    forall i, j, a: Addr | 0 <= i < j < |rs| && Within(rs[i].first, rs[i].last, a) ::
      !Within(rs[j].first, rs[j].last, a)
  }

  predicate Covered(rs: seq<Range>, a: Addr) {
    exists i :: 0 <= i < |rs| && Within(rs[i].first, rs[i].last, a)
  }

  /** The number of leases that lie in some range. */
  function CoveredCount(leases: seq<Lease>, rs: seq<Range>): nat {
    if leases == [] then 0
    else CoveredCount(leases[..|leases| - 1], rs) + if Covered(rs, leases[|leases| - 1].ip) then 1 else 0
  }

  function TotalOccupied(leases: seq<Lease>, rs: seq<Range>): nat {
    ScopeCount(leases, rs, All, ACTIVE) + ScopeCount(leases, rs, All, FREE) + ScopeCount(leases, rs, All, BACKUP)
  }

  lemma {:induction false} CoverStep(leases: seq<Lease>, rs: seq<Range>)
    requires leases != [] && Disjoint(rs)
    ensures TotalOccupied(leases, rs) ==
            TotalOccupied(leases[..|leases| - 1], rs) + if Covered(rs, leases[|leases| - 1].ip) then 1 else 0
    decreases |rs|
  {
    if rs != [] {
      var n := |rs| - 1;
      var a := leases[|leases| - 1].ip;
      CoverStep(leases, rs[..n]);
      if Within(rs[n].first, rs[n].last, a) {
        assert !Covered(rs[..n], a);
      } else {
        assert Covered(rs, a) <==> Covered(rs[..n], a) by {
          if Covered(rs, a) {
            var i :| 0 <= i < |rs| && Within(rs[i].first, rs[i].last, a);
            assert rs[..n][i] == rs[i];
          }
        }
      }
    }
  }

  /** For disjoint ranges the counters sum to the leases in their union, each counted once. */
  lemma {:induction false} ExactCover(leases: seq<Lease>, rs: seq<Range>)
    requires Disjoint(rs)
    ensures TotalOccupied(leases, rs) == CoveredCount(leases, rs)
  {
    if leases == [] {
      CountEmpty(rs);
    } else {
      CoverStep(leases, rs);
      ExactCover(leases[..|leases| - 1], rs);
    }
  }

  /** The counters of a counted table of disjoint ranges add up to the leases covered. */
  lemma CountersCoverExactly(leases: seq<Lease>, rs: seq<Range>, out: seq<Range>)
    requires Disjoint(rs) && AllCounted(leases, rs, out) && ZeroCounters(rs)
    ensures ScopeSum(out, All, ACTIVE) + ScopeSum(out, All, FREE) + ScopeSum(out, All, BACKUP)
            == CoveredCount(leases, rs)
  {
    CountersAddUp(leases, rs, out, All, ACTIVE);
    CountersAddUp(leases, rs, out, All, FREE);
    CountersAddUp(leases, rs, out, All, BACKUP);
    ExactCover(leases, rs);
  }

  lemma {:induction false} CountEmpty(rs: seq<Range>)
    ensures TotalOccupied([], rs) == 0
  {
    if rs != [] { CountEmpty(rs[..|rs| - 1]); }
  }

  // ----- the count as a number of addresses -----

  ghost function Addresses(m: map<Addr, LeaseType>, first: Addr, last: Addr, kind: LeaseType): set<Addr> {
    set a | a in m && Within(first, last, a) && m[a] == kind
  }

  lemma AddressesWithout(m: map<Addr, LeaseType>, x: Addr, first: Addr, last: Addr, kind: LeaseType)
    requires x in m
    ensures |Addresses(m, first, last, kind)| ==
            |Addresses(m - {x}, first, last, kind)| + if Within(first, last, x) && m[x] == kind then 1 else 0
  {
    var all, rest := Addresses(m, first, last, kind), Addresses(m - {x}, first, last, kind);
    var here := if Within(first, last, x) && m[x] == kind then {x} else {};
    forall a ensures a in all <==> a in rest || a in here {
      if a != x && a in m { assert (m - {x})[a] == m[a]; }
    }
    assert x !in rest;
    assert all == rest + here;
  }

  lemma WithoutLast(leases: seq<Lease>, m: map<Addr, LeaseType>)
    requires Represents(leases, m) && leases != []
    ensures var x := leases[|leases| - 1];
            && x.ip in m && m[x.ip] == x.kind
            && Represents(leases[..|leases| - 1], m - {x.ip})
  {
    var n := |leases| - 1;
    DeleteKeeps(leases, m, n);
    assert leases[..n] + leases[n + 1..] == leases[..n];
  }

  /** Counting entries is counting distinct addresses by their state in the table. */
  lemma {:induction false} CountIsCardinality(leases: seq<Lease>, m: map<Addr, LeaseType>,
                                              first: Addr, last: Addr, kind: LeaseType)
    requires Represents(leases, m)
    ensures Count(leases, first, last, kind) == |Addresses(m, first, last, kind)|
  {
    if leases == [] {
      assert Addresses(m, first, last, kind) == {};
    } else {
      var n := |leases| - 1;
      WithoutLast(leases, m);
      CountIsCardinality(leases[..n], m - {leases[n].ip}, first, last, kind);
      AddressesWithout(m, leases[n].ip, first, last, kind);
    }
  }

  /** The list has one entry per address. */
  lemma {:induction false} OneEntryEach(leases: seq<Lease>, m: map<Addr, LeaseType>)
    requires Represents(leases, m)
    ensures |leases| == |m|
  {
    hide Represents;
    if leases == [] {
      NoEntries(m);
    } else {
      var x := leases[|leases| - 1];
      WithoutLast(leases, m);
      OneEntryEach(leases[..|leases| - 1], m - {x.ip});
      assert m == (m - {x.ip})[x.ip := m[x.ip]];
    }
  }

  lemma NoEntries(m: map<Addr, LeaseType>)
    requires Represents([], m)
    ensures |m| == 0
  {
    assert m == map[];
  }
}

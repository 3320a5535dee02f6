/** prepare_data and do_counting: one cursor over the sorted leases joins them with the ranges
    (src/analyze.c). */
module Counting {
  import opened Address
  import opened Pools
  import opened LeaseLog
  import opened Tally

  // ----- the cursor: an index into the lease list, or NULL past either end -----

  const NULL := -1

  predicate Cursor(leases: seq<Lease>, l: int) {
    l == NULL || 0 <= l < |leases|
  }

  function Head(leases: seq<Lease>): (l: int)
    ensures Cursor(leases, l)
  {
    if leases == [] then NULL else 0
  }

  function Prev(l: int): int {
    l - 1
  }

  function Next(leases: seq<Lease>, l: int): int {
    if l + 1 < |leases| then l + 1 else NULL
  }

  /** The number of leases before a cursor that moves forward; NULL is the end of the list. */
  function Passed(leases: seq<Lease>, l: int): int {
    if l == NULL then |leases| else l
  }

  /** A shared network with the leases of one of its ranges added. */
  function Credited(leases: seq<Lease>, r: Range, n: Net): Net {
    n.(used := n.used + Count(leases, r.first, r.last, ACTIVE),
       touched := n.touched + Count(leases, r.first, r.last, FREE),
       backups := n.backups + Count(leases, r.first, r.last, BACKUP))
  }

  // ----- what each step of the walk keeps -----

  /** Nothing before the cursor is in range. */
  lemma WalkStart(leases: seq<Lease>, p: nat, r: Range, n: Net)
    requires p <= |leases| && Ascending(leases)
    requires p > 0 ==> p < |leases| && leases[p].ip <= r.first
    ensures Counted(leases[..p], r) == r && Credited(leases[..p], r, n) == n
  {
    forall i | 0 <= i < p ensures leases[..p][i].ip < r.first {
    }
    forall kind { CountNone(leases[..p], r.first, r.last, kind); }
  }

  /** One lease more. */
  lemma WalkStep(leases: seq<Lease>, p: nat, r: Range, n: Net)
    requires p < |leases|
    ensures var x, a, b := leases[p], Counted(leases[..p], r), Credited(leases[..p], r, n);
            if !Within(r.first, r.last, x.ip)
            then Counted(leases[..p + 1], r) == a && Credited(leases[..p + 1], r, n) == b
            else match x.kind
                 case FREE => Counted(leases[..p + 1], r) == a.(touched := a.touched + 1)
                              && Credited(leases[..p + 1], r, n) == b.(touched := b.touched + 1)
                 case ACTIVE => Counted(leases[..p + 1], r) == a.(count := a.count + 1)
                                && Credited(leases[..p + 1], r, n) == b.(used := b.used + 1)
                 case BACKUP => Counted(leases[..p + 1], r) == a.(backups := a.backups + 1)
                                && Credited(leases[..p + 1], r, n) == b.(backups := b.backups + 1)
  {
    forall kind { CountNext(leases, p, r.first, r.last, kind); }
  }

  /** Nothing from the cursor on is in range. */
  lemma WalkEnd(leases: seq<Lease>, p: nat, r: Range, n: Net)
    requires p <= |leases| && Ascending(leases)
    requires p < |leases| ==> leases[p].ip > r.last
    ensures Counted(leases[..p], r) == Counted(leases, r) && Credited(leases[..p], r, n) == Credited(leases, r, n)
  {
    assert leases == leases[..p] + leases[p..];
    forall i | 0 <= i < |leases[p..]| ensures leases[p..][i].ip > r.last {
      assert leases[p..][i] == leases[p + i];
    }
    forall kind ensures Count(leases[..p], r.first, r.last, kind) == Count(leases, r.first, r.last, kind) {
      CountConcat(leases[..p], leases[p..], r.first, r.last, kind);
      CountNone(leases[p..], r.first, r.last, kind);
    }
  }

  /** Step the cursor back while it is above the range; from NULL start over at the head. */
  method Rewind(ver: Version, leases: seq<Lease>, first: Addr, l0: int) returns (l: int, ghost moves: nat)
    requires Ascending(leases) && Cursor(leases, l0)
    ensures Cursor(leases, l) && (l == NULL ==> leases == [])
    ensures l > 0 ==> leases[l].ip <= first && leases[l - 1].ip <= first
    ensures moves <= |leases|
    ensures l0 > 0 && leases[l0 - 1].ip <= first ==> moves <= 1 && l >= l0 - 1 && moves + l0 <= l + 2
    ensures l0 == 0 ==> moves <= 1 && l == 0
    ensures l0 >= 0 ==> l <= l0
    ensures l0 == NULL || leases[l0].ip <= first ==> moves == 0 && l == if l0 == NULL then Head(leases) else l0
  {
    hide IpComp;
    l := l0;
    moves := 0;
    while l != NULL && IpComp(ver, first, leases[l].ip) < 0
      invariant Cursor(leases, l) && l <= l0 && moves == l0 - l
      invariant l0 > 0 && leases[l0 - 1].ip <= first ==> l >= l0 - 1
      invariant moves > 0 ==> leases[l0].ip > first
      decreases l
    {
      l := Prev(l);
      moves := moves + 1;
    }
    if l == NULL {
      l := Head(leases);
    }
    assert l > 0 ==> leases[l - 1].ip < leases[l].ip;
  }

  /** No lease lies above the range: the walk through it reaches the end of the list. */
  predicate RunOut(leases: seq<Lease>, r: Range) {
    leases == [] || leases[|leases| - 1].ip <= r.last
  }

  /** The cursor stands where the previous range left it. */
  predicate Settled(leases: seq<Lease>, l0: int, first: Addr) {
    0 <= l0 < |leases| && (l0 > 0 ==> leases[l0 - 1].ip <= first)
  }

  /** The cursor is at the head or past the end, and all leases lie below the range. */
  predicate Overshot(leases: seq<Lease>, l0: int, r: Range) {
    l0 <= 0 && r.first <= r.last && (leases == [] || leases[|leases| - 1].ip < r.first)
  }

  /** What one range costs: at most both directions of the whole list; from a settled cursor the progress
      made and at most two moves more; exactly the whole list when it overshot. */
  ghost predicate RangeCost(leases: seq<Lease>, r: Range, l0: int, l: int, moves: nat) {
    && moves <= 2 * |leases|
    && (l == NULL <==> RunOut(leases, r))
    && (0 < l < |leases| ==> leases[l - 1].ip <= r.last || leases[l - 1].ip <= r.first)
    && (Settled(leases, l0, r.first) ==> Passed(leases, l) - l0 <= moves <= Passed(leases, l) - l0 + 2)
    && (Overshot(leases, l0, r) ==> moves == |leases|)
  }

  lemma TopLease(leases: seq<Lease>, l: int)
    requires Ascending(leases) && 0 <= l < |leases|
    ensures leases[l].ip <= leases[|leases| - 1].ip
  {
  }

  /** Walk forward through the range, counting it and crediting its network. */
  method Walk(ver: Version, leases: seq<Lease>, ranges: array<Range>, i: nat, nets: array<Net>, l0: int)
    returns (l: int, ghost moves: nat)
    requires Ascending(leases) && Cursor(leases, l0) && (l0 == NULL ==> leases == [])
    requires i < ranges.Length && ranges[i].net < nets.Length
    requires l0 > 0 ==> leases[l0].ip <= ranges[i].first
    modifies ranges, nets
    ensures Cursor(leases, l)
    ensures ranges[i] == Counted(leases, old(ranges[i]))
    ensures forall k | 0 <= k < ranges.Length && k != i :: ranges[k] == old(ranges[k])
    ensures nets[old(ranges[i].net)] == Credited(leases, old(ranges[i]), old(nets[ranges[i].net]))
    ensures forall k | 0 <= k < nets.Length && k != old(ranges[i].net) :: nets[k] == old(nets[k])
    ensures Passed(leases, l0) <= Passed(leases, l) && moves == Passed(leases, l) - Passed(leases, l0)
    ensures l > l0 ==> leases[l - 1].ip <= old(ranges[i].last)
    ensures l == NULL && leases != [] ==> leases[|leases| - 1].ip <= old(ranges[i].last)
    ensures l != NULL ==> leases[l].ip > old(ranges[i].last)
  {
    hide IpComp, Count, Ascending;
    ghost var r, n := ranges[i], nets[ranges[i].net];
    ghost var start := Passed(leases, l0);
    var net := ranges[i].net;
    l, moves := l0, 0;
    WalkStart(leases, start, r, n);
    while l != NULL && IpComp(ver, leases[l].ip, ranges[i].last) <= 0
      invariant Cursor(leases, l) && start <= Passed(leases, l)
      invariant ranges[i] == Counted(leases[..Passed(leases, l)], r)
      invariant nets[net] == Credited(leases[..Passed(leases, l)], r, n)
      invariant forall k | 0 <= k < ranges.Length && k != i :: ranges[k] == old(ranges[k])
      invariant forall k | 0 <= k < nets.Length && k != net :: nets[k] == old(nets[k])
      invariant moves == Passed(leases, l) - start
      invariant l > l0 ==> leases[l - 1].ip <= r.last
      invariant l == NULL && leases != [] ==> leases[|leases| - 1].ip <= r.last
      decreases |leases| - Passed(leases, l)
    {
      WalkStep(leases, l, r, n);
      moves := moves + 1;
      if IpComp(ver, leases[l].ip, ranges[i].first) < 0 {
        l := Next(leases, l);
        continue;
      }
      match leases[l].kind {
        case FREE => ranges[i] := ranges[i].(touched := ranges[i].touched + 1);
        case ACTIVE => ranges[i] := ranges[i].(count := ranges[i].count + 1);
        case BACKUP => ranges[i] := ranges[i].(backups := ranges[i].backups + 1);
      }
      match leases[l].kind {
        case FREE => nets[net] := nets[net].(touched := nets[net].touched + 1);
        case ACTIVE => nets[net] := nets[net].(used := nets[net].used + 1);
        case BACKUP => nets[net] := nets[net].(backups := nets[net].backups + 1);
      }
      l := Next(leases, l);
    }
    WalkEnd(leases, Passed(leases, l), r, n);
  }

  /** The loop body for one range: rewind, then walk. */
  method CountRange(ver: Version, leases: seq<Lease>, ranges: array<Range>, i: nat, nets: array<Net>, l0: int)
    returns (l: int, ghost moves: nat)
    requires Ascending(leases) && Cursor(leases, l0)
    requires i < ranges.Length && ranges[i].net < nets.Length
    modifies ranges, nets
    ensures Cursor(leases, l)
    ensures ranges[i] == Counted(leases, old(ranges[i]))
    ensures forall k | 0 <= k < ranges.Length && k != i :: ranges[k] == old(ranges[k])
    ensures nets[old(ranges[i].net)] == Credited(leases, old(ranges[i]), old(nets[ranges[i].net]))
    ensures forall k | 0 <= k < nets.Length && k != old(ranges[i].net) :: nets[k] == old(nets[k])
    ensures RangeCost(leases, old(ranges[i]), l0, l, moves)
  {
    hide IpComp, Count, Counted, Credited, Ascending;
    ghost var forth: nat;
    if leases != [] { TopLease(leases, 0); }
    l, moves := Rewind(ver, leases, ranges[i].first, l0);
    l, forth := Walk(ver, leases, ranges, i, nets, l);
    moves := moves + forth;
    if l != NULL { TopLease(leases, l); }
  }

  // ----- the shared networks -----

  predicate FitsUnsignedLong(size: int) {
    0 <= size < 0x1_0000_0000_0000_0000
  }

  /** Every range of network k has a size that an unsigned long holds. */
  ghost predicate NetFits(ver: Version, rs: seq<Range>, k: nat) {
    forall r | r in rs && r.net == k :: 0 <= SizeOf(ver, r) < 0x1_0000_0000_0000_0000
  }

  /** Network k after the ranges rs were counted into it. */
  ghost predicate NetCounted(ver: Version, leases: seq<Lease>, rs: seq<Range>, k: nat, n: Net, n': Net) {
    && n'.name == n.name
    && n'.used == n.used + ScopeCount(leases, rs, Of(k), ACTIVE)
    && n'.touched == n.touched + ScopeCount(leases, rs, Of(k), FREE)
    && n'.backups == n.backups + ScopeCount(leases, rs, Of(k), BACKUP)
    && (NetFits(ver, rs, k) ==> n'.available == n.available + ScopeSize(ver, rs, Of(k)))
  }

  /** `block_size = get_range_size()`: the conversion of a double that does not fit is undefined. */
  method BlockSize(size: int) returns (blockSize: nat)
    ensures FitsUnsignedLong(size) ==> blockSize == size
  {
    blockSize := *;
    if FitsUnsignedLong(size) { blockSize := size; }
  }

  lemma NetStep(ver: Version, leases: seq<Lease>, rs: seq<Range>, i: nat, k: nat, n: Net, a: Net, b: Net)
    requires i < |rs| && NetCounted(ver, leases, rs[..i], k, n, a)
    requires var r := rs[i];
             if r.net != k then b == a
             else && b.(available := a.available) == Credited(leases, r, a)
                  && (FitsUnsignedLong(SizeOf(ver, r)) ==> b.available == a.available + SizeOf(ver, r))
    ensures NetCounted(ver, leases, rs[..i + 1], k, n, b)
  {
    hide Count, RangeSize;
    assert rs[..i + 1][..i] == rs[..i];
    if NetFits(ver, rs[..i + 1], k) {
      assert forall r | r in rs[..i] :: r in rs[..i + 1];
      assert rs[i] in rs[..i + 1];
      assert NetFits(ver, rs[..i], k);
    }
  }

  /** Sorted and pairwise disjoint. */
  ghost predicate InOrder(rs: seq<Range>) {
    && (forall i | 0 <= i < |rs| :: rs[i].first <= rs[i].last)
    && (forall i, j | 0 <= i < j < |rs| :: rs[i].last < rs[j].first)
  }

  /** The number of ranges that no lease lies above. */
  function RunOuts(leases: seq<Lease>, rs: seq<Range>): (n: nat)
    ensures n <= |rs|
  {
    if rs == [] then 0
    else RunOuts(leases, rs[..|rs| - 1]) + if RunOut(leases, rs[|rs| - 1]) then 1 else 0
  }

  ghost predicate LeasesBelowAll(leases: seq<Lease>, rs: seq<Range>) {
    forall r | r in rs :: r.first <= r.last && forall x | x in leases :: x.ip < r.first
  }

  /** What the first i of sorted disjoint ranges cost: while leases last, the way to the cursor and two
      moves a range; the range they run out in completes the first scan of the list, and every range
      after it scans the whole list again. */
  ghost predicate OrderedCost(leases: seq<Lease>, rs: seq<Range>, i: nat, l: int, moves: nat)
    requires i <= |rs|
  {
    var n := RunOuts(leases, rs[..i]);
    if n == 0 then
      && l <= moves <= Passed(leases, l) + 2 * i
      && (leases != [] ==> l != NULL)
      && (l > 0 ==> 0 < i && leases != [] && l < |leases| && leases[l - 1].ip <= rs[i - 1].last)
    else
      && l == NULL && 0 < i && RunOut(leases, rs[i - 1])
      && Times(|leases|, n) <= moves <= Times(|leases|, n) + 2 * (i - n + 1)
  }

  /** What the first i ranges cost, with the cursor left at l. */
  ghost predicate SweepCost(leases: seq<Lease>, rs: seq<Range>, i: nat, l: int, moves: nat)
    requires i <= |rs|
  {
    && moves <= 2 * Times(|leases|, i)
    && (InOrder(rs) ==> OrderedCost(leases, rs, i, l, moves))
    && (LeasesBelowAll(leases, rs) ==> l <= 0 && moves == Times(|leases|, i))
  }

  lemma OrderedStep(leases: seq<Lease>, rs: seq<Range>, i: nat, l0: int, l: int, moves: nat, m: nat)
    requires i < |rs| && InOrder(rs) && Cursor(leases, l0) && Cursor(leases, l)
    requires OrderedCost(leases, rs, i, l0, moves) && RangeCost(leases, rs[i], l0, l, m)
    ensures OrderedCost(leases, rs, i + 1, l, moves + m)
  {
    var n := RunOuts(leases, rs[..i]);
    assert rs[..i + 1][..i] == rs[..i];
    assert RunOuts(leases, rs[..i + 1]) == n + if RunOut(leases, rs[i]) then 1 else 0;
    assert i > 0 ==> rs[i - 1].last < rs[i].first;
    if n > 0 {
      assert Overshot(leases, l0, rs[i]);
    } else if leases != [] {
      assert Settled(leases, l0, rs[i].first);
      assert Times(|leases|, 1) == |leases|;
    } else {
      assert i > 0 ==> RunOut(leases, rs[..i][i - 1]);
      assert Times(|leases|, 1) == 0;
    }
  }

  lemma CostStep(leases: seq<Lease>, rs: seq<Range>, i: nat, l0: int, l: int, moves: nat, m: nat)
    requires i < |rs| && SweepCost(leases, rs, i, l0, moves) && RangeCost(leases, rs[i], l0, l, m)
    requires Cursor(leases, l0) && Cursor(leases, l)
    ensures SweepCost(leases, rs, i + 1, l, moves + m)
  {
    hide OrderedCost, InOrder;
    assert rs[i] in rs;
    if InOrder(rs) { OrderedStep(leases, rs, i, l0, l, moves, m); }
  }

  /** The first loop of do_counting: the sweep over all ranges. */
  method Sweep(ver: Version, leases: seq<Lease>, ranges: array<Range>, numRanges: nat, nets: array<Net>)
    returns (ghost moves: nat)
    requires Ascending(leases) && numRanges <= ranges.Length
    requires forall i | 0 <= i < numRanges :: ranges[i].net < nets.Length
    modifies ranges, nets
    ensures AllCounted(leases, old(ranges[..numRanges]), ranges[..numRanges])
    ensures forall k | numRanges <= k < ranges.Length :: ranges[k] == old(ranges[k])
    ensures forall k | 0 <= k < nets.Length ::
              NetCounted(ver, leases, old(ranges[..numRanges]), k, old(nets[k]), nets[k])
    ensures exists l :: Cursor(leases, l) && SweepCost(leases, old(ranges[..numRanges]), numRanges, l, moves)
  {
    hide IpComp, Count, Counted, Credited, Ascending, NetCounted, RangeSize, SweepCost, RangeCost;
    ghost var rs := ranges[..numRanges];
    ghost var ns := nets[..];
    var l := Head(leases);
    moves := 0;
    NothingCounted(ver, leases, rs, ns);
    assert rs[..0] == [];
    for i := 0 to numRanges
      invariant Cursor(leases, l) && SweepCost(leases, rs, i, l, moves)
      invariant forall k | 0 <= k < i :: ranges[k] == Counted(leases, rs[k])
      invariant forall k | i <= k < numRanges :: ranges[k] == rs[k]
      invariant forall k | numRanges <= k < ranges.Length :: ranges[k] == old(ranges[k])
      invariant forall k | 0 <= k < nets.Length :: NetCounted(ver, leases, rs[..i], k, ns[k], nets[k])
    {
      ghost var m: nat;
      ghost var l0, before := l, nets[..];
      l, m := CountRange(ver, leases, ranges, i, nets, l);
      CostStep(leases, rs, i, l0, l, moves, m);
      moves := moves + m;
      CountedKeepsBounds(leases, rs[i]);
      var blockSize := BlockSize(SizeOf(ver, ranges[i]));
      var net := ranges[i].net;
      nets[net] := nets[net].(available := nets[net].available + blockSize);
      forall k | 0 <= k < nets.Length ensures NetCounted(ver, leases, rs[..i + 1], k, ns[k], nets[k]) {
        CreditedKeepsAvailable(leases, rs[i], before[k]);
        NetStep(ver, leases, rs, i, k, ns[k], before[k], nets[k]);
      }
    }
    assert rs[..numRanges] == rs;
  }

  /** l added n times. */
  ghost function Times(l: nat, n: nat): nat {
    if n == 0 then 0 else Times(l, n - 1) + l
  }

  lemma {:induction false} TimesIsProduct(l: nat, n: nat)
    ensures Times(l, n) == l * n && 2 * Times(l, n) == 2 * l * n
  {
    if n > 0 {
      TimesIsProduct(l, n - 1);
      assert l * n == l * (n - 1) + l;
    }
  }

  lemma NothingCounted(ver: Version, leases: seq<Lease>, rs: seq<Range>, ns: seq<Net>)
    ensures SweepCost(leases, rs, 0, Head(leases), 0)
    ensures forall k | 0 <= k < |ns| :: NetCounted(ver, leases, [], k, ns[k], ns[k])
  {
  }

  lemma CountedKeepsBounds(leases: seq<Lease>, r: Range)
    ensures var c := Counted(leases, r); c.net == r.net && c.first == r.first && c.last == r.last
  {
  }

  lemma CreditedKeepsAvailable(leases: seq<Lease>, r: Range, n: Net)
    ensures Credited(leases, r, n).available == n.available
  {
  }

  /** Entry 0 of the networks after the second loop: available, used and touched are recomputed from
      all ranges, backups is added to what the sweep left there. */
  ghost predicate TotalsOf(ver: Version, out: seq<Range>, swept: Net, total: Net) {
    && total.name == swept.name
    && total.available == ScopeSize(ver, out, All)
    && total.used == ScopeSum(out, All, ACTIVE)
    && total.touched == ScopeSum(out, All, FREE)
    && total.backups == swept.backups + ScopeSum(out, All, BACKUP)
  }

  /** The second loop of do_counting. */
  method SumAllNetworks(ver: Version, ranges: array<Range>, numRanges: nat, nets: array<Net>)
    requires numRanges <= ranges.Length && nets.Length > 0
    modifies nets
    ensures TotalsOf(ver, ranges[..numRanges], old(nets[0]), nets[0])
    ensures forall k | 0 < k < nets.Length :: nets[k] == old(nets[k])
  {
    hide RangeSize;
    nets[0] := nets[0].(available := 0);
    nets[0] := nets[0].(used := 0);
    nets[0] := nets[0].(touched := 0);
    ghost var out := ranges[..numRanges];
    assert out[..0] == [];
    for k := 0 to numRanges
      invariant TotalsOf(ver, out[..k], old(nets[0]), nets[0])
      invariant forall j | 0 < j < nets.Length :: nets[j] == old(nets[j])
    {
      assert out[..k + 1][..k] == out[..k];
      nets[0] := nets[0].(available := nets[0].available + SizeOf(ver, ranges[k]));
      nets[0] := nets[0].(used := nets[0].used + ranges[k].count);
      nets[0] := nets[0].(touched := nets[0].touched + ranges[k].touched);
      nets[0] := nets[0].(backups := nets[0].backups + ranges[k].backups);
    }
    assert out[..numRanges] == out;
  }

  // ----- the cost over sorted disjoint ranges -----

  /** One scan of the list and two moves a range, as long as leases last; one scan more for every further
      range that no lease lies above. */
  ghost predicate SweepBounds(leases: seq<Lease>, rs: seq<Range>, moves: nat) {
    var n := RunOuts(leases, rs);
    if n == 0 then moves <= |leases| + 2 * |rs|
    else n * |leases| <= moves <= n * |leases| + 2 * (|rs| - n + 1)
  }

  /** The leases do not run out before the last range. */
  predicate LeasesLast(leases: seq<Lease>, rs: seq<Range>) {
    |rs| <= 1 || !RunOut(leases, rs[|rs| - 2])
  }

  lemma {:induction false} NoRunOuts(leases: seq<Lease>, rs: seq<Range>)
    ensures RunOuts(leases, rs) == 0 <==> forall i | 0 <= i < |rs| :: !RunOut(leases, rs[i])
  {
    hide RunOut;
    if rs != [] { NoRunOuts(leases, rs[..|rs| - 1]); }
  }

  /** In order, the ranges with no lease above are the last ones. */
  lemma LeasesLastIff(leases: seq<Lease>, rs: seq<Range>)
    requires InOrder(rs)
    ensures LeasesLast(leases, rs) <==> RunOuts(leases, rs) <= 1
  {
    if |rs| >= 2 {
      var init := rs[..|rs| - 1];
      assert init[|init| - 1] == rs[|rs| - 2];
      NoRunOuts(leases, init);
      if RunOut(leases, rs[|rs| - 2]) {
        assert rs[|rs| - 2].last < rs[|rs| - 1].first <= rs[|rs| - 1].last;
      } else {
        forall i | 0 <= i < |init| ensures !RunOut(leases, init[i]) {
          assert i < |rs| - 2 ==> rs[i].last < rs[|rs| - 2].first <= rs[|rs| - 2].last;
        }
      }
    }
  }

  lemma TimesAtLeast(n: nat, k: nat, l: nat)
    requires k <= n
    ensures k * l <= n * l
  {
  }

  lemma TimesOne(l: nat)
    ensures 1 * l == l
  {
  }

  /** L + 2R is met when at most one range has no lease above it, and for longer lists only then. */
  lemma SweepBoundsIff(leases: seq<Lease>, rs: seq<Range>, moves: nat)
    requires SweepBounds(leases, rs, moves)
    ensures RunOuts(leases, rs) <= 1 ==> moves <= |leases| + 2 * |rs|
    ensures 2 * |rs| < |leases| ==> (moves <= |leases| + 2 * |rs| <==> RunOuts(leases, rs) <= 1)
  {
    hide RunOuts;
    var n := RunOuts(leases, rs);
    if n >= 2 { TimesAtLeast(n, 2, |leases|); } else if n == 1 { TimesOne(|leases|); }
  }

  lemma BoundsOfCost(leases: seq<Lease>, rs: seq<Range>, l: int, moves: nat)
    requires InOrder(rs) && Cursor(leases, l) && OrderedCost(leases, rs, |rs|, l, moves)
    ensures SweepBounds(leases, rs, moves)
  {
    hide RunOut, InOrder;
    assert rs[..|rs|] == rs;
    TimesIsProduct(|leases|, RunOuts(leases, rs));
  }

  /** The available addresses: those of a network's own ranges are added to it, entry 0 has all. */
  ghost predicate AvailableIs(ver: Version, rs: seq<Range>, before: seq<Net>, after: seq<Net>)
    requires AllOrdered(ver, rs)
  {
    && 0 < |before| == |after|
    && after[0].available == AddressSum(ver, rs, All)
    && forall k | 0 < k < |after| && NetFits(ver, rs, k) ::
         after[k].available == before[k].available + AddressSum(ver, rs, Of(k))
  }

  lemma AvailableAddresses(ver: Version, leases: seq<Lease>, rs: seq<Range>, out: seq<Range>, before: seq<Net>,
                           after: seq<Net>)
    requires AllOrdered(ver, rs) && AllCounted(leases, rs, out) && 0 < |before| == |after|
    requires after[0].available == ScopeSize(ver, out, All)
    requires forall k | 0 < k < |after| :: NetCounted(ver, leases, rs, k, before[k], after[k])
    ensures AvailableIs(ver, rs, before, after)
  {
    hide AllOrdered, AllCounted, ScopeSize, ScopeCount, AddressSum, NetFits;
    SameSizes(ver, leases, rs, out);
    forall scope ensures ScopeSize(ver, rs, scope) == AddressSum(ver, rs, scope) {
      ScopeSizeIsAddresses(ver, rs, scope);
    }
  }

  /** do_counting: the sweep agrees with the naive count for every sequence of ranges, in any order,
      overlapping or not, and the networks receive the sums.  Over sorted disjoint ranges the cursor moves
      at most L + 2R times when the leases do not run out before the last range; otherwise the reset to
      the head makes every range behind the end of the leases scan the whole list again. */
  method DoCounting(ver: Version, leases: seq<Lease>, ranges: array<Range>, numRanges: nat, nets: array<Net>)
    returns (ghost moves: nat)
    requires Ascending(leases) && numRanges <= ranges.Length && nets.Length > 0
    requires forall i | 0 <= i < numRanges :: ranges[i].net < nets.Length
    modifies ranges, nets
    ensures AllCounted(leases, old(ranges[..numRanges]), ranges[..numRanges])
    ensures forall k | numRanges <= k < ranges.Length :: ranges[k] == old(ranges[k])
    ensures forall k | 0 < k < nets.Length ::
              NetCounted(ver, leases, old(ranges[..numRanges]), k, old(nets[k]), nets[k])
    ensures nets[0].name == old(nets[0].name)
    ensures nets[0].available == ScopeSize(ver, ranges[..numRanges], All)
    ensures AllOrdered(ver, old(ranges[..numRanges])) ==>
              AvailableIs(ver, old(ranges[..numRanges]), old(nets[..]), nets[..])
    ensures nets[0].used == ScopeSum(ranges[..numRanges], All, ACTIVE)
    ensures nets[0].touched == ScopeSum(ranges[..numRanges], All, FREE)
    ensures nets[0].backups == old(nets[0].backups) + ScopeCount(leases, old(ranges[..numRanges]), Of(0), BACKUP)
                               + ScopeSum(ranges[..numRanges], All, BACKUP)
    ensures moves <= 2 * |leases| * numRanges
    ensures InOrder(old(ranges[..numRanges])) ==> SweepBounds(leases, old(ranges[..numRanges]), moves)
    ensures InOrder(old(ranges[..numRanges])) && LeasesLast(leases, old(ranges[..numRanges])) ==>
              moves <= |leases| + 2 * numRanges
    ensures InOrder(old(ranges[..numRanges])) && 2 * numRanges < |leases| ==>
              (moves <= |leases| + 2 * numRanges <==> LeasesLast(leases, old(ranges[..numRanges])))
    ensures LeasesBelowAll(leases, old(ranges[..numRanges])) ==> moves == |leases| * numRanges
  {
    hide Count, Counted, Ascending, RangeSize, ScopeCount, ScopeSize, ScopeSum, AllCounted, InOrder, OrderedCost,
      SweepBounds, LeasesLast, RunOuts;
    ghost var rs := ranges[..numRanges];
    moves := Sweep(ver, leases, ranges, numRanges, nets);
    TimesIsProduct(|leases|, numRanges);
    if InOrder(rs) {
      ghost var l :| Cursor(leases, l) && SweepCost(leases, rs, numRanges, l, moves);
      BoundsOfCost(leases, rs, l, moves);
      SweepBoundsIff(leases, rs, moves);
      LeasesLastIff(leases, rs);
    }
    SumAllNetworks(ver, ranges, numRanges, nets);
    if AllOrdered(ver, rs) { AvailableAddresses(ver, leases, rs, ranges[..numRanges], old(nets[..]), nets[..]); }
  }

  // ----- what the totals mean -----

  /** Occupancy of a shared network of proper ranges, with index 1 or more that started empty. */
  lemma NetworkOccupancy(ver: Version, leases: seq<Lease>, rs: seq<Range>, k: nat, n: Net, n': Net)
    requires Ascending(leases) && ProperIn(ver, rs, Of(k))
    requires NetCounted(ver, leases, rs, k, n, n') && NetFits(ver, rs, k)
    requires n.available == 0 && n.used == n.touched == n.backups == 0
    ensures n'.used + n'.touched + n'.backups <= n'.available
  {
    hide ProperRange, Ascending, ScopeCount, ScopeSize;
    ScopeOccupancy(ver, leases, rs, Of(k));
  }

  lemma {:induction false} SameSizes(ver: Version, leases: seq<Lease>, rs: seq<Range>, out: seq<Range>)
    requires AllCounted(leases, rs, out)
    ensures ScopeSize(ver, out, All) == ScopeSize(ver, rs, All)
  {
    hide RangeSize, Count;
    if rs != [] {
      var n := |rs| - 1;
      SameSizes(ver, leases, rs[..n], out[..n]);
    }
  }

  /** "All networks" counts every range once in used and touched, within the available addresses;
      its backups count the ranges outside shared networks twice. */
  lemma AllNetworksTotals(ver: Version, leases: seq<Lease>, rs: seq<Range>, out: seq<Range>, before: Net, swept: Net,
                          total: Net)
    requires Ascending(leases) && ZeroCounters(rs) && AllCounted(leases, rs, out)
    requires NetCounted(ver, leases, rs, 0, before, swept) && TotalsOf(ver, out, swept, total) && before.backups == 0
    ensures total.available == ScopeSize(ver, rs, All)
    ensures total.used == ScopeCount(leases, rs, All, ACTIVE) && total.touched == ScopeCount(leases, rs, All, FREE)
    ensures total.backups == ScopeCount(leases, rs, All, BACKUP) + ScopeCount(leases, rs, Of(0), BACKUP)
    ensures total.backups == ScopeCount(leases, rs, All, BACKUP) <==> ScopeCount(leases, rs, Of(0), BACKUP) == 0
    ensures ProperIn(ver, rs, All) ==> total.used + total.touched <= total.available
  {
    hide ProperRange, Ascending, ScopeCount, ScopeSize, ScopeSum, AllCounted, ZeroCounters;
    forall kind ensures ScopeSum(out, All, kind) == ScopeCount(leases, rs, All, kind) {
      CountersAddUp(leases, rs, out, All, kind);
    }
    SameSizes(ver, leases, rs, out);
    if ProperIn(ver, rs, All) { ScopeOccupancy(ver, leases, rs, All); }
  }

  const ALONE := Range(0, 1, 10, 0, 0, 0)
  const ONE_BACKUP := [Lease(5, BACKUP, None)]

  lemma OneBackup(scope: Scope)
    requires scope.Has(ALONE)
    ensures ScopeCount(ONE_BACKUP, [ALONE], scope, BACKUP) == 1
  {
    assert ONE_BACKUP[..0] == [] && [ALONE][..0] == [];
    assert Count(ONE_BACKUP, 1, 10, BACKUP) == 1;
  }

  /** A table it fails on: one backup lease in one range outside shared networks is reported as two. */
  lemma OneBackupReportedTwice(out: seq<Range>, before: Net, swept: Net, total: Net)
    requires AllCounted(ONE_BACKUP, [ALONE], out) && before.backups == 0
    requires NetCounted(IPv4, ONE_BACKUP, [ALONE], 0, before, swept) && TotalsOf(IPv4, out, swept, total)
    ensures ScopeCount(ONE_BACKUP, [ALONE], All, BACKUP) == 1 && total.backups == 2
  {
    hide SizeOf, ScopeCount, ScopeSize, ScopeSum, Count, AllCounted, NetCounted, TotalsOf;
    OneBackup(All);
    OneBackup(Of(0));
    AllNetworksTotals(IPv4, ONE_BACKUP, [ALONE], out, before, swept, total);
  }

  // ----- when the cursor moves little -----

  /** Disjoint ranges in any order are in order once they are sorted by first address. */
  lemma DisjointInOrder(s: seq<Range>, t: seq<Range>)
    requires Disjoint(s) && (forall r | r in s :: r.first <= r.last) && multiset(s) == multiset(t)
    requires forall i, j | 0 <= i < j < |t| :: t[i].first <= t[j].first
    ensures InOrder(t)
  {
    forall i, j | 0 <= i < j < |s| ensures s[i] != s[j] {
      assert s[i] in s && Within(s[i].first, s[i].last, s[i].first);
    }
    forall i | 0 <= i < |t| ensures t[i].first <= t[i].last {
      assert t[i] in multiset(s);
    }
    forall i, j | 0 <= i < j < |t| ensures t[i].last < t[j].first {
      var k, l := Mates(s, t, i, j);
      assert s[k] in s && s[l] in s;
      assert Within(s[l].first, s[l].last, s[l].first);
      assert !Within(s[k].first, s[k].last, s[l].first);
    }
  }

  const FIVE := [Lease(1, ACTIVE, None), Lease(2, ACTIVE, None), Lease(3, ACTIVE, None), Lease(4, ACTIVE, None),
                 Lease(5, ACTIVE, None)]
  const ABOVE := Range(0, 11, 20, 0, 0, 0)

  /** A table on which L + 2R is not met: five leases in the lower of two ranges are scanned twice. */
  lemma ScannedTwice(moves: nat)
    requires SweepBounds(FIVE, [ALONE, ABOVE], moves)
    ensures InOrder([ALONE, ABOVE]) && moves >= 2 * |FIVE| > |FIVE| + 2 * |[ALONE, ABOVE]|
  {
    var rs := [ALONE, ABOVE];
    assert rs[..1] == [ALONE] && [ALONE][..0] == [];
    assert RunOuts(FIVE, [ALONE]) == 1;
  }

  // ----- the cost in terms of what was declared -----

  lemma {:induction false} RunOutsSplit(leases: seq<Lease>, s: seq<Range>, t: seq<Range>)
    ensures RunOuts(leases, s + t) == RunOuts(leases, s) + RunOuts(leases, t)
  {
    hide RunOut;
    if t == [] {
      assert s + t == s;
    } else {
      assert (s + t)[..|s + t| - 1] == s + t[..|t| - 1];
      RunOutsSplit(leases, s, t[..|t| - 1]);
    }
  }

  lemma RunOutsWithout(leases: seq<Lease>, t: seq<Range>, i: nat)
    requires i < |t|
    ensures RunOuts(leases, t) == RunOuts(leases, t[..i] + t[i + 1..]) + if RunOut(leases, t[i]) then 1 else 0
  {
    hide RunOut;
    assert t == t[..i + 1] + t[i + 1..] && t[..i + 1][..i] == t[..i];
    RunOutsSplit(leases, t[..i + 1], t[i + 1..]);
    RunOutsSplit(leases, t[..i], t[i + 1..]);
  }

  lemma {:induction false} RunOutsPermutes(leases: seq<Lease>, s: seq<Range>, t: seq<Range>)
    requires multiset(s) == multiset(t)
    ensures RunOuts(leases, s) == RunOuts(leases, t)
  {
    hide RunOut;
    if s == [] {
      assert |multiset(t)| == 0;
    } else {
      var i := RemoveSame(s, t);
      RunOutsPermutes(leases, s[..|s| - 1], t[..i] + t[i + 1..]);
      RunOutsWithout(leases, t, i);
    }
  }

  /** Some lease lies above every range, the one at h excepted. */
  ghost predicate OutlastAllBut(leases: seq<Lease>, rs: seq<Range>, h: nat) {
    h < |rs| && forall j | 0 <= j < |rs| && j != h :: !RunOut(leases, rs[j])
  }

  lemma RunOutsAllBut(leases: seq<Lease>, rs: seq<Range>, h: nat)
    requires h < |rs|
    ensures OutlastAllBut(leases, rs, h) <==>
              RunOuts(leases, rs) == if RunOut(leases, rs[h]) then 1 else 0
  {
    hide RunOut, RunOuts;
    var rest := rs[..h] + rs[h + 1..];
    RunOutsWithout(leases, rs, h);
    NoRunOuts(leases, rest);
    forall j | 0 <= j < |rs| && j != h ensures rs[j] == rest[if j < h then j else j - 1] {
    }
    forall j | 0 <= j < |rest| ensures rest[j] == rs[if j < h then j else j + 1] {
    }
  }

  /** At most one range has no lease above it exactly when all but one have. */
  lemma RunOutsAtMostOne(leases: seq<Lease>, rs: seq<Range>)
    ensures RunOuts(leases, rs) <= 1 <==> |rs| <= 1 || exists h :: OutlastAllBut(leases, rs, h)
  {
    hide RunOut, RunOuts;
    NoRunOuts(leases, rs);
    if h: nat :| OutlastAllBut(leases, rs, h) {
      RunOutsAllBut(leases, rs, h);
    }
    if |rs| >= 2 && RunOuts(leases, rs) <= 1 {
      if h: nat :| h < |rs| && RunOut(leases, rs[h]) {
        RunOutsAllBut(leases, rs, h);
        RunOutsWithout(leases, rs, h);
      } else {
        RunOutsAllBut(leases, rs, 0);
      }
    }
  }
}

/** The classification and exit value of output_alarming (src/output.c). */
module Alarm {
  import opened Address
  import opened Pools
  import opened Ordering

  /** The options the alarm depends on; rBit and sBit are bits of the second --limit digit. */
  datatype Config = Config(warning: real, critical: real, warnCount: real, critCount: real, minsize: real,
                           snetAlarms: bool, rBit: bool, sBit: bool)

  datatype Class = Critical | Warning | Fine | Ignored

  /** `x < p` for a percentage that may be infinite or undefined. */
  predicate Exceeds(p: Double, x: real) {
    match p
    case Num(v) => x < v
    case Inf => true
    case NaN => false
  }

  function RangeClass(cfg: Config, ver: Version, r: Range): Class {
    var size := SizeOf(ver, r);
    var perc := Ratio(100 * r.count, size);
    if !(cfg.minsize < size as real) then Ignored
    else if Exceeds(perc, cfg.critical) && (size - r.count) as real < cfg.critCount then Critical
    else if Exceeds(perc, cfg.warning) && (size - r.count) as real < cfg.warnCount then Warning
    else Fine
  }

  function NetPercent(n: Net): Double {
    if n.available == 0 then Num(100.0) else Ratio(100 * n.used, n.available)
  }

  /** Shared networks compare the used addresses, not the free ones, with the count thresholds. */
  function NetClass(cfg: Config, n: Net): Class {
    var perc := NetPercent(n);
    if !(cfg.minsize < n.available as real) then Ignored
    else if Exceeds(perc, cfg.critical) && n.used as real < cfg.critCount then Critical
    else if Exceeds(perc, cfg.warning) && n.used as real < cfg.warnCount then Warning
    else Fine
  }

  function RangesIn(cfg: Config, ver: Version, rs: seq<Range>, c: Class): nat {
    if rs == [] then 0
    else RangesIn(cfg, ver, rs[..|rs| - 1], c) + if RangeClass(cfg, ver, rs[|rs| - 1]) == c then 1 else 0
  }

  function NetsIn(cfg: Config, ns: seq<Net>, c: Class): nat {
    if ns == [] then 0
    else NetsIn(cfg, ns[..|ns| - 1], c) + if NetClass(cfg, ns[|ns| - 1]) == c then 1 else 0
  }

  /** The number of ranges the loop examines: with --snet-alarms it never gets past the first range
      of a shared network. */
  function Examined(cfg: Config, rs: seq<Range>): (p: nat)
    ensures p <= |rs|
    ensures forall k | 0 <= k < p :: !cfg.snetAlarms || rs[k].net == 0
    ensures p < |rs| ==> cfg.snetAlarms && rs[p].net != 0
  {
    if rs == [] || (cfg.snetAlarms && rs[0].net != 0) then 0 else 1 + Examined(cfg, rs[1..])
  }

  function ReturnValue(critical: bool, warning: bool): nat {
    if critical then 2 else if warning then 1 else 0
  }

  /** The exit value for a final range table and the shared networks. */
  function ExitValue(cfg: Config, ver: Version, rs: seq<Range>, ns: seq<Net>): nat {
    var seen := if cfg.rBit then rs[..Examined(cfg, rs)] else [];
    var nets := if cfg.sBit then ns else [];
    ReturnValue(RangesIn(cfg, ver, seen, Critical) + NetsIn(cfg, nets, Critical) > 0,
                RangesIn(cfg, ver, seen, Warning) + NetsIn(cfg, nets, Warning) > 0)
  }

  /** The counters of one loop. */
  datatype Counters = Counters(crit: nat, warn: nat, ok: nat, ignored: nat)

  function Bump(c: Counters, k: Class): Counters {
    match k
    case Critical => c.(crit := c.crit + 1)
    case Warning => c.(warn := c.warn + 1)
    case Fine => c.(ok := c.ok + 1)
    case Ignored => c.(ignored := c.ignored + 1)
  }

  function RangeCounters(cfg: Config, ver: Version, rs: seq<Range>): Counters {
    Counters(RangesIn(cfg, ver, rs, Critical), RangesIn(cfg, ver, rs, Warning), RangesIn(cfg, ver, rs, Fine),
             RangesIn(cfg, ver, rs, Ignored))
  }

  function NetCounters(cfg: Config, ns: seq<Net>): Counters {
    Counters(NetsIn(cfg, ns, Critical), NetsIn(cfg, ns, Warning), NetsIn(cfg, ns, Fine), NetsIn(cfg, ns, Ignored))
  }

  lemma RangeBump(cfg: Config, ver: Version, rs: seq<Range>, p: nat)
    requires p < |rs|
    ensures RangeCounters(cfg, ver, rs[..p + 1]) == Bump(RangeCounters(cfg, ver, rs[..p]), RangeClass(cfg, ver, rs[p]))
  {
    hide RangeClass;
    assert rs[..p + 1][..p] == rs[..p];
  }

  lemma NetBump(cfg: Config, ns: seq<Net>, p: nat)
    requires p < |ns|
    ensures NetCounters(cfg, ns[..p + 1]) == Bump(NetCounters(cfg, ns[..p]), NetClass(cfg, ns[p]))
  {
    hide NetClass;
    assert ns[..p + 1][..p] == ns[..p];
  }

  /** The range loop: `continue` leaves range_p where it is; after the last range the size of the slot
      behind it is read. */
  method ClassifyRanges(cfg: Config, ver: Version, ranges: array<Range>, numRanges: nat) returns (c: Counters)
    requires numRanges < ranges.Length
    ensures var seen := ranges[..Examined(cfg, ranges[..numRanges])];
            && c.crit == RangesIn(cfg, ver, seen, Critical) && c.warn == RangesIn(cfg, ver, seen, Warning)
            && c.ok == RangesIn(cfg, ver, seen, Fine) && c.ignored == RangesIn(cfg, ver, seen, Ignored)
  {
    hide RangeSize, RangesIn;
    ghost var rs := ranges[..numRanges];
    ghost var seen := Examined(cfg, rs);
    var rc, rw, ro, ri := 0, 0, 0, 0;
    var p := 0;
    var rangeSize := SizeOf(ver, ranges[p]);
    NothingSeen(cfg, ver, rs);
    for i := 0 to numRanges
      invariant p == if i < seen then i else seen
      invariant rangeSize == SizeOf(ver, ranges[p])
      invariant Counters(rc, rw, ro, ri) == RangeCounters(cfg, ver, rs[..p])
    {
      assert ranges[p] == rs[p];
      if cfg.snetAlarms && ranges[p].net != 0 { continue; }
      RangeBump(cfg, ver, rs, p);
      if cfg.minsize < rangeSize as real {
        var perc := Ratio(100 * ranges[p].count, rangeSize);
        if Exceeds(perc, cfg.critical) && (rangeSize - ranges[p].count) as real < cfg.critCount {
          rc := rc + 1;
        } else if Exceeds(perc, cfg.warning) && (rangeSize - ranges[p].count) as real < cfg.warnCount {
          rw := rw + 1;
        } else {
          ro := ro + 1;
        }
      } else {
        ri := ri + 1;
      }
      p := p + 1;
      rangeSize := SizeOf(ver, ranges[p]);
    }
    assert rs[..seen] == ranges[..seen];
    c := Counters(rc, rw, ro, ri);
  }

  lemma NothingSeen(cfg: Config, ver: Version, rs: seq<Range>)
    ensures RangeCounters(cfg, ver, rs[..0]) == Counters(0, 0, 0, 0)
  {
  }

  /** The shared network loop, over entries 1 to num_shared_networks. */
  method ClassifyNets(cfg: Config, nets: array<Net>, numNets: nat) returns (c: Counters)
    requires numNets < nets.Length
    ensures var ns := nets[1..numNets + 1];
            && c.crit == NetsIn(cfg, ns, Critical) && c.warn == NetsIn(cfg, ns, Warning)
            && c.ok == NetsIn(cfg, ns, Fine) && c.ignored == NetsIn(cfg, ns, Ignored)
  {
    hide Ratio;
    ghost var ns := nets[1..numNets + 1];
    var sc, sw, so, si := 0, 0, 0, 0;
    var p := 0;
    for i := 0 to numNets
      invariant p == i
      invariant Counters(sc, sw, so, si) == NetCounters(cfg, ns[..i])
    {
      p := p + 1;
      NetBump(cfg, ns, i);
      assert nets[p] == ns[i];
      if cfg.minsize < nets[p].available as real {
        var perc := if nets[p].available == 0 then Num(100.0) else Ratio(100 * nets[p].used, nets[p].available);
        if Exceeds(perc, cfg.critical) && nets[p].used as real < cfg.critCount {
          sc := sc + 1;
        } else if Exceeds(perc, cfg.warning) && nets[p].used as real < cfg.warnCount {
          sw := sw + 1;
        } else {
          so := so + 1;
        }
      } else {
        si := si + 1;
      }
    }
    assert ns[..numNets] == ns;
    c := Counters(sc, sw, so, si);
  }

  method OutputAlarming(cfg: Config, ver: Version, ranges: array<Range>, numRanges: nat, nets: array<Net>,
                        numNets: nat)
    returns (r: Counters, s: Counters, retVal: nat)
    requires numRanges < ranges.Length && numNets < nets.Length
    ensures cfg.rBit ==> r == RangeCounters(cfg, ver, ranges[..Examined(cfg, ranges[..numRanges])])
    ensures cfg.sBit ==> s == NetCounters(cfg, nets[1..numNets + 1])
    ensures retVal == ExitValue(cfg, ver, ranges[..numRanges], nets[1..numNets + 1])
  {
    hide RangeClass, NetClass, Examined;
    r, s := Counters(0, 0, 0, 0), Counters(0, 0, 0, 0);
    if cfg.rBit { r := ClassifyRanges(cfg, ver, ranges, numRanges); }
    if cfg.sBit { s := ClassifyNets(cfg, nets, numNets); }
    ghost var p := Examined(cfg, ranges[..numRanges]);
    assert ranges[..numRanges][..p] == ranges[..p];
    if s.crit != 0 || r.crit != 0 {
      retVal := 2;
    } else if s.warn != 0 || r.warn != 0 {
      retVal := 1;
    } else {
      retVal := 0;
    }
  }

  // ----- partition and order -----

  lemma {:induction false} RangesSplit(cfg: Config, ver: Version, s: seq<Range>, t: seq<Range>, c: Class)
    ensures RangesIn(cfg, ver, s + t, c) == RangesIn(cfg, ver, s, c) + RangesIn(cfg, ver, t, c)
  {
    hide RangeClass;
    if t == [] {
      assert s + t == s;
    } else {
      assert (s + t)[..|s + t| - 1] == s + t[..|t| - 1];
      RangesSplit(cfg, ver, s, t[..|t| - 1], c);
    }
  }

  ghost function RangesOf(cfg: Config, ver: Version, rs: seq<Range>, c: Class): set<int> {
    set k | 0 <= k < |rs| && RangeClass(cfg, ver, rs[k]) == c
  }

  ghost function NetsOf(cfg: Config, ns: seq<Net>, c: Class): set<int> {
    set k | 0 <= k < |ns| && NetClass(cfg, ns[k]) == c
  }

  lemma OneMore(init: set<int>, all: set<int>, n: int)
    requires n !in init && n in all && all - {n} == init
    ensures |all| == |init| + 1
  {
    assert all == init + {n};
  }

  /** The counters are numbers of ranges... */
  lemma {:induction false} RangesInIsCardinality(cfg: Config, ver: Version, rs: seq<Range>, c: Class)
    ensures RangesIn(cfg, ver, rs, c) == |RangesOf(cfg, ver, rs, c)|
  {
    hide RangeClass;
    if rs != [] {
      var n := |rs| - 1;
      RangesInIsCardinality(cfg, ver, rs[..n], c);
      var init, all := RangesOf(cfg, ver, rs[..n], c), RangesOf(cfg, ver, rs, c);
      assert all - {n} == init;
      if RangeClass(cfg, ver, rs[n]) == c { OneMore(init, all, n); } else { assert all == init; }
    }
  }

  /** ... and of shared networks. */
  lemma {:induction false} NetsInIsCardinality(cfg: Config, ns: seq<Net>, c: Class)
    ensures NetsIn(cfg, ns, c) == |NetsOf(cfg, ns, c)|
  {
    hide NetClass;
    if ns != [] {
      var n := |ns| - 1;
      NetsInIsCardinality(cfg, ns[..n], c);
      var init, all := NetsOf(cfg, ns[..n], c), NetsOf(cfg, ns, c);
      assert all - {n} == init;
      if NetClass(cfg, ns[n]) == c { OneMore(init, all, n); } else { assert all == init; }
    }
  }

  /** Each range examined is counted in exactly one class. */
  lemma {:induction false} RangePartition(cfg: Config, ver: Version, rs: seq<Range>)
    ensures var c := RangeCounters(cfg, ver, rs); c.crit + c.warn + c.ok + c.ignored == |rs|
  {
    hide RangeClass;
    if rs != [] { RangePartition(cfg, ver, rs[..|rs| - 1]); }
  }

  lemma {:induction false} NetPartition(cfg: Config, ns: seq<Net>)
    ensures var c := NetCounters(cfg, ns); c.crit + c.warn + c.ok + c.ignored == |ns|
  {
    hide NetClass;
    if ns != [] { NetPartition(cfg, ns[..|ns| - 1]); }
  }

  lemma ExaminesAll(cfg: Config, rs: seq<Range>)
    requires !cfg.snetAlarms
    ensures Examined(cfg, rs) == |rs|
  {
  }

  lemma RangesWithout(cfg: Config, ver: Version, t: seq<Range>, i: nat, c: Class)
    requires i < |t|
    ensures RangesIn(cfg, ver, t, c) ==
            RangesIn(cfg, ver, t[..i] + t[i + 1..], c) + if RangeClass(cfg, ver, t[i]) == c then 1 else 0
  {
    hide RangeClass;
    assert t == t[..i + 1] + t[i + 1..];
    assert t[..i + 1][..i] == t[..i];
    RangesSplit(cfg, ver, t[..i + 1], t[i + 1..], c);
    RangesSplit(cfg, ver, t[..i], t[i + 1..], c);
  }

  /** The counters depend on the ranges, not on their order. */
  lemma {:induction false} OrderIsIrrelevant(cfg: Config, ver: Version, s: seq<Range>, t: seq<Range>, c: Class)
    requires multiset(s) == multiset(t)
    ensures RangesIn(cfg, ver, s, c) == RangesIn(cfg, ver, t, c)
  {
    hide RangeClass;
    if s == [] {
      assert |multiset(t)| == 0;
    } else {
      var i := RemoveSame(s, t);
      OrderIsIrrelevant(cfg, ver, s[..|s| - 1], t[..i] + t[i + 1..], c);
      RangesWithout(cfg, ver, t, i, c);
    }
  }

  /** Without --snet-alarms no sorting or flipping changes the exit value. */
  lemma ExitIgnoresOrder(cfg: Config, ver: Version, s: seq<Range>, t: seq<Range>, ns: seq<Net>)
    requires multiset(s) == multiset(t) && !cfg.snetAlarms
    ensures ExitValue(cfg, ver, s, ns) == ExitValue(cfg, ver, t, ns)
  {
    hide RangesIn, NetsIn;
    ExaminesAll(cfg, s);
    ExaminesAll(cfg, t);
    assert s[..|s|] == s && t[..|t|] == t;
    OrderIsIrrelevant(cfg, ver, s, t, Critical);
    OrderIsIrrelevant(cfg, ver, s, t, Warning);
  }

  /** The ranges that --snet-alarms is documented to keep: those outside shared networks. */
  function Standalone(rs: seq<Range>): seq<Range> {
    if rs == [] then []
    else Standalone(rs[..|rs| - 1]) + if rs[|rs| - 1].net == 0 then [rs[|rs| - 1]] else []
  }

  lemma {:induction false} StandaloneConcat(s: seq<Range>, t: seq<Range>)
    ensures Standalone(s + t) == Standalone(s) + Standalone(t)
  {
    if t == [] {
      assert s + t == s;
    } else {
      assert (s + t)[..|s + t| - 1] == s + t[..|t| - 1];
      StandaloneConcat(s, t[..|t| - 1]);
    }
  }

  lemma {:induction false} AllStandalone(rs: seq<Range>)
    requires forall k | 0 <= k < |rs| :: rs[k].net == 0
    ensures Standalone(rs) == rs
  {
    if rs != [] {
      var n := |rs| - 1;
      AllStandalone(rs[..n]);
      assert rs == rs[..n] + [rs[n]];
    }
  }

  lemma {:induction false} NoneStandalone(rs: seq<Range>)
    ensures Standalone(rs) == [] <==> forall k | 0 <= k < |rs| :: rs[k].net != 0
  {
    if rs != [] {
      var n := |rs| - 1;
      NoneStandalone(rs[..n]);
      assert forall k | 0 <= k < n :: rs[..n][k] == rs[k];
      assert rs[n].net == 0 ==> |Standalone(rs)| > 0;
    }
  }

  /** With --snet-alarms the counters are the documented ones exactly when no range outside shared
      networks comes after the first range inside one. */
  lemma SnetAlarmsIff(cfg: Config, ver: Version, rs: seq<Range>)
    requires cfg.snetAlarms
    ensures RangeCounters(cfg, ver, rs[..Examined(cfg, rs)]) == RangeCounters(cfg, ver, Standalone(rs)) <==>
              forall r | r in rs[Examined(cfg, rs)..] :: r.net != 0
  {
    hide RangeCounters, Examined, Standalone;
    var p := Examined(cfg, rs);
    assert rs == rs[..p] + rs[p..];
    StandaloneSplit(rs[..p], rs[p..]);
    if |Standalone(rs)| != p { DifferentTotals(cfg, ver, rs[..p], Standalone(rs)); }
  }

  const NETWORKED := Range(1, 1, 10, 0, 0, 0)
  const FULL := Range(0, 11, 20, 10, 0, 0)

  /** A table it fails on: a full range outside shared networks, behind a range inside one, raises no
      alarm. */
  lemma SnetAlarmsMissRange()
    ensures var cfg := Config(80.0, 90.0, 100.0, 100.0, 0.0, true, true, true);
            var rs := [NETWORKED, FULL];
            && RangeClass(cfg, IPv4, FULL) == Critical && Standalone(rs) == [FULL]
            && RangeCounters(cfg, IPv4, rs[..Examined(cfg, rs)]) == Counters(0, 0, 0, 0)
            && ExitValue(cfg, IPv4, rs, []) == 0
  {
    var rs := [NETWORKED, FULL];
    assert 1000 as real / 10 as real == 100.0;
    assert rs[..1] == [NETWORKED] && rs[..0] == [];
    assert Standalone([NETWORKED]) == [];
  }

  lemma DifferentTotals(cfg: Config, ver: Version, s: seq<Range>, t: seq<Range>)
    requires |s| != |t|
    ensures RangeCounters(cfg, ver, s) != RangeCounters(cfg, ver, t)
  {
    hide RangeClass, RangesIn;
    RangePartition(cfg, ver, s);
    RangePartition(cfg, ver, t);
  }

  lemma StandaloneSplit(head: seq<Range>, rest: seq<Range>)
    requires forall k | 0 <= k < |head| :: head[k].net == 0
    ensures if forall k | 0 <= k < |rest| :: rest[k].net != 0 then Standalone(head + rest) == head
            else |Standalone(head + rest)| > |head|
  {
    hide Standalone;
    StandaloneConcat(head, rest);
    AllStandalone(head);
    NoneStandalone(rest);
  }

  // ----- monotonicity -----

  function Severity(c: Class): nat {
    match c
    case Critical => 2
    case Warning => 1
    case _ => 0
  }

  lemma {:induction false} RangesInIff(cfg: Config, ver: Version, rs: seq<Range>, c: Class)
    ensures RangesIn(cfg, ver, rs, c) > 0 <==> exists k :: 0 <= k < |rs| && RangeClass(cfg, ver, rs[k]) == c
  {
    hide RangeClass;
    if rs != [] {
      var n := |rs| - 1;
      RangesInIff(cfg, ver, rs[..n], c);
      if RangeClass(cfg, ver, rs[n]) != c && RangesIn(cfg, ver, rs[..n], c) > 0 {
        var k :| 0 <= k < n && RangeClass(cfg, ver, rs[..n][k]) == c;
        assert RangeClass(cfg, ver, rs[k]) == c;
      }
      if k :| 0 <= k < n && RangeClass(cfg, ver, rs[k]) == c {
        assert RangeClass(cfg, ver, rs[..n][k]) == c;
      }
    }
  }

  lemma {:induction false} NetsInIff(cfg: Config, ns: seq<Net>, c: Class)
    ensures NetsIn(cfg, ns, c) > 0 <==> exists k :: 0 <= k < |ns| && NetClass(cfg, ns[k]) == c
  {
    hide NetClass;
    if ns != [] {
      var n := |ns| - 1;
      NetsInIff(cfg, ns[..n], c);
      if NetClass(cfg, ns[n]) != c && NetsIn(cfg, ns[..n], c) > 0 {
        var k :| 0 <= k < n && NetClass(cfg, ns[..n][k]) == c;
        assert NetClass(cfg, ns[k]) == c;
      }
      if k :| 0 <= k < n && NetClass(cfg, ns[k]) == c {
        assert NetClass(cfg, ns[..n][k]) == c;
      }
    }
  }

  lemma DivideMonotone(a: nat, b: nat, d: int)
    requires a <= b && d > 0
    ensures a as real / d as real <= b as real / d as real
  {
  }

  /** used/size is more than x, without the quotient. */
  predicate Crosses(used: nat, size: int, x: real) {
    if size < 0 then (100 * used) as real < x * size as real else x * size as real < (100 * used) as real
  }

  /** What the classes mean: above --minsize, both the percentage and the number of free addresses have
      to cross their thresholds.  This holds for the size 0 of the full IPv4 space as well. */
  lemma RangeClassMeaning(cfg: Config, ver: Version, r: Range)
    ensures var size := SizeOf(ver, r);
            var free := (size - r.count) as real;
            RangeClass(cfg, ver, r) ==
            if size as real <= cfg.minsize then Ignored
            else if Crosses(r.count, size, cfg.critical) && free < cfg.critCount then Critical
            else if Crosses(r.count, size, cfg.warning) && free < cfg.warnCount then Warning
            else Fine
  {
    hide RangeSize, Crosses, Ratio, Exceeds;
    PercentMeaning(r.count, SizeOf(ver, r), cfg.critical);
    PercentMeaning(r.count, SizeOf(ver, r), cfg.warning);
  }

  lemma PercentMeaning(n: nat, d: int, x: real)
    ensures Exceeds(Ratio(100 * n, d), x) <==> Crosses(n, d, x)
  {
    if d != 0 {
      var u, dr := (100 * n) as real, d as real;
      var q := u / dr;
      assert q * dr == u;
      if d > 0 { TimesPositive(x, q, dr); } else { TimesNegative(x, q, dr); }
    }
  }

  lemma TimesPositive(x: real, q: real, d: real)
    requires d > 0.0
    ensures x < q <==> x * d < q * d
  {
    if x < q { assert x * d < q * d; }
    if x >= q { assert x * d >= q * d; }
  }

  lemma TimesNegative(x: real, q: real, d: real)
    requires d < 0.0
    ensures x < q <==> q * d < x * d
  {
    TimesPositive(x, q, -d);
    assert x * -d == -(x * d) && q * -d == -(q * d);
  }

  /** What the classes of a shared network mean: above --minsize, the percentage has to cross its threshold
      and the used addresses have to be fewer than the count; a network without addresses counts as full. */
  lemma NetClassMeaning(cfg: Config, n: Net)
    ensures var used := n.used as real;
            NetClass(cfg, n) ==
            if n.available as real <= cfg.minsize then Ignored
            else if (if n.available == 0 then cfg.critical < 100.0 else Crosses(n.used, n.available, cfg.critical))
                    && used < cfg.critCount then Critical
            else if (if n.available == 0 then cfg.warning < 100.0 else Crosses(n.used, n.available, cfg.warning))
                    && used < cfg.warnCount then Warning
            else Fine
  {
    hide Crosses, Ratio;
    PercentMeaning(n.used, n.available, cfg.critical);
    PercentMeaning(n.used, n.available, cfg.warning);
  }

  /** More active leases in the same range never make its class milder. */
  lemma RangeClassMonotone(cfg: Config, ver: Version, r: Range, r': Range)
    requires r'.first == r.first && r'.last == r.last && r.count <= r'.count && SizeOf(ver, r) >= 0
    ensures Severity(RangeClass(cfg, ver, r)) <= Severity(RangeClass(cfg, ver, r'))
  {
    hide RangeSize;
    if SizeOf(ver, r) > 0 { DivideMonotone(100 * r.count, 100 * r'.count, SizeOf(ver, r)); }
  }

  /** Above --minsize and above a percentage. */
  predicate OverNet(cfg: Config, n: Net, percent: real) {
    cfg.minsize < n.available as real && Exceeds(NetPercent(n), percent)
  }

  predicate CriticalNet(cfg: Config, n: Net) {
    OverNet(cfg, n, cfg.critical) && n.used as real < cfg.critCount
  }

  /** The guards on which a network keeps its alarm when more of its addresses are in use. */
  predicate KeepsAlarm(cfg: Config, n: Net, n': Net) {
    && (CriticalNet(cfg, n) ==> n'.used as real < cfg.critCount)
    && (!CriticalNet(cfg, n) && OverNet(cfg, n, cfg.warning) && n.used as real < cfg.warnCount ==>
          n'.used as real < cfg.warnCount || CriticalNet(cfg, n'))
  }

  lemma NetPercentGrows(cfg: Config, n: Net, n': Net, percent: real)
    requires n'.available == n.available >= 0 && n.used <= n'.used
    ensures OverNet(cfg, n, percent) ==> OverNet(cfg, n', percent)
  {
    if n.available > 0 { DivideMonotone(100 * n.used, 100 * n'.used, n.available); }
  }

  /** More used addresses in a shared network leave its class at least as severe exactly when, for the
      alarm its percentage raises, the used addresses stay below the count threshold. */
  lemma NetClassMonotoneIff(cfg: Config, n: Net, n': Net)
    requires n'.available == n.available >= 0 && n.used <= n'.used
    ensures Severity(NetClass(cfg, n)) <= Severity(NetClass(cfg, n')) <==> KeepsAlarm(cfg, n, n')
  {
    hide NetPercent, Exceeds;
    NetPercentGrows(cfg, n, n', cfg.critical);
    NetPercentGrows(cfg, n, n', cfg.warning);
  }

  /** Below both count thresholds every alarm is kept. */
  lemma BelowCountsKeepsAlarm(cfg: Config, n: Net, n': Net)
    requires n'.used as real < cfg.critCount && n'.used as real < cfg.warnCount
    ensures KeepsAlarm(cfg, n, n')
  {
  }

  // ----- free addresses and used ones -----

  /** The class the manual describes: the free leases of the network against the count thresholds. */
  function DocumentedNetClass(cfg: Config, n: Net): Class {
    var free := (n.available - n.used) as real;
    if n.available as real <= cfg.minsize then Ignored
    else if OverNet(cfg, n, cfg.critical) && free < cfg.critCount then Critical
    else if OverNet(cfg, n, cfg.warning) && free < cfg.warnCount then Warning
    else Fine
  }

  /** The class of a shared network is the documented one exactly when, for each alarm its percentage
      raises, the used and the free addresses lie on the same side of the count threshold. */
  lemma NetClassDocumentedIff(cfg: Config, n: Net)
    ensures var used, free := n.used as real, (n.available - n.used) as real;
            NetClass(cfg, n) == DocumentedNetClass(cfg, n) <==>
              && (OverNet(cfg, n, cfg.critical) ==> (used < cfg.critCount <==> free < cfg.critCount))
              && (OverNet(cfg, n, cfg.warning) && !CriticalNet(cfg, n) ==>
                    (used < cfg.warnCount <==> free < cfg.warnCount))
  {
    hide NetPercent, Exceeds;
  }

  /** An instance where it differs: of ten addresses four are in use and six are free. */
  lemma FreeLeasesNotCompared()
    ensures var cfg := Config(30.0, 30.0, 5.0, 5.0, 0.0, false, true, true);
            var n := Net("net", 10, 4, 0, 0);
            NetClass(cfg, n) == Critical && DocumentedNetClass(cfg, n) == Fine
  {
    assert 400 as real / 10 as real == 40.0;
  }

  /** An instance where it fails: the fifth lease of ten ends the alarm of a critical network, and the
      program, which reports the range as fine both times, exits with 0 instead of 2. */
  lemma MoreUsedMilderAlarm()
    ensures var cfg := Config(30.0, 30.0, 5.0, 5.0, 0.0, false, true, true);
            var n, n' := Net("net", 10, 4, 0, 0), Net("net", 10, 5, 0, 0);
            var r, r' := Range(1, 1, 10, 4, 0, 0), Range(1, 1, 10, 5, 0, 0);
            && NetClass(cfg, n) == Critical && NetClass(cfg, n') == Fine
            && ExitValue(cfg, IPv4, [r], [n]) == 2 && ExitValue(cfg, IPv4, [r'], [n']) == 0
  {
    hide ExitValue;
    var cfg := Config(30.0, 30.0, 5.0, 5.0, 0.0, false, true, true);
    assert 400 as real / 10 as real == 40.0;
    assert 500 as real / 10 as real == 50.0;
    ExitOfOne(cfg, IPv4, Range(1, 1, 10, 4, 0, 0), Net("net", 10, 4, 0, 0));
    ExitOfOne(cfg, IPv4, Range(1, 1, 10, 5, 0, 0), Net("net", 10, 5, 0, 0));
  }

  lemma ExitOfOne(cfg: Config, ver: Version, r: Range, n: Net)
    requires !cfg.snetAlarms && cfg.rBit && cfg.sBit && RangeClass(cfg, ver, r) == Fine
    ensures ExitValue(cfg, ver, [r], [n]) == Severity(NetClass(cfg, n))
  {
    hide RangeClass, NetClass;
    ExaminesAll(cfg, [r]);
    assert [r][..1] == [r] && [r][..0] == [] && [n][..0] == [];
    forall c ensures RangesIn(cfg, ver, [r], c) == if c == Fine then 1 else 0 {
      assert RangesIn(cfg, ver, [], c) == 0;
    }
    forall c ensures NetsIn(cfg, [n], c) == if NetClass(cfg, n) == c then 1 else 0 {
      assert NetsIn(cfg, [], c) == 0;
    }
  }

  /** Without the networks in --limit they do not matter for the exit value. */
  lemma ExitIgnoresNets(cfg: Config, ver: Version, rs: seq<Range>, ns: seq<Net>, ns': seq<Net>)
    requires !cfg.sBit
    ensures ExitValue(cfg, ver, rs, ns) == ExitValue(cfg, ver, rs, ns')
  {
    hide RangesIn;
  }

  /** A range of class c is examined: with --snet-alarms no range before it, nor itself, lies in a shared
      network. */
  ghost predicate RangeRaises(cfg: Config, ver: Version, rs: seq<Range>, k: int, c: Class) {
    && cfg.rBit && 0 <= k < |rs| && RangeClass(cfg, ver, rs[k]) == c
    && forall j | 0 <= j <= k :: !cfg.snetAlarms || rs[j].net == 0
  }

  ghost predicate NetRaises(cfg: Config, ns: seq<Net>, k: int, c: Class) {
    cfg.sBit && 0 <= k < |ns| && NetClass(cfg, ns[k]) == c
  }

  ghost predicate Raised(cfg: Config, ver: Version, rs: seq<Range>, ns: seq<Net>, c: Class) {
    (exists k :: RangeRaises(cfg, ver, rs, k, c)) || (exists k :: NetRaises(cfg, ns, k, c))
  }

  lemma {:induction false} ExaminedIff(cfg: Config, rs: seq<Range>, k: nat)
    requires k < |rs|
    ensures k < Examined(cfg, rs) <==> forall j | 0 <= j <= k :: !cfg.snetAlarms || rs[j].net == 0
  {
  }

  lemma RaisedIff(cfg: Config, ver: Version, rs: seq<Range>, ns: seq<Net>, c: Class)
    ensures Raised(cfg, ver, rs, ns, c) <==>
              RangesIn(cfg, ver, if cfg.rBit then rs[..Examined(cfg, rs)] else [], c)
              + NetsIn(cfg, if cfg.sBit then ns else [], c) > 0
  {
    hide RangeClass, NetClass, RangesIn, NetsIn, Examined;
    var seen := if cfg.rBit then rs[..Examined(cfg, rs)] else [];
    var nets := if cfg.sBit then ns else [];
    RangesInIff(cfg, ver, seen, c);
    NetsInIff(cfg, nets, c);
    forall k: nat | k < |rs|
      ensures RangeRaises(cfg, ver, rs, k, c) <==> k < |seen| && RangeClass(cfg, ver, seen[k]) == c
    {
      ExaminedIff(cfg, rs, k);
    }
    if k: nat :| k < |seen| && RangeClass(cfg, ver, seen[k]) == c {
      assert RangeRaises(cfg, ver, rs, k, c);
    }
    if k: nat :| k < |nets| && NetClass(cfg, nets[k]) == c {
      assert NetRaises(cfg, ns, k, c);
    }
  }

  /** What the exit value means, with every combination of options. */
  lemma ExitMeaning(cfg: Config, ver: Version, rs: seq<Range>, ns: seq<Net>)
    ensures ExitValue(cfg, ver, rs, ns) ==
            if Raised(cfg, ver, rs, ns, Critical) then 2
            else if Raised(cfg, ver, rs, ns, Warning) then 1
            else 0
  {
    hide RangesIn, NetsIn, Raised, Examined;
    RaisedIff(cfg, ver, rs, ns, Critical);
    RaisedIff(cfg, ver, rs, ns, Warning);
  }

  lemma RaisedMonotone(cfg: Config, ver: Version, rs: seq<Range>, rs': seq<Range>, ns: seq<Net>, ns': seq<Net>,
                       c: Class)
    requires |rs| == |rs'| && |ns| == |ns'|
    requires forall k | 0 <= k < |rs| ::
               rs'[k].net == rs[k].net
               && Severity(RangeClass(cfg, ver, rs[k])) <= Severity(RangeClass(cfg, ver, rs'[k]))
    requires cfg.sBit ==>
               forall k | 0 <= k < |ns| :: Severity(NetClass(cfg, ns[k])) <= Severity(NetClass(cfg, ns'[k]))
    requires Raised(cfg, ver, rs, ns, c) && Severity(c) > 0
    ensures Raised(cfg, ver, rs', ns', c) || Raised(cfg, ver, rs', ns', Critical)
  {
    hide RangeClass, NetClass;
    if k :| RangeRaises(cfg, ver, rs, k, c) {
      assert RangeRaises(cfg, ver, rs', k, RangeClass(cfg, ver, rs'[k]));
    } else {
      var k :| NetRaises(cfg, ns, k, c);
      assert NetRaises(cfg, ns', k, NetClass(cfg, ns'[k]));
    }
  }

  /** The exit value is monotone in the active leases, where the shared networks keep their alarms. */
  lemma ExitMonotone(cfg: Config, ver: Version, rs: seq<Range>, rs': seq<Range>, ns: seq<Net>, ns': seq<Net>)
    requires |rs| == |rs'| && |ns| == |ns'|
    requires forall k | 0 <= k < |rs| ::
               rs'[k].net == rs[k].net && rs'[k].first == rs[k].first &&
               rs'[k].last == rs[k].last && rs[k].count <= rs'[k].count
               && SizeOf(ver, rs[k]) >= 0
    requires forall k | 0 <= k < |ns| ::
               ns'[k].available == ns[k].available >= 0 && ns[k].used <= ns'[k].used
               && (cfg.sBit ==> KeepsAlarm(cfg, ns[k], ns'[k]))
    ensures ExitValue(cfg, ver, rs, ns) <= ExitValue(cfg, ver, rs', ns')
  {
    hide RangeClass, NetClass, ExitValue, RangeSize, KeepsAlarm, Raised;
    ExitMeaning(cfg, ver, rs, ns);
    ExitMeaning(cfg, ver, rs', ns');
    forall k | 0 <= k < |rs|
      ensures Severity(RangeClass(cfg, ver, rs[k])) <= Severity(RangeClass(cfg, ver, rs'[k]))
    {
      RangeClassMonotone(cfg, ver, rs[k], rs'[k]);
    }
    if cfg.sBit {
      forall k | 0 <= k < |ns| ensures Severity(NetClass(cfg, ns[k])) <= Severity(NetClass(cfg, ns'[k])) {
        NetClassMonotoneIff(cfg, ns[k], ns'[k]);
      }
    }
    if Raised(cfg, ver, rs, ns, Critical) { RaisedMonotone(cfg, ver, rs, rs', ns, ns', Critical); }
    if Raised(cfg, ver, rs, ns, Warning) { RaisedMonotone(cfg, ver, rs, rs', ns, ns', Warning); }
  }
}

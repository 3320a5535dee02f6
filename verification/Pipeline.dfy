/** The whole run: configuration text, lease log and options to the printed table and the exit value
    (main in src/dhcpd-pools.c). */
module Pipeline {
  import opened Address
  import opened Pools
  import opened Ordering
  import opened StableSort
  import opened Sorting
  import RangeTable
  import Classifier
  import opened LeaseLog
  import opened Tally
  import opened Preparation
  import opened CountedTables
  import opened PrintOrder
  import Counting
  import opened FinalCounts
  import opened Scanner
  import opened ConfigTree
  import opened ConfigParser
  import Alarm

  /** What the last states say, when the log is well formed. */
  ghost function LastStates(e: Env, chunks: seq<string>): map<Addr, LeaseType> {
    Table(Events(e, chunks))
  }

  ghost predicate GoodLog(e: Env, chunks: seq<string>) {
    WellFormed(Events(e, chunks))
  }

  /** The exit value the documents and last states determine. */
  ghost function ExpectedExit(cfg: Alarm.Config, ver: Version, decls: seq<Range>, names: seq<string>,
                              m: map<Addr, LeaseType>): nat
    requires names != []
  {
    Alarm.ExitValue(cfg, ver, FinalRanges(m, decls), FinalNets(ver, m, decls, names))
  }

  /** The table the documents, last states and options determine. */
  ghost function ExpectedTable(ver: Version, decls: seq<Range>, names: seq<string>, m: map<Addr, LeaseType>,
                               keys: seq<Key>, reverse: bool): seq<Range> {
    Printed(Order(ver, names, keys), reverse, FinalRanges(m, decls))
  }

  // ----- counting -----

  /** The tables as the parser leaves them. */
  ghost predicate Declared(ver: Version, decls: seq<Range>, names: seq<string>, nets: seq<Net>) {
    && 0 < |names| <= |nets|
    && (forall r | r in decls :: Stored(ver, |nets|, r))
    && nets[0].name == names[0] && nets[0].used == nets[0].touched == nets[0].backups == 0
    && (forall k | 0 < k < |names| :: nets[k] == Net(names[k], 0, 0, 0, 0))
  }

  /** The log, sorted: the lease table holds the last states, in ascending order; and the ranges are
      sorted by first address. */
  method ReadLeases(e: Env, ranges: array<Range>, numRanges: nat, chunks: seq<string>) returns (leases: seq<Lease>)
    requires numRanges <= ranges.Length
    requires forall c | c in chunks :: |c| < Classifier.MAXLEN
    modifies ranges
    ensures Ascending(leases)
    ensures GoodLog(e, chunks) ==> Represents(leases, LastStates(e, chunks))
    ensures RangesSorted(e.ver, ranges[..numRanges])
    ensures multiset(ranges[..numRanges]) == multiset(old(ranges[..numRanges]))
    ensures forall k | numRanges <= k < ranges.Length :: ranges[k] == old(ranges[k])
  {
    hide Represents, Table, WellFormed, Unique, RangesSorted, Events;
    var table := new LeaseTable();
    var backupsFound := ParseLeases(table, e, false, chunks);
    PrepareData(e.ver, table, ranges, numRanges);
    leases := table.entries;
  }

  lemma PermutedDecls(ver: Version, decls: seq<Range>, rs: seq<Range>, n: nat)
    requires multiset(rs) == multiset(decls) && forall r | r in decls :: Stored(ver, n, r)
    ensures ZeroCounters(rs)
    ensures forall i | 0 <= i < |rs| :: rs[i].net < n
    ensures AllOrdered(ver, rs)
    ensures forall r | r in rs :: r.first <= r.last && InSpace(ver, r.last)
  {
    forall r | r in rs ensures Stored(ver, n, r) {
      assert r in multiset(decls);
    }
    forall i | 0 <= i < |rs| ensures rs[i].net < n {
      assert rs[i] in rs;
    }
  }

  /** Counting keeps the order of the addresses. */
  lemma CountedStaysSorted(ver: Version, leases: seq<Lease>, rs: seq<Range>, out: seq<Range>)
    requires RangesSorted(ver, rs) && AllCounted(leases, rs, out)
    ensures RangesSorted(ver, out)
    ensures forall i, j | 0 <= i < j < |rs| :: rs[i].first <= rs[j].first
  {
    hide IpComp, Count;
    SortedByIp(ver, rs);
    SortedByIp(ver, out);
    forall i | 0 <= i < |rs| ensures out[i].first == rs[i].first {
      assert out[i] == Counted(leases, rs[i]);
    }
  }

  /** What the counters of the networks are. */
  ghost predicate NetsFinal(ver: Version, m: map<Addr, LeaseType>, decls: seq<Range>, names: seq<string>, ns: seq<Net>)
    requires names != []
  {
    && |ns| == |names|
    && ns[0] == FinalTotal(ver, m, decls, names[0])
    && (AllFit(ver, decls) ==> ns[1..] == FinalNets(ver, m, decls, names))
  }

  lemma NetsAreFinal(ver: Version, leases: seq<Lease>, m: map<Addr, LeaseType>, decls: seq<Range>, rs: seq<Range>,
                     names: seq<string>, before: seq<Net>, after: seq<Net>)
    requires Represents(leases, m) && multiset(rs) == multiset(decls)
    requires 0 < |names| == |before| == |after| && after[0] == FinalTotal(ver, m, decls, names[0])
    requires forall k | 0 < k < |names| ::
               before[k] == Net(names[k], 0, 0, 0, 0) && Counting.NetCounted(ver, leases, rs, k, before[k], after[k])
    ensures NetsFinal(ver, m, decls, names, after)
  {
    hide Represents, FinalTotal, FinalNet, FinalNets, AllFit, Counting.NetCounted;
    if AllFit(ver, decls) {
      FinalNetsAt(ver, m, decls, names);
      forall k | 0 < k < |names| ensures after[k] == FinalNet(ver, m, decls, k, names[k]) {
        NetIsFinal(ver, leases, m, decls, rs, k, before[k], after[k]);
      }
    }
  }

  lemma NetsAreWithin(ver: Version, leases: seq<Lease>, decls: seq<Range>, rs: seq<Range>, out: seq<Range>,
                      names: seq<string>, before: seq<Net>, after: seq<Net>)
    requires Ascending(leases) && multiset(rs) == multiset(decls) && ZeroCounters(rs) && AllCounted(leases, rs, out)
    requires 0 < |names| == |before| == |after|
    requires after[0].available == ScopeSize(ver, out, All)
    requires after[0].used == ScopeSum(out, All, ACTIVE) && after[0].touched == ScopeSum(out, All, FREE)
    requires forall k | 0 < k < |names| ::
               before[k] == Net(names[k], 0, 0, 0, 0) && Counting.NetCounted(ver, leases, rs, k, before[k], after[k])
    ensures NetsWithin(ver, decls, after)
  {
    hide Ascending, ZeroCounters, AllCounted, ScopeSize, ScopeSum, ScopeCount, Counting.NetCounted, Counting.NetFits,
      ProperRange;
    forall k | 0 < k < |after| && Counting.NetFits(ver, decls, k) && ProperIn(ver, decls, Of(k))
      ensures after[k].used + after[k].touched + after[k].backups <= after[k].available
    {
      NetIsWithin(ver, leases, decls, rs, k, before[k], after[k]);
    }
    if ProperIn(ver, decls, All) {
      forall r | r in rs ensures r in decls { assert r in multiset(rs); }
      ScopeOccupancy(ver, leases, rs, All);
      CountersAddUp(leases, rs, out, All, ACTIVE);
      CountersAddUp(leases, rs, out, All, FREE);
      Counting.SameSizes(ver, leases, rs, out);
    }
  }

  /** Parsing the log, sorting, and the sweep: the counters of every range and network are the numbers of
      addresses by last state, and the ranges are sorted by first address.  Since the ranges are sorted
      before the sweep, its cost over disjoint ranges does not depend on the order they are declared in:
      L + 2R moves when a recorded address lies above all of them but the highest, one scan of the list
      more for every further range above all recorded addresses. */
  method Analyse(e: Env, ranges: array<Range>, numRanges: nat, nets: array<Net>, numNets: nat, chunks: seq<string>,
                 ghost decls: seq<Range>, ghost names: seq<string>)
    returns (leases: seq<Lease>, ghost moves: nat)
    requires numRanges <= ranges.Length && ranges[..numRanges] == decls
    requires |names| == numNets + 1 && numNets < nets.Length && Declared(e.ver, decls, names, nets[..])
    requires forall c | c in chunks :: |c| < Classifier.MAXLEN
    modifies ranges, nets
    ensures RangesSorted(e.ver, ranges[..numRanges]) && CountedTable(e.ver, leases, ranges[..numRanges])
    ensures RangesWithin(e.ver, ranges[..numRanges]) && NetsWithin(e.ver, decls, nets[..numNets + 1])
    ensures AllOrdered(e.ver, decls) && NetsAvailable(e.ver, decls, nets[..numNets + 1])
    ensures moves <= 2 * |leases| * numRanges
    ensures Disjoint(decls) ==> Counting.SweepBounds(leases, decls, moves)
    ensures GoodLog(e, chunks) ==>
              multiset(ranges[..numRanges]) == multiset(FinalRanges(LastStates(e, chunks), decls))
    ensures GoodLog(e, chunks) ==> NetsFinal(e.ver, LastStates(e, chunks), decls, names, nets[..numNets + 1])
    ensures GoodLog(e, chunks) ==> |leases| == |LastStates(e, chunks)|
    ensures GoodLog(e, chunks) && Disjoint(decls) && LeaseAboveAllButOne(LastStates(e, chunks), decls) ==>
              moves <= |LastStates(e, chunks)| + 2 * numRanges
    ensures GoodLog(e, chunks) && Disjoint(decls) && 2 * numRanges < |LastStates(e, chunks)| ==>
              (moves <= |LastStates(e, chunks)| + 2 * numRanges <==> LeaseAboveAllButOne(LastStates(e, chunks), decls))
  {
    hide Represents, Ascending, GoodLog, LastStates, FinalRanges, Counting.NetCounted, AllCounted, CountedTable,
      Counting.InOrder, Counting.LeasesLast, Counting.LeasesBelowAll, Counting.SweepBounds, Counting.RunOuts, ScopeSum,
      ScopeSize, ScopeCount, NetsFinal, RangesSorted, ZeroCounters, Disjoint, LeaseAboveAllButOne, FinalTotal, Stored,
      RangesWithin, NetsWithin, NetsAvailable, AllOrdered, Counting.AvailableIs;
    ghost var m := LastStates(e, chunks);
    ghost var all, before := nets[..], nets[..numNets + 1];
    OrderedDecls(e.ver, decls, nets.Length);
    leases := ReadLeases(e, ranges, numRanges, chunks);
    ghost var rs := ranges[..numRanges];
    PermutedDecls(e.ver, decls, rs, nets.Length);
    moves := Counting.DoCounting(e.ver, leases, ranges, numRanges, nets);
    ghost var out := ranges[..numRanges];
    CountedStaysSorted(e.ver, leases, rs, out);
    SweepLeavesCounted(e.ver, leases, rs, out);
    AvailableOfDecls(e.ver, decls, rs, all, nets[..], numNets + 1);
    assert nets[..][..numNets + 1] == nets[..numNets + 1];
    CountedIsWithin(e.ver, leases, out);
    NetsAreWithin(e.ver, leases, decls, rs, out, names, before, nets[..numNets + 1]);
    if Disjoint(decls) {
      SweepBoundsOfDecls(leases, decls, rs, moves);
      Counting.SweepBoundsIff(leases, decls, moves);
    }
    if GoodLog(e, chunks) {
      CountedIsFinal(leases, m, rs, out);
      FinalRangesPermute(m, rs, decls);
      TotalIsFinal(e.ver, leases, m, decls, rs, out, nets[0]);
      NetsAreFinal(e.ver, leases, m, decls, rs, names, before, nets[..numNets + 1]);
      OneEntryEach(leases, m);
      LeaseAboveAllButOneIff(leases, m, decls);
    }
  }

  lemma OrderedDecls(ver: Version, decls: seq<Range>, n: nat)
    requires forall r | r in decls :: Stored(ver, n, r)
    ensures AllOrdered(ver, decls)
    ensures forall r | r in decls :: r.first <= r.last
  {
  }

  // ----- sorting for output -----

  method Arrange(o: Order, reverse: bool, ranges: array<Range>, numRanges: nat)
    requires numRanges <= ranges.Length && numRanges < 0x1_0000_0000
    modifies ranges
    ensures ranges[..numRanges] == Arranged(o, reverse, old(ranges[..numRanges]))
    ensures multiset(ranges[..numRanges]) == multiset(old(ranges[..numRanges]))
  {
    hide HybridSort;
    ghost var rs := ranges[..numRanges];
    ArrangedIsPermutation(o, reverse, rs);
    var tmpRanges := new Range[numRanges](_ => Range(0, 0, 0, 0, 0, 0));
    if o.keys != [] {
      RangeTable.MergesortRanges(o, ranges, 0, numRanges, tmpRanges, rs);
      assert ranges[..numRanges] == HybridSort(o, rs);
    }
    if reverse {
      RangeTable.FlipRanges(ranges, tmpRanges, numRanges);
    }
  }

  /** A permutation of the final ranges in print order is the expected table. */
  lemma PrintedIsExpected(ver: Version, leases: seq<Lease>, decls: seq<Range>, names: seq<string>,
                          m: map<Addr, LeaseType>, keys: seq<Key>, reverse: bool, out: seq<Range>)
    requires CountedTable(ver, leases, out) && multiset(out) == multiset(FinalRanges(m, decls))
    requires InPrintOrder(Order(ver, names, keys), reverse, out) && DistinctFirsts(decls)
    ensures out == ExpectedTable(ver, decls, names, m, keys, reverse)
  {
    hide CountedTable, FinalRanges, InPrintOrder, DistinctFirsts, Printed;
    CountedPermutes(ver, leases, out, FinalRanges(m, decls));
    FinalFirsts(m, decls);
    PrintedIff(Order(ver, names, keys), reverse, leases, FinalRanges(m, decls), out);
  }

  // ----- everything -----

  const EXIT_FAILURE := 1

  lemma WithinPermutes(ver: Version, s: seq<Range>, t: seq<Range>)
    requires multiset(s) == multiset(t) && RangesWithin(ver, s)
    ensures RangesWithin(ver, t)
  {
    hide RangeSize;
    forall r | r in t ensures r in s { assert r in multiset(t); }
  }

  /** What a run reports for a scanned configuration. */
  ghost predicate Reported(e: Env, s: Scan, chunks: seq<string>, keys: seq<Key>, reverse: bool, cfg: Alarm.Config,
                           out: seq<Range>, networks: seq<Net>, exit: nat)
    requires s.names != []
  {
    // for every log: the order of the table, sizes, occupancy, and the alarm for what is in the tables
    && InPrintOrder(Order(e.ver, s.names, keys), reverse, out)
    && RangesWithin(e.ver, out) && NetsWithin(e.ver, s.ranges, networks)
    && AllOrdered(e.ver, s.ranges) && NetsAvailable(e.ver, s.ranges, networks)
    && networks != [] && exit == Alarm.ExitValue(cfg, e.ver, out, networks[1..])
    // for a well-formed one: the contents
    && (GoodLog(e, chunks) ==>
          var m := LastStates(e, chunks);
          && multiset(out) == multiset(FinalRanges(m, s.ranges))
          && NetsFinal(e.ver, m, s.ranges, s.names, networks)
          && (DistinctFirsts(s.ranges) ==> out == ExpectedTable(e.ver, s.ranges, s.names, m, keys, reverse))
          && ((AllFit(e.ver, s.ranges) || !cfg.sBit) && !cfg.snetAlarms ==>
                exit == ExpectedExit(cfg, e.ver, s.ranges, s.names, m)))
  }

  /** main from parse_leases on: replay the log, count, sort, flip, and raise the alarm. */
  method Report(e: Env, ranges: array<Range>, numRanges: nat, nets: array<Net>, numNets: nat, names: seq<string>,
                chunks: seq<string>, keys: seq<Key>, reverse: bool, cfg: Alarm.Config, ghost s: Scan)
    returns (exit: nat)
    requires numRanges < ranges.Length && ranges[..numRanges] == s.ranges && numRanges < 0x1_0000_0000
    requires names == s.names && |names| == numNets + 1 && numNets < nets.Length
    requires Declared(e.ver, s.ranges, names, nets[..])
    requires forall c | c in chunks :: |c| < Classifier.MAXLEN
    modifies ranges, nets
    ensures Reported(e, s, chunks, keys, reverse, cfg, ranges[..numRanges], nets[..numNets + 1], exit)
  {
    hide GoodLog, LastStates, FinalRanges, FinalTotal, FinalNets, AllFit, Arranged, Alarm.ExitValue, CountedTable,
      RangesSorted, InPrintOrder, DistinctFirsts, ExpectedTable, Declared, Disjoint, LeaseAboveAllButOne,
      Counting.SweepBounds, RangesWithin, NetsWithin, NetsAvailable, AllOrdered;
    ghost var o, decls := Order(e.ver, names, keys), s.ranges;
    var leases, moves := Analyse(e, ranges, numRanges, nets, numNets, chunks, decls, names);
    ghost var swept := ranges[..numRanges];
    Arrange(Order(e.ver, names, keys), reverse, ranges, numRanges);
    ghost var out := ranges[..numRanges];
    ArrangedInPrintOrder(o, reverse, leases, swept);
    WithinPermutes(e.ver, swept, out);
    CountedPermutes(e.ver, leases, swept, out);
    var r, c;
    r, c, exit := Alarm.OutputAlarming(cfg, e.ver, ranges, numRanges, nets, numNets);
    assert nets[..numNets + 1][1..] == nets[1..numNets + 1];
    if GoodLog(e, chunks) {
      ghost var m := LastStates(e, chunks);
      if DistinctFirsts(decls) { PrintedIsExpected(e.ver, leases, decls, names, m, keys, reverse, out); }
      if !cfg.snetAlarms {
        Alarm.ExitIgnoresOrder(cfg, e.ver, out, FinalRanges(m, decls), nets[1..numNets + 1]);
        if !cfg.sBit {
          Alarm.ExitIgnoresNets(cfg, e.ver, FinalRanges(m, decls), nets[1..numNets + 1],
                                FinalNets(e.ver, m, decls, names));
        }
      }
    }
  }

  /** The parser's tables are declared ones. */
  lemma ParsedIsDeclared(ver: Version, p: Parser)
    requires p.Valid() && Sound(ver, p.State())
    ensures var s, n, k := p.State(), p.numRanges, p.numSharedNetworks;
            && n == |s.ranges| < p.ranges.Length && p.ranges[..n] == s.ranges
            && k < p.nets.Length && |s.names| == k + 1 && NetNames(p.nets[..k + 1]) == s.names
            && Declared(ver, s.ranges, s.names, p.nets[..])
  {
    var nets, k := p.nets[..], p.numSharedNetworks;
    forall i | 0 <= i <= k ensures nets[i].name == p.State().names[i] {
      assert p.nets[..k + 1][i] == nets[i];
    }
  }

  /** main: the configuration text, the chunks of the lease log and the options to the tables printed and
      the exit value. */
  method AnalysePools(e: Env, text: string, chunks: seq<string>, keys: seq<Key>, reverse: bool, cfg: Alarm.Config)
    returns (status: Status, out: seq<Range>, networks: seq<Net>, exit: nat)
    requires |text| < 0xFFFF_FFFF
    requires forall c | c in chunks :: |c| < Classifier.MAXLEN
    ensures var s := Run(e, INIT, text + [EOF_CHAR]);
            && status == s.status && Sound(e.ver, s)
            && (status == Running ==> Reported(e, s, chunks, keys, reverse, cfg, out, networks, exit))
            && (status == ParsingFailed || status == TooManyNetworks ==>
                  exit == 1 && out == [] && networks == [])
  {
    hide Run, Declared, Sound, Reported, NetNames, Parser.Valid;
    RunStoresAtMost(e, INIT, text + [EOF_CHAR]);
    var p := new Parser();
    p.ParseConfig(e, text);
    status, out, networks, exit := p.status, [], [], EXIT_FAILURE;
    if status == Running {
      ParsedIsDeclared(e.ver, p);
      var ranges, n, nets, k := p.ranges, p.numRanges, p.nets, p.numSharedNetworks;
      ghost var s := p.State();
      var names := NetNames(nets[..k + 1]);
      exit := Report(e, ranges, n, nets, k, names, chunks, keys, reverse, cfg, s);
      out, networks := ranges[..n], nets[..k + 1];
    }
  }

  /** The same for a structured configuration that includes no other file: what is reported follows from
      the declared ranges and shared networks. */
  method AnalyseTree(e: Env, items: Items, chunks: seq<string>, keys: seq<Key>, reverse: bool, cfg: Alarm.Config)
    returns (out: seq<Range>, networks: seq<Net>, exit: nat)
    requires Good(e, items, true) && e.Parse("") == None
    requires |Names(items)| <= 8190 && |Text(items)| < 0xFFFF_FFFF && Files(items) == []
    requires forall c | c in chunks :: |c| < Classifier.MAXLEN
    ensures var s := INIT.(ranges := Ranges(e, items, true, 0, 1), names := ["All networks"] + Names(items));
            Reported(e, s, chunks, keys, reverse, cfg, out, networks, exit)
  {
    hide Run, GoodLog, LastStates, FinalRanges, AllFit, ExpectedExit, ExpectedTable, InPrintOrder, NetsFinal,
      DistinctFirsts, Good, Ranges, Names, Text, Alarm.ExitValue, RangesWithin, NetsWithin,
      NetsAvailable, AllOrdered;
    ScannerRecoversTree(e, items);
    var status;
    status, out, networks, exit := AnalysePools(e, Text(items), chunks, keys, reverse, cfg);
  }

  // ----- one more active lease -----

  lemma CardinalityMonotone(s: set<Addr>, t: set<Addr>)
    requires s <= t
    ensures |s| <= |t|
  {
    assert t == s + (t - s);
  }

  lemma ActiveGrows(m: map<Addr, LeaseType>, a: Addr, r: Range)
    ensures Last(m, r, ACTIVE) <= Last(m[a := ACTIVE], r, ACTIVE)
  {
    CardinalityMonotone(Addresses(m, r.first, r.last, ACTIVE), Addresses(m[a := ACTIVE], r.first, r.last, ACTIVE));
  }

  lemma {:induction false} ActiveGrowsIn(m: map<Addr, LeaseType>, a: Addr, rs: seq<Range>, scope: Scope)
    ensures LastIn(m, rs, scope, ACTIVE) <= LastIn(m[a := ACTIVE], rs, scope, ACTIVE)
  {
    hide Last;
    if rs != [] {
      ActiveGrowsIn(m, a, rs[..|rs| - 1], scope);
      ActiveGrows(m, a, rs[|rs| - 1]);
    }
  }

  lemma {:induction false} ScopeSizeNonNegative(ver: Version, rs: seq<Range>, scope: Scope)
    requires forall r | r in rs :: r.first <= r.last
    ensures ScopeSize(ver, rs, scope) >= 0
  {
    if rs != [] {
      ScopeSizeNonNegative(ver, rs[..|rs| - 1], scope);
      assert rs[|rs| - 1] in rs;
    }
  }

  /** Every shared network keeps its alarm from the states m to the states m'. */
  ghost predicate AlarmsKept(cfg: Alarm.Config, ver: Version, rs: seq<Range>, names: seq<string>,
                             m: map<Addr, LeaseType>, m': map<Addr, LeaseType>) {
    forall k | 0 < k < |names| ::
      Alarm.KeepsAlarm(cfg, FinalNet(ver, m, rs, k, names[k]), FinalNet(ver, m', rs, k, names[k]))
  }

  lemma ActiveNeverLowersExit(cfg: Alarm.Config, ver: Version, decls: seq<Range>, names: seq<string>,
                              m: map<Addr, LeaseType>, a: Addr)
    requires !cfg.snetAlarms && names != [] && forall r | r in decls :: r.first <= r.last
    requires cfg.sBit ==> AlarmsKept(cfg, ver, decls, names, m, m[a := ACTIVE])
    ensures ExpectedExit(cfg, ver, decls, names, m) <= ExpectedExit(cfg, ver, decls, names, m[a := ACTIVE])
  {
    hide Alarm.ExitValue, Last, LastIn, FinalRanges, FinalNets, ScopeSize, Alarm.KeepsAlarm;
    var m' := m[a := ACTIVE];
    FinalRangesAt(m, decls);
    FinalRangesAt(m', decls);
    FinalNetsAt(ver, m, decls, names);
    FinalNetsAt(ver, m', decls, names);
    forall k | 0 <= k < |decls| ensures Last(m, decls[k], ACTIVE) <= Last(m', decls[k], ACTIVE) {
      ActiveGrows(m, a, decls[k]);
    }
    forall k | 0 < k < |names|
      ensures LastIn(m, decls, Of(k), ACTIVE) <= LastIn(m', decls, Of(k), ACTIVE) && ScopeSize(ver, decls, Of(k)) >= 0
    {
      ActiveGrowsIn(m, a, decls, Of(k));
      ScopeSizeNonNegative(ver, decls, Of(k));
    }
    Alarm.ExitMonotone(cfg, ver, FinalRanges(m, decls), FinalRanges(m', decls), FinalNets(ver, m, decls, names),
                       FinalNets(ver, m', decls, names));
  }

  /** The log with two lines more: one that names the address written w, one that makes it active.  These
      are the chunks of the longer file when the log ends with a newline. */
  function OneMoreLease(ver: Version, chunks: seq<string>, w: string): seq<string> {
    chunks + if ver == IPv4 then ["lease " + w + " {\n", "  binding state active;\n"]
             else ["  iaaddr " + w + " {\n", "    binding state active;\n"]
  }

  lemma LeaseRecorded(e: Env, chunks: seq<string>, w: string)
    requires Classifier.NUL !in w && ' ' !in w && e.Parse(w).Some?
    ensures LastStates(e, OneMoreLease(e.ver, chunks, w)) == LastStates(e, chunks)[e.Parse(w).value := ACTIVE]
    ensures GoodLog(e, chunks) ==> GoodLog(e, OneMoreLease(e.ver, chunks, w))
  {
    hide Table, WellFormed, Events, Current;
    var evs, at := Events(e, chunks), At(e.Parse(w));
    LeaseWritten(e, chunks, w);
    Extend(evs, at);
    Extend(evs + [at], State(ACTIVE));
    assert evs + [at] + [State(ACTIVE)] == evs + [at, State(ACTIVE)];
  }

  /** In every shared network fewer addresses are in use than either count threshold says. */
  ghost predicate BelowCounts(cfg: Alarm.Config, rs: seq<Range>, names: seq<string>, m: map<Addr, LeaseType>) {
    forall k | 0 < k < |names| ::
      LastIn(m, rs, Of(k), ACTIVE) as real < cfg.critCount && LastIn(m, rs, Of(k), ACTIVE) as real < cfg.warnCount
  }

  lemma BelowCountsKeepsAlarms(cfg: Alarm.Config, ver: Version, rs: seq<Range>, names: seq<string>,
                               m: map<Addr, LeaseType>, m': map<Addr, LeaseType>)
    requires BelowCounts(cfg, rs, names, m')
    ensures AlarmsKept(cfg, ver, rs, names, m, m')
  {
    hide Alarm.KeepsAlarm, LastIn, ScopeSize;
    forall k | 0 < k < |names|
      ensures Alarm.KeepsAlarm(cfg, FinalNet(ver, m, rs, k, names[k]), FinalNet(ver, m', rs, k, names[k]))
    {
      Alarm.BelowCountsKeepsAlarm(cfg, FinalNet(ver, m, rs, k, names[k]), FinalNet(ver, m', rs, k, names[k]));
    }
  }

  /** The exit value of a run is determined, and the alarms of shared networks count. */
  ghost predicate ExitDetermined(e: Env, s: Scan, chunks: seq<string>, cfg: Alarm.Config) {
    s.status == Running && GoodLog(e, chunks) && (AllFit(e.ver, s.ranges) || !cfg.sBit) && !cfg.snetAlarms
  }

  /** Alarm monotonicity over logs: run once more with an active lease appended to the log, for any
      address, and the exit value is not lower, as long as the shared networks keep their alarms; they do
      when both count thresholds are above what every one of them uses then. */
  method RunWithOneMoreLease(e: Env, text: string, chunks: seq<string>, w: string, keys: seq<Key>, reverse: bool,
                             cfg: Alarm.Config)
    returns (exit: nat, exit': nat)
    requires |text| < 0xFFFF_FFFF && |w| < 1000
    requires forall c | c in chunks :: |c| < Classifier.MAXLEN
    requires Classifier.NUL !in w && ' ' !in w && e.Parse(w).Some?
    ensures var s := Run(e, INIT, text + [EOF_CHAR]);
            var m, m' := LastStates(e, chunks), LastStates(e, OneMoreLease(e.ver, chunks, w));
            ExitDetermined(e, s, chunks, cfg) ==>
              && (!cfg.sBit ==> exit <= exit')
              && (BelowCounts(cfg, s.ranges, s.names, m') ==> exit <= exit')
              && (AlarmsKept(cfg, e.ver, s.ranges, s.names, m, m') ==> exit <= exit')
  {
    hide Run, GoodLog, LastStates, AllFit, ExpectedExit, AlarmsKept, BelowCounts, Sound, OneMoreLease,
      RangesWithin, NetsWithin, NetsAvailable, AllOrdered, InPrintOrder;
    var longer := OneMoreLease(e.ver, chunks, w);
    LinesFit(e.ver, chunks, w);
    var status, out, networks;
    status, out, networks, exit := AnalysePools(e, text, chunks, keys, reverse, cfg);
    status, out, networks, exit' := AnalysePools(e, text, longer, keys, reverse, cfg);
    ghost var s := Run(e, INIT, text + [EOF_CHAR]);
    ghost var m, m' := LastStates(e, chunks), LastStates(e, longer);
    LeaseRecorded(e, chunks, w);
    OrderedWhenSound(e.ver, s);
    if BelowCounts(cfg, s.ranges, s.names, m') { BelowCountsKeepsAlarms(cfg, e.ver, s.ranges, s.names, m, m'); }
    if ExitDetermined(e, s, chunks, cfg) && (!cfg.sBit || AlarmsKept(cfg, e.ver, s.ranges, s.names, m, m')) {
      ActiveNeverLowersExit(cfg, e.ver, s.ranges, s.names, m, e.Parse(w).value);
    }
  }

  lemma LinesFit(ver: Version, chunks: seq<string>, w: string)
    requires |w| < 1000 && forall c | c in chunks :: |c| < Classifier.MAXLEN
    ensures forall c | c in OneMoreLease(ver, chunks, w) :: |c| < Classifier.MAXLEN
  {
  }

  lemma OrderedWhenSound(ver: Version, s: Scan)
    requires Sound(ver, s)
    ensures s.names != [] && forall r | r in s.ranges :: r.first <= r.last
  {
  }
}

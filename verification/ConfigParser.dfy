/** parse_config with the tables it fills (src/getdata.c, prepare_memory in src/dhcpd-pools.c). */
module ConfigParser {
  import opened Address
  import opened Pools
  import opened Scanner

  function NetNames(ns: seq<Net>): (names: seq<string>)
    ensures |names| == |ns| && forall k | 0 <= k < |ns| :: names[k] == ns[k].name
  {
    if ns == [] then [] else NetNames(ns[..|ns| - 1]) + [ns[|ns| - 1].name]
  }

  lemma OneName(ns: seq<Net>)
    requires |ns| == 1
    ensures NetNames(ns) == [ns[0].name]
  {
  }

  /** The global tables and the local variables of one parse. */
  class Parser {
    var ranges: array<Range>
    var numRanges: nat
    const nets: array<Net>
    var numSharedNetworks: nat

    var newclause: bool
    var comment: bool
    var oneIpRange: bool
    var quote: bool
    var braces: int
    var argument: Argument
    var word: string
    var bracesShared: int
    var sharedP: nat
    var rangeP: RangePointer
    var firstIp: Option<Addr>
    var includes: seq<string>
    var status: Status

    /** The range buffer always has room for one more; the networks have their slots. */
    ghost predicate Valid()
      reads `ranges, `numRanges, `numSharedNetworks, nets
    {
      && numRanges < ranges.Length
      && nets.Length == SHARED_NETWORKS && numSharedNetworks < SHARED_NETWORKS
      && (forall k | 0 < k <= numSharedNetworks ::
            nets[k].available == 0 && nets[k].used == nets[k].touched == nets[k].backups == 0)
      && nets[0].used == nets[0].touched == nets[0].backups == 0
    }

    ghost function StoredRanges(): seq<Range>
      requires Valid()
      reads `ranges, `numRanges, `numSharedNetworks, nets, ranges
    {
      ranges[..numRanges]
    }

    ghost function StoredNames(): seq<string>
      requires Valid()
      reads `ranges, `numRanges, `numSharedNetworks, nets
    {
      NetNames(nets[..numSharedNetworks + 1])
    }

    /** The state of the scan. */
    ghost function State(): Scan
      requires Valid()
      reads this, nets, ranges
    {
      Scan(status, newclause, comment, oneIpRange, quote, braces, argument, word, bracesShared, sharedP, rangeP,
           firstIp, StoredRanges(), StoredNames(), includes)
    }

    /** prepare_memory, and the initial values of the local variables. */
    constructor ()
      ensures Valid() && State() == INIT && fresh(ranges) && fresh(nets)
      ensures ranges.Length == 64 && nets.Length == 8192 && nets[0].name == "All networks" && bracesShared == 1000
    {
      hide StoredRanges, StoredNames, NetNames;
      var rs := new Range[64](_ => Range(0, 0, 0, 0, 0, 0));
      var ns := new Net[SHARED_NETWORKS](_ => Net("", 0, 0, 0, 0));
      ranges, numRanges, nets, numSharedNetworks := rs, 0, ns, 0;
      newclause, comment, oneIpRange, quote, braces := true, false, false, false, 0;
      argument, word, bracesShared, sharedP := NOTHING, "", NO_BRACES, 0;
      rangeP, firstIp, includes, status := Null, None, [], Running;
      new;
      var available: int := *;
      nets[0] := Net(ALL_NETWORKS, available, 0, 0, 0);
      Empty();
    }

    lemma Empty()
      requires Valid() && numRanges == numSharedNetworks == 0 && nets[0].name == ALL_NETWORKS
      ensures StoredRanges() == [] && StoredNames() == [ALL_NETWORKS]
    {
      hide NetNames;
      OneName(nets[..1]);
    }

    /** The code from the label newrange on: store the range, grow the buffer when it is full. */
    method StoreRange(first: Addr, last: Addr)
      requires Valid()
      modifies this, ranges
      ensures Valid() && State() == NewRange(old(State()), first, last)
      ensures ranges == old(ranges) || fresh(ranges)
      ensures ranges.Length == if old(numRanges) + 1 == old(ranges.Length) then 2 * old(ranges.Length)
                               else old(ranges.Length)
    {
      hide NetNames;
      ghost var was := ranges[..numRanges];
      ranges[numRanges] := Range(sharedP, first, last, 0, 0, 0);
      numRanges := numRanges + 1;
      assert ranges[..numRanges] == was + [Range(sharedP, first, last, 0, 0, 0)];
      if ranges.Length < numRanges + 1 {
        Grow();
      }
      firstIp, rangeP, newclause := None, Behind, true;
    }

    /** Double the range buffer. */
    method Grow()
      requires numRanges == ranges.Length > 0
      modifies this`ranges
      ensures ranges.Length == 2 * old(ranges.Length) && fresh(ranges)
      ensures ranges[..numRanges] == old(ranges[..numRanges])
    {
      var more := new Range[2 * ranges.Length](_ => Range(0, 0, 0, 0, 0, 0));
      forall k | 0 <= k < numRanges {
        more[k] := ranges[k];
      }
      ranges := more;
    }

    /** The case of ITS_A_SHAREDNET: register the network and enter it. */
    method StoreNetwork(name: string)
      requires Valid() && numSharedNetworks + 1 < SHARED_NETWORKS
      modifies `numSharedNetworks, `sharedP, nets
      ensures Valid() && sharedP == numSharedNetworks == old(numSharedNetworks) + 1
      ensures State() == old(State()).(names := old(State()).names + [name], shared := |old(State()).names|)
    {
      ghost var was := nets[..numSharedNetworks + 1];
      numSharedNetworks := numSharedNetworks + 1;
      sharedP := numSharedNetworks;
      nets[sharedP] := Net(name, 0, 0, 0, 0);
      assert nets[..numSharedNetworks + 1] == was + [Net(name, 0, 0, 0, 0)];
    }

    /** The case of a semicolon. */
    method HandleSemicolon() returns (c: char, cont: bool)
      requires Valid() && status == Running
      modifies this, ranges
      ensures Valid() && (ranges == old(ranges) || fresh(ranges))
      ensures Semicolon(old(State())) == (State(), if cont then None else Some(c))
    {
      hide Valid, StoredRanges, StoredNames;
      c, cont := ';', true;
      if quote { return ';', false; }
      if !comment && argument != RANGE_FIRST_IP && argument != RANGE_SECOND_IP && argument != INCLUDE {
        newclause := true;
        word := "";
      } else if argument == RANGE_FIRST_IP && oneIpRange {
        argument := RANGE_SECOND_IP;
        c := ' ';
      } else if argument == RANGE_SECOND_IP && 0 < |word| {
        return ' ', false;
      } else if argument == RANGE_SECOND_IP && |word| == 0 {
        if rangeP == Null {
          status := ParsingFailed;
        } else if rangeP == Behind || firstIp == None {
          status := Undefined;
        } else {
          StoreRange(firstIp.value, firstIp.value);
        }
      }
    }

    /** The switch over magical characters. */
    method HandleMagic(c0: char) returns (c: char, cont: bool)
      requires Valid() && status == Running
      modifies this, ranges
      ensures Valid() && (ranges == old(ranges) || fresh(ranges))
      ensures Magic(old(State()), c0) == (State(), if cont then None else Some(c))
    {
      hide Valid, StoredRanges, StoredNames, Semicolon;
      c, cont := c0, false;
      match c0 {
        case '#' =>
          if !quote { comment := true; }
          cont := true;
        case '"' =>
          if !comment { quote := !quote; }
          cont := true;
        case '\n' =>
          if !quote { comment := false; }
        case ';' =>
          c, cont := HandleSemicolon();
        case '{' =>
          if quote { return; }
          if !comment { braces := braces + 1; }
          if |word| == 0 {
            newclause := true;
            cont := true;
          }
        case '}' =>
          if quote { return; }
          if !comment {
            braces := braces - 1;
            if bracesShared == braces {
              bracesShared := NO_BRACES;
              sharedP := 0;
            }
            newclause := true;
          }
          cont := true;
        case _ =>
      }
    }

    /** The word after the first address of a range, or the only address. */
    method HandleSecondIp(e: Env, w: string)
      requires Valid() && status == Running && argument == RANGE_SECOND_IP
      modifies this, ranges
      ensures Valid() && (ranges == old(ranges) || fresh(ranges))
      ensures State() == SecondIp(e, w, old(State()))
    {
      hide Valid, StoredRanges, StoredNames, Reorder, SecondIp, NewRange;
      SecondIpCases(e, w, State());
      var addr := e.Parse(w);
      rangeP, argument := Here, NOTHING;
      if addr == None || (!oneIpRange && firstIp == None) {
        status := Undefined;
      } else {
        if oneIpRange {
          oneIpRange, firstIp := false, addr;
        }
        var (first, last) := Reorder(e.ver, firstIp.value, addr.value);
        StoreRange(first, last);
      }
    }

    /** A word where the first address of a range is expected; other words are skipped. */
    method HandleFirstIp(e: Env, w: string)
      requires Valid() && status == Running && argument == RANGE_FIRST_IP
      modifies this
      ensures Valid() && ranges == old(ranges)
      ensures State() == FirstIp(e, w, old(State()))
    {
      hide Valid, StoredRanges, StoredNames;
      rangeP := Here;
      var addr := e.Parse(w);
      if addr.Some? {
        firstIp := addr;
        oneIpRange := false;
        argument := RANGE_SECOND_IP;
      }
    }

    /** The name of a shared network. */
    method HandleSharedNet(w: string)
      requires Valid() && status == Running && argument == SHAREDNET && numSharedNetworks + 1 < SHARED_NETWORKS
      modifies this, nets
      ensures Valid() && ranges == old(ranges)
      ensures State() == NetworkName(w, old(State()))
    {
      hide Valid, StoredRanges, StoredNames;
      StoreNetwork(w);
      argument := NOTHING;
      bracesShared := braces;
      if SHARED_NETWORKS < numSharedNetworks + 2 { status := TooManyNetworks; }
    }

    /** A complete word: take it and act on what it follows. */
    method HandleWord(e: Env)
      requires Valid() && status == Running && argument != NOTHING && numSharedNetworks + 1 < SHARED_NETWORKS
      modifies this, ranges, nets
      ensures Valid() && (ranges == old(ranges) || fresh(ranges))
      ensures State() == Word(e, old(State()))
    {
      hide Valid, StoredRanges, StoredNames, SecondIp, FirstIp, NetworkName;
      var w := word;
      newclause := false;
      word := "";
      match argument {
        case RANGE_SECOND_IP => HandleSecondIp(e, w);
        case RANGE_FIRST_IP => HandleFirstIp(e, w);
        case SHAREDNET => HandleSharedNet(w);
        case INCLUDE =>
          argument := NOTHING;
          includes := includes + [w];
          newclause := true;
      }
    }

    /** The end of the first word of a clause: look at what it announces. */
    method HandleClause()
      requires Valid() && status == Running && newclause && word != ""
      modifies this
      ensures Valid() && ranges == old(ranges)
      ensures var s := old(State());
              var a := InterestingClause(s.word);
              State() == s.(newclause := s.word[|s.word| - 1] == '{', word := "", argument := a,
                            oneIpRange := s.oneIpRange || a == RANGE_FIRST_IP)
    {
      hide Valid, StoredRanges, StoredNames, InterestingClause;
      if word[|word| - 1] != '{' { newclause := false; }
      argument := InterestingClause(word);
      word := "";
      if argument == RANGE_FIRST_IP { oneIpRange := true; }
    }

    /** The part of the loop body after the switch. */
    method HandleLetter(e: Env, c: char)
      requires Valid() && status == Running && numSharedNetworks + 1 < SHARED_NETWORKS
      modifies this, ranges, nets
      ensures Valid() && (ranges == old(ranges) || fresh(ranges))
      ensures State() == Letter(e, old(State()), c)
    {
      hide Valid, StoredRanges, StoredNames, InterestingClause, Word, IsSpace;
      if comment || (!newclause && argument == NOTHING) { return; }
      if (newclause || argument != NOTHING) && IsSpace(c) && |word| == 0 && !oneIpRange { return; }
      if (newclause || argument != NOTHING) && (!IsSpace(c) || quote) {
        word := word + [c];
        if |word| == MAXLEN {
          newclause := false;
          word := "";
        }
      } else if newclause {
        if |word| == 0 {
          status := Undefined;
          return;
        }
        HandleClause();
      } else if argument != NOTHING {
        HandleWord(e);
      }
    }

    /** One pass of the loop body. */
    method HandleCharacter(e: Env, c0: char)
      requires Valid() && status == Running && Sound(e.ver, State())
      modifies this, ranges, nets
      ensures Valid() && (ranges == old(ranges) || fresh(ranges))
      ensures State() == Step(e, old(State()), c0)
    {
      hide Magic, Letter, NetNames, Sound;
      ghost var s := State();
      MagicKeepsNames(e.ver, s, c0);
      var c, cont := HandleMagic(c0);
      if !cont {
        MagicKeepsRunning(s, c0);
        HandleLetter(e, c);
      }
    }

    /** parse_config on a whole file: the loop sees every character and then the end-of-file value. */
    method ParseConfig(e: Env, text: string)
      requires Valid() && State() == INIT
      modifies this, ranges, nets
      ensures Valid() && (ranges == old(ranges) || fresh(ranges))
      ensures State() == Run(e, INIT, text + [EOF_CHAR])
      ensures Sound(e.ver, State())
    {
      hide Step, Run, NetNames, Sound, Valid;
      ghost var all := text + [EOF_CHAR];
      var i := 0;
      RunSoFar(e, all, 0);
      while i < |text| + 1 && status == Running
        invariant 0 <= i <= |all|
        invariant Valid() && (ranges == old(ranges) || fresh(ranges))
        invariant State() == Run(e, INIT, all[..i]) && Sound(e.ver, State())
      {
        RunSoFar(e, all, i + 1);
        HandleCharacter(e, if i < |text| then text[i] else EOF_CHAR);
        i := i + 1;
      }
      RunStopped(e, State(), all[i..]);
      RunConcat(e, INIT, all[..i], all[i..]);
      assert all[..i] + all[i..] == all;
    }
  }

  /** The two ways a last address is taken: as an indeterminate one, or as the end of a range. */
  lemma SecondIpCases(e: Env, w: string, s: Scan)
    ensures var addr := e.Parse(w);
            var first := if s.oneIpRange then addr else s.firstIp;
            var t := s.(rangeP := Here, argument := NOTHING);
            SecondIp(e, w, s) ==
            if addr == None || first == None then t.(status := Undefined)
            else NewRange(t.(oneIpRange := false, firstIp := first), Reorder(e.ver, first.value, addr.value).0,
                          Reorder(e.ver, first.value, addr.value).1)
  {
    hide Reorder;
  }

  lemma RunSoFar(e: Env, all: string, i: nat)
    requires i <= |all|
    ensures Sound(e.ver, Run(e, INIT, all[..i]))
    ensures i > 0 ==> Run(e, INIT, all[..i]) == Step(e, Run(e, INIT, all[..i - 1]), all[i - 1])
    ensures i == 0 ==> Run(e, INIT, all[..i]) == INIT
  {
    RunKeepsSound(e, INIT, all[..i]);
    if i > 0 {
      assert all[..i] == all[..i - 1] + [all[i - 1]];
      RunConcat(e, INIT, all[..i - 1], [all[i - 1]]);
      RunOne(e, Run(e, INIT, all[..i - 1]), all[i - 1]);
    }
  }

  lemma MagicKeepsNames(ver: Version, s: Scan, c: char)
    requires Sound(ver, s) && s.status == Running
    ensures |Magic(s, c).0.names| < SHARED_NETWORKS
  {
    MagicKeepsSound(ver, s, c);
  }
}

/** The dhcpd.conf scanner as a state machine over characters (parse_config in src/getdata.c). */
module Scanner {
  import opened Address
  import opened Pools

  const MAXLEN := 1024
  const SHARED_NETWORKS := 8192
  const NO_BRACES := 1000
  const ALL_NETWORKS := "All networks"

  /** What fgetc returns at the end of the file, stored in a char; the loop body sees it once. */
  const EOF_CHAR := '\U{FF}'

  datatype Argument = NOTHING | RANGE_FIRST_IP | RANGE_SECOND_IP | SHAREDNET | INCLUDE

  /** range_p: null, at the slot of the next range, or at a slot already counted. */
  datatype RangePointer = Null | Here | Behind

  /** How far the scan got: the two error exits, and the point where the program would read an
      indeterminate value. */
  datatype Status = Running | ParsingFailed | TooManyNetworks | Undefined

  /** The variables of parse_config, and the tables it fills. `firstIp` is the address stored in the
      slot of the next range, if one was. */
  datatype Scan = Scan(status: Status, newclause: bool, comment: bool, oneIpRange: bool, quote: bool,
                       braces: int, argument: Argument, word: string, bracesShared: int, shared: nat,
                       rangeP: RangePointer, firstIp: Option<Addr>,
                       ranges: seq<Range>, names: seq<string>, includes: seq<string>)

  const INIT := Scan(Running, true, false, false, false, 0, NOTHING, "", NO_BRACES, 0, Null, None,
                     [], [ALL_NETWORKS], [])

  predicate IsSpace(c: char) {
    c == ' ' || c == '\t' || c == '\n' || c == '\U{B}' || c == '\U{C}' || c == '\r'
  }

  /** strstr */
  predicate Contains(s: string, sub: string) {
    exists i :: 0 <= i <= |s| && sub <= s[i..]
  }

  /** is_interesting_config_clause, without --all-as-shared. */
  function InterestingClause(s: string): Argument {
    if Contains(s, "range") then RANGE_FIRST_IP
    else if Contains(s, "shared-network") then SHAREDNET
    else if Contains(s, "include") then INCLUDE
    else NOTHING
  }

  /** s contains sub. */
  ghost predicate Occurs(sub: string, s: string) {
    exists u, v :: s == u + sub + v
  }

  lemma ContainsIff(s: string, sub: string)
    ensures Contains(s, sub) <==> Occurs(sub, s)
  {
    if i :| 0 <= i <= |s| && sub <= s[i..] {
      assert s == s[..i] + sub + s[i + |sub|..];
    }
    if u, v :| s == u + sub + v {
      assert s[|u|..] == sub + v;
    }
  }

  /** What the first word of a clause announces. */
  lemma ClauseMeaning(s: string)
    ensures InterestingClause(s) == RANGE_FIRST_IP <==> Occurs("range", s)
    ensures InterestingClause(s) == SHAREDNET <==> Occurs("shared-network", s) && !Occurs("range", s)
    ensures InterestingClause(s) == INCLUDE <==>
              Occurs("include", s) && !Occurs("range", s) && !Occurs("shared-network", s)
    ensures InterestingClause(s) == NOTHING <==>
              !Occurs("range", s) && !Occurs("shared-network", s) && !Occurs("include", s)
  {
    hide Contains, Occurs;
    ContainsIff(s, "range");
    ContainsIff(s, "shared-network");
    ContainsIff(s, "include");
  }

  /** reorder_last_first on the two addresses. */
  function Reorder(ver: Version, first: Addr, last: Addr): (r: (Addr, Addr))
    ensures r.0 <= r.1 && {r.0, r.1} == {first, last}
  {
    if IpComp(ver, first, last) > 0 then (last, first) else (first, last)
  }

  /** The code from the label newrange on. */
  function NewRange(s: Scan, first: Addr, last: Addr): Scan {
    s.(ranges := s.ranges + [Range(s.shared, first, last, 0, 0, 0)], firstIp := None, rangeP := Behind,
       newclause := true)
  }

  function Semicolon(s: Scan): (Scan, Option<char>) {
    if s.quote then (s, Some(';'))
    else if !s.comment && s.argument !in {RANGE_FIRST_IP, RANGE_SECOND_IP, INCLUDE} then
      (s.(newclause := true, word := ""), None)
    else if s.argument == RANGE_FIRST_IP && s.oneIpRange then (s.(argument := RANGE_SECOND_IP), None)
    else if s.argument == RANGE_SECOND_IP && |s.word| > 0 then (s, Some(' '))
    else if s.argument == RANGE_SECOND_IP then
      if s.rangeP == Null then (s.(status := ParsingFailed), None)
      else if s.rangeP == Behind || s.firstIp == None then (s.(status := Undefined), None)
      else (NewRange(s, s.firstIp.value, s.firstIp.value), None)
    else (s, None)
  }

  function OpenBrace(s: Scan): (Scan, Option<char>) {
    if s.quote then (s, Some('{'))
    else
      var s := if s.comment then s else s.(braces := s.braces + 1);
      if s.word == "" then (s.(newclause := true), None) else (s, Some('{'))
  }

  function CloseBrace(s: Scan): (Scan, Option<char>) {
    if s.quote then (s, Some('}'))
    else if s.comment then (s, None)
    else
      var s := s.(braces := s.braces - 1, newclause := true);
      (if s.bracesShared == s.braces then s.(bracesShared := NO_BRACES, shared := 0) else s, None)
  }

  /** The switch over characters that are magical; None when it ends in `continue`. */
  function Magic(s: Scan, c: char): (Scan, Option<char>) {
    match c
    case '#' => (if s.quote then s else s.(comment := true), None)
    case '"' => (if s.comment then s else s.(quote := !s.quote), None)
    case '\n' => (if s.quote then s else s.(comment := false), Some(c))
    case ';' => Semicolon(s)
    case '{' => OpenBrace(s)
    case '}' => CloseBrace(s)
    case _ => (s, Some(c))
  }

  /** A complete word where the last address of a range is expected, or its only one. */
  function SecondIp(e: Env, w: string, s: Scan): Scan {
    var addr := e.Parse(w);
    var first := if s.oneIpRange then addr else s.firstIp;
    var t := s.(rangeP := Here, argument := NOTHING);
    if addr == None || first == None then t.(status := Undefined)
    else
      var (lo, hi) := Reorder(e.ver, first.value, addr.value);
      NewRange(t.(oneIpRange := false), lo, hi)
  }

  /** A complete word where the first address of a range is expected; other words are skipped. */
  function FirstIp(e: Env, w: string, s: Scan): Scan {
    var addr := e.Parse(w);
    var t := s.(rangeP := Here);
    if addr == None then t else t.(firstIp := addr, oneIpRange := false, argument := RANGE_SECOND_IP)
  }

  /** The name of a shared network. */
  function NetworkName(w: string, s: Scan): Scan {
    var t := s.(names := s.names + [w], shared := |s.names|, argument := NOTHING, bracesShared := s.braces);
    if SHARED_NETWORKS < t.shared + 2 then t.(status := TooManyNetworks) else t
  }

  /** A complete word after range, shared-network or include. */
  function Word(e: Env, s: Scan): Scan
    requires s.argument != NOTHING
  {
    var w, t := s.word, s.(newclause := false, word := "");
    match s.argument
    case RANGE_SECOND_IP => SecondIp(e, w, t)
    case RANGE_FIRST_IP => FirstIp(e, w, t)
    case SHAREDNET => NetworkName(w, t)
    case INCLUDE => t.(argument := NOTHING, includes := s.includes + [w], newclause := true)
  }

  /** The part of the loop body after the switch. */
  function Letter(e: Env, s: Scan, c: char): Scan {
    if s.comment || (!s.newclause && s.argument == NOTHING) then s
    else if IsSpace(c) && s.word == "" && !s.oneIpRange then s
    else if !IsSpace(c) || s.quote then
      if |s.word| + 1 == MAXLEN then s.(newclause := false, word := "") else s.(word := s.word + [c])
    else if s.newclause then
      if s.word == "" then s.(status := Undefined)
      else
        var a := InterestingClause(s.word);
        s.(newclause := s.word[|s.word| - 1] == '{', word := "", argument := a,
           oneIpRange := s.oneIpRange || a == RANGE_FIRST_IP)
    else Word(e, s)
  }

  /** One pass of the loop body. */
  function Step(e: Env, s: Scan, c: char): Scan {
    if s.status != Running then s
    else
      var (s', c') := Magic(s, c);
      if c' == None then s' else Letter(e, s', c'.value)
  }

  function Run(e: Env, s: Scan, text: string): Scan
    decreases |text|
  {
    if text == "" then s else Run(e, Step(e, s, text[0]), text[1..])
  }

  lemma {:induction false} RunConcat(e: Env, s: Scan, t: string, u: string)
    ensures Run(e, s, t + u) == Run(e, Run(e, s, t), u)
    decreases |t|
  {
    if t == "" {
      assert t + u == u;
    } else {
      assert (t + u)[1..] == t[1..] + u;
      RunConcat(e, Step(e, s, t[0]), t[1..], u);
    }
  }

  lemma RunOne(e: Env, s: Scan, c: char)
    ensures Run(e, s, [c]) == Step(e, s, c)
  {
  }

  lemma {:induction false} RunStopped(e: Env, s: Scan, t: string)
    requires t == "" || s.status != Running
    ensures Run(e, s, t) == s
    decreases |t|
  {
    if t != "" { RunStopped(e, s, t[1..]); }
  }

  // ----- what every step keeps, on any text -----

  /** A range as it is stored: a known network, ordered addresses of the version, zero counters. */
  predicate Stored(ver: Version, numNets: nat, r: Range) {
    r.net < numNets && r.first <= r.last && InSpace(ver, r.last) && r.count == r.touched == r.backups == 0
  }

  /** The table entries are usable. */
  predicate Sound(ver: Version, s: Scan) {
    && s.shared < |s.names|
    && (|s.names| < SHARED_NETWORKS || s.status == TooManyNetworks)
    && (s.firstIp.Some? ==> InSpace(ver, s.firstIp.value))
    && (forall r | r in s.ranges :: Stored(ver, |s.names|, r))
  }

  lemma NewRangeKeepsSound(ver: Version, s: Scan, first: Addr, last: Addr)
    requires Sound(ver, s) && first <= last && InSpace(ver, last)
    ensures Sound(ver, NewRange(s, first, last))
  {
  }

  lemma SemicolonKeepsSound(ver: Version, s: Scan)
    requires Sound(ver, s) && s.status == Running
    ensures Sound(ver, Semicolon(s).0) && |Semicolon(s).0.names| == |s.names|
  {
    hide Stored;
    if s.firstIp.Some? { NewRangeKeepsSound(ver, s, s.firstIp.value, s.firstIp.value); }
  }

  lemma MagicKeepsSound(ver: Version, s: Scan, c: char)
    requires Sound(ver, s) && s.status == Running
    ensures Sound(ver, Magic(s, c).0) && |Magic(s, c).0.names| == |s.names|
  {
    hide Semicolon, Stored;
    SemicolonKeepsSound(ver, s);
  }

  lemma WordKeepsSound(e: Env, s: Scan)
    requires Sound(e.ver, s) && s.status == Running && s.argument != NOTHING
    ensures Sound(e.ver, Word(e, s))
  {
    hide IpComp, NewRange, Stored;
    var s' := s.(newclause := false, word := "");
    if s.argument == SHAREDNET {
      NetworkNameKeepsSound(e.ver, s.word, s');
    } else if s.argument == RANGE_SECOND_IP {
      SecondIpKeepsSound(e, s.word, s');
    }
  }

  lemma NetworkNameKeepsSound(ver: Version, w: string, s: Scan)
    requires Sound(ver, s) && s.status == Running
    ensures Sound(ver, NetworkName(w, s))
  {
  }

  lemma SecondIpKeepsSound(e: Env, w: string, s: Scan)
    requires Sound(e.ver, s) && s.status == Running
    ensures Sound(e.ver, SecondIp(e, w, s))
  {
    hide IpComp, NewRange, Stored;
    var addr := e.Parse(w);
    var first := if s.oneIpRange then addr else s.firstIp;
    if addr.Some? && first.Some? {
      var (lo, hi) := Reorder(e.ver, first.value, addr.value);
      NewRangeKeepsSound(e.ver, s.(rangeP := Here, argument := NOTHING, oneIpRange := false), lo, hi);
    }
  }

  /** Whatever the text, every range stored has its addresses in order and in the version's space and
      belongs to a registered network, and no more networks are registered than the table holds. */
  lemma {:induction false} RunKeepsSound(e: Env, s: Scan, text: string)
    requires Sound(e.ver, s)
    ensures Sound(e.ver, Run(e, s, text))
    decreases |text|
  {
    hide Magic, Word, InterestingClause, IsSpace;
    if text != "" {
      if s.status == Running {
        MagicKeepsSound(e.ver, s, text[0]);
        var (s', c') := Magic(s, text[0]);
        if c' != None {
          MagicKeepsRunning(s, text[0]);
          if s'.argument != NOTHING { WordKeepsSound(e, s'); }
        }
      }
      RunKeepsSound(e, Step(e, s, text[0]), text[1..]);
    }
  }

  /** The switch stops the scan only where it also leaves the loop body. */
  lemma MagicKeepsRunning(s: Scan, c: char)
    requires s.status == Running && Magic(s, c).1 != None
    ensures Magic(s, c).0.status == Running
  {
  }

  /** A character completes at most one range. */
  lemma {:induction false} RunStoresAtMost(e: Env, s: Scan, text: string)
    ensures |Run(e, s, text).ranges| <= |s.ranges| + |text|
    decreases |text|
  {
    hide IpComp, InterestingClause, IsSpace;
    if text != "" {
      StepStoresAtMostOne(e, s, text[0]);
      RunStoresAtMost(e, Step(e, s, text[0]), text[1..]);
    }
  }

  lemma StepStoresAtMostOne(e: Env, s: Scan, c: char)
    ensures |Step(e, s, c).ranges| <= |s.ranges| + 1
  {
    hide IpComp, InterestingClause, IsSpace, Reorder;
    if s.status == Running {
      var s' := Magic(s, c).0;
      assert Magic(s, c).1 != None ==> s'.ranges == s.ranges;
    }
  }
}

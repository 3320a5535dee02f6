/** The lease table and the replay of the lease log (prototypes in src/dhcpd-pools.h, parse_leases in
    src/getdata.c). */
module LeaseLog {
  import opened Address
  import opened Pools
  import opened Classifier

  // ----- what a log says -----

  /** A log line: an address line with the parse of its word, a binding state, or neither. */
  datatype Event = At(parsed: Option<Addr>) | State(kind: LeaseType) | Other

  /** The characters before the first blank. */
  function FirstWord(s: string): (w: string)
    ensures w <= s && ' ' !in w
    ensures |w| < |s| ==> s[|w|] == ' '
  {
    if s == [] || s[0] == ' ' then [] else [s[0]] + FirstWord(s[1..])
  }

  function EventOf(e: Env, line: string): Event {
    if StartsWith(e.ver, line, PREFIX_LEASE) then At(e.Parse(FirstWord(line[|Literal(e.ver, PREFIX_LEASE)|..])))
    else if StartsWith(e.ver, line, PREFIX_BINDING_STATE_FREE)
            || StartsWith(e.ver, line, PREFIX_BINDING_STATE_ABANDONED)
            || StartsWith(e.ver, line, PREFIX_BINDING_STATE_EXPIRED)
            || StartsWith(e.ver, line, PREFIX_BINDING_STATE_RELEASED)
    then State(FREE)
    else if StartsWith(e.ver, line, PREFIX_BINDING_STATE_ACTIVE) then State(ACTIVE)
    else if StartsWith(e.ver, line, PREFIX_BINDING_STATE_BACKUP) then State(BACKUP)
    else Other
  }

  function Events(e: Env, chunks: seq<string>): (evs: seq<Event>)
    ensures |evs| == |chunks|
  {
    if chunks == [] then []
    else Events(e, chunks[..|chunks| - 1]) + [EventOf(e, CString(chunks[|chunks| - 1]))]
  }

  /** The address in force after the events: that of the last address line, if it parsed. */
  function Current(evs: seq<Event>): Option<Addr> {
    if evs == [] then None
    else if evs[|evs| - 1].At? then evs[|evs| - 1].parsed
    else Current(evs[..|evs| - 1])
  }

  /** Every state line comes after a successfully parsed address. */
  ghost predicate WellFormed(evs: seq<Event>) {
    forall i | 0 <= i < |evs| && evs[i].State? :: Current(evs[..i]).Some?
  }

  /** The state of each address after the events. */
  function Table(evs: seq<Event>): map<Addr, LeaseType> {
    if evs == [] then map[]
    else
      var n := |evs| - 1;
      if evs[n].State? && Current(evs[..n]).Some?
      then Table(evs[..n])[Current(evs[..n]).value := evs[n].kind]
      else Table(evs[..n])
  }

  /** Event i is a state line for a. */
  ghost predicate StateOf(evs: seq<Event>, a: Addr, i: nat) {
    i < |evs| && evs[i].State? && Current(evs[..i]) == Some(a)
  }

  /** Event i is the last state line for a, and it says k. */
  ghost predicate LastStateOf(evs: seq<Event>, a: Addr, i: nat, k: LeaseType) {
    StateOf(evs, a, i) && evs[i].kind == k && forall j | i < j < |evs| :: !StateOf(evs, a, j)
  }

  /** The table maps an address to k exactly when the last state line seen while it was current says k. */
  lemma {:induction false} TableIsLastState(evs: seq<Event>, a: Addr, k: LeaseType)
    ensures a in Table(evs) && Table(evs)[a] == k <==> exists i :: LastStateOf(evs, a, i, k)
  {
    if evs != [] {
      var n := |evs| - 1;
      var init := evs[..n];
      TableIsLastState(init, a, k);
      forall i | 0 <= i <= n ensures evs[..i] == init[..i] {
      }
      forall i | 0 <= i < n ensures StateOf(evs, a, i) <==> StateOf(init, a, i) {
      }
      if StateOf(evs, a, n) {
        assert forall i | LastStateOf(evs, a, i, k) :: i == n;
        if evs[n].kind == k { assert LastStateOf(evs, a, n, k); }
      } else {
        forall i ensures LastStateOf(evs, a, i, k) <==> LastStateOf(init, a, i, k) {
        }
      }
    }
  }

  /** Handling the final line a second time changes nothing. */
  lemma LastLineTwice(evs: seq<Event>)
    requires evs != []
    ensures Table(evs + [evs[|evs| - 1]]) == Table(evs)
    ensures WellFormed(evs) ==> WellFormed(evs + [evs[|evs| - 1]])
  {
    var n := |evs| - 1;
    var twice := evs + [evs[n]];
    assert twice[..|evs|] == evs;
    assert forall i | 0 <= i <= |evs| :: twice[..i] == evs[..i];
    assert evs[..|evs|] == evs;
  }

  // ----- the table -----

  ghost predicate Unique(entries: seq<Lease>) {
    forall i, j | 0 <= i < j < |entries| :: entries[i].ip != entries[j].ip
  }

  /** The entries hold exactly the addresses of m, once each, with their states. */
  ghost predicate Represents(entries: seq<Lease>, m: map<Addr, LeaseType>) {
    && Unique(entries)
    && (forall i | 0 <= i < |entries| :: entries[i].ip in m && m[entries[i].ip] == entries[i].kind)
    && (forall a | a in m :: exists i :: 0 <= i < |entries| && entries[i].ip == a)
  }

  /** The lease hash: entries in insertion order. */
  class LeaseTable {
    var entries: seq<Lease>

    constructor ()
      ensures entries == []
    {
      entries := [];
    }

    method FindLease(addr: Addr) returns (lease: Option<nat>)
      ensures lease.Some? ==> lease.value < |entries| && entries[lease.value].ip == addr
      ensures lease.None? ==> forall i | 0 <= i < |entries| :: entries[i].ip != addr
    {
      if i: nat :| i < |entries| && entries[i].ip == addr {
        return Some(i);
      } else {
        return None;
      }
    }

    method DeleteLease(lease: nat)
      requires lease < |entries|
      modifies this
      ensures entries == old(entries)[..lease] + old(entries)[lease + 1..]
    {
      entries := entries[..lease] + entries[lease + 1..];
    }

    method AddLease(addr: Addr, kind: LeaseType)
      modifies this
      ensures entries == old(entries) + [Lease(addr, kind, None)]
    {
      entries := entries + [Lease(addr, kind, None)];
    }

    /** An Ethernet line: note the address on the entry, if there is one. */
    method SetEthernet(addr: Addr, macstring: string, ghost m: map<Addr, LeaseType>)
      requires Unique(entries)
      modifies this
      ensures |entries| == |old(entries)|
      ensures forall i | 0 <= i < |entries| ::
                entries[i] == if old(entries)[i].ip == addr then old(entries)[i].(ethernet := Some(macstring))
                              else old(entries)[i]
      ensures Unique(entries)
      ensures old(Represents(entries, m)) ==> Represents(entries, m)
    {
      hide Represents;
      var lease := FindLease(addr);
      if lease.Some? {
        var i := lease.value;
        ghost var was := entries;
        entries := entries[i := entries[i].(ethernet := Some(macstring))];
        NoteKeeps(was, m, i, macstring);
      }
    }

    /** A state line: drop the old entry of the address, if any, and append the new one. */
    method Record(addr: Addr, kind: LeaseType, ghost m: map<Addr, LeaseType>)
      requires Unique(entries)
      modifies this
      ensures Unique(entries)
      ensures old(Represents(entries, m)) ==> Represents(entries, m[addr := kind])
      ensures |entries| > 0 && entries[|entries| - 1] == Lease(addr, kind, None)
    {
      ghost var was := entries;
      var lease := FindLease(addr);
      if lease.Some? {
        DeleteLease(lease.value);
        DeleteKeeps(was, m, lease.value);
      } else if Represents(was, m) {
        assert addr !in m;
        assert m - {addr} == m;
      }
      ghost var rest := entries;
      assert Unique(rest) && forall i | 0 <= i < |rest| :: rest[i].ip != addr;
      AddLease(addr, kind);
      if Represents(was, m) {
        AppendKeeps(rest, m - {addr}, Lease(addr, kind, None));
        assert (m - {addr})[addr := kind] == m[addr := kind];
      }
    }
  }

  lemma DeleteKeeps(entries: seq<Lease>, m: map<Addr, LeaseType>, k: nat)
    requires k < |entries| && Unique(entries)
    ensures var rest := entries[..k] + entries[k + 1..];
            && Unique(rest)
            && (forall i | 0 <= i < |rest| :: rest[i].ip != entries[k].ip)
            && (Represents(entries, m) ==> Represents(rest, m - {entries[k].ip}))
  {
    var rest := entries[..k] + entries[k + 1..];
    assert forall i | 0 <= i < |rest| :: rest[i] == entries[if i < k then i else i + 1];
    if Represents(entries, m) {
      forall a | a in m - {entries[k].ip} ensures exists i :: 0 <= i < |rest| && rest[i].ip == a {
        var i :| 0 <= i < |entries| && entries[i].ip == a;
        assert rest[if i < k then i else i - 1].ip == a;
      }
    }
  }

  /** An Ethernet string changes neither addresses nor states. */
  lemma NoteKeeps(entries: seq<Lease>, m: map<Addr, LeaseType>, i: nat, macstring: string)
    requires i < |entries| && Unique(entries)
    ensures var noted := entries[i := entries[i].(ethernet := Some(macstring))];
            && Unique(noted)
            && (Represents(entries, m) ==> Represents(noted, m))
  {
    var noted := entries[i := entries[i].(ethernet := Some(macstring))];
    assert forall j | 0 <= j < |entries| :: noted[j].ip == entries[j].ip && noted[j].kind == entries[j].kind;
    if Represents(entries, m) {
      forall a | a in m ensures exists j :: 0 <= j < |noted| && noted[j].ip == a {
        var j :| 0 <= j < |entries| && entries[j].ip == a;
        assert noted[j].ip == a;
      }
    }
  }

  lemma AppendKeeps(entries: seq<Lease>, m: map<Addr, LeaseType>, x: Lease)
    requires Represents(entries, m) && x.ip !in m
    ensures Represents(entries + [x], m[x.ip := x.kind])
  {
    var all := entries + [x];
    var m' := m[x.ip := x.kind];
    forall a | a in m' ensures exists i :: 0 <= i < |all| && all[i].ip == a {
      if a == x.ip {
        assert all[|entries|].ip == a;
      } else {
        var i :| 0 <= i < |entries| && entries[i].ip == a;
        assert all[i].ip == a;
      }
    }
  }

  // ----- the parser -----

  /** fgets: store the characters and a NUL over the front of the buffer. */
  function Store(buf: seq<char>, chunk: string): (b: seq<char>)
    requires |buf| == MAXLEN && |chunk| < MAXLEN
    ensures Buffer(b) && CString(b) == CString(chunk)
  {
    CStringOfStored(chunk, buf[|chunk| + 1..]);
    assert (chunk + [NUL] + buf[|chunk| + 1..])[|chunk|] == NUL;
    chunk + [NUL] + buf[|chunk| + 1..]
  }

  lemma {:induction false} CStringOfStored(chunk: string, rest: string)
    ensures CString(chunk + [NUL] + rest) == CString(chunk)
  {
    if chunk != [] && chunk[0] != NUL {
      assert (chunk + [NUL] + rest)[1..] == chunk[1..] + [NUL] + rest;
      CStringOfStored(chunk[1..], rest);
    }
  }

  /** fgets met the end of the file while reading this chunk. */
  predicate HitsEof(chunk: string) {
    |chunk| < MAXLEN - 1 && (chunk == [] || chunk[|chunk| - 1] != '\n')
  }

  /** The event the classifier's answer leads to. */
  lemma ClassifiedEvent(e: Env, buf: seq<char>)
    requires Buffer(buf)
    ensures var ev := EventOf(e, CString(buf));
            match Xstrstr(e.ver, buf)
            case PREFIX_LEASE =>
              |Literal(e.ver, PREFIX_LEASE)| <= |CString(buf)|
              && ev == At(e.Parse(FirstWord(CString(buf)[|Literal(e.ver, PREFIX_LEASE)|..])))
            case PREFIX_BINDING_STATE_FREE => ev == State(FREE)
            case PREFIX_BINDING_STATE_ABANDONED => ev == State(FREE)
            case PREFIX_BINDING_STATE_EXPIRED => ev == State(FREE)
            case PREFIX_BINDING_STATE_RELEASED => ev == State(FREE)
            case PREFIX_BINDING_STATE_ACTIVE => ev == State(ACTIVE)
            case PREFIX_BINDING_STATE_BACKUP => ev == State(BACKUP)
            case PREFIX_HARDWARE_ETHERNET => ev == Other
            case NUM_OF_PREFIX => ev == Other
  {
    hide XstrstrV4, XstrstrV6;
    var x := Xstrstr(e.ver, buf);
    forall p | p != NUM_OF_PREFIX && (e.ver == IPv4 || p != PREFIX_HARDWARE_ETHERNET)
      ensures x == p <==> StartsWith(e.ver, CString(buf), p)
    {
      if e.ver == IPv4 { XstrstrV4IsPrefixMatch(buf, p); } else { XstrstrV6IsPrefixMatch(buf, p); }
    }
    if e.ver == IPv6 { XstrstrV6IsPrefixMatch(buf, PREFIX_LEASE); }
    assert x == PREFIX_LEASE ==> StartsWith(e.ver, CString(buf), PREFIX_LEASE);
  }

  /** The replay state agrees with the log read so far. */
  ghost predicate Agrees(table: LeaseTable, addr: Addr, evs: seq<Event>)
    reads table
  {
    && Unique(table.entries)
    && (WellFormed(evs) ==> Represents(table.entries, Table(evs)))
    && (WellFormed(evs) && Current(evs).Some? ==> Current(evs) == Some(addr))
  }

  lemma EthernetAnswer(ver: Version, line: seq<char>)
    requires Buffer(line) && ver == IPv4
    ensures Xstrstr(ver, line) == PREFIX_HARDWARE_ETHERNET <==> "  hardware ethernet" <= CString(line)
  {
    hide XstrstrV4, CString;
    XstrstrV4Answers(line);
  }

  /** The entry of addr has received the string mac; nothing else has changed. */
  ghost predicate Noted(was: seq<Lease>, now: seq<Lease>, addr: Addr, mac: string) {
    && |now| == |was|
    && forall i | 0 <= i < |was| :: now[i] == if was[i].ip == addr then was[i].(ethernet := Some(mac)) else was[i]
  }

  /** The seventeen characters that are copied are the address of a complete Ethernet line. */
  lemma EthernetOfLine(line: seq<char>, mac: string)
    requires Buffer(line) && |mac| == 17 && "  hardware ethernet " + mac <= CString(line)
    ensures CString(line[20..37]) == mac
  {
    var s := CString(line);
    assert s[20..37] == ("  hardware ethernet " + mac)[20..37] == mac;
    assert line[20..37] == s[20..37];
    assert forall c | c in mac :: c in s;
    CStringOfText(mac);
  }

  /** One pass of the loop body: classify the buffer and act on the answer. */
  method HandleLine(table: LeaseTable, e: Env, ethernets: bool,
                    line: seq<char>, cur: Addr, ghost evs: seq<Event>)
    returns (addr: Addr, backup: bool)
    requires Buffer(line) && Agrees(table, cur, evs)
    modifies table
    ensures Agrees(table, addr, evs + [EventOf(e, CString(line))])
    ensures backup <==> EventOf(e, CString(line)) == State(BACKUP)
    ensures ethernets && e.ver == IPv4 && "  hardware ethernet" <= CString(line) ==>
              Noted(old(table.entries), table.entries, cur, CString(line[20..37]))
  {
    hide EventOf, Xstrstr, FirstWord, CString, Table, Current, WellFormed;
    addr, backup := cur, false;
    ghost var ev := EventOf(e, CString(line));
    ClassifiedEvent(e, line);
    if e.ver == IPv4 { EthernetAnswer(e.ver, line); }
    Extend(evs, ev);
    match Xstrstr(e.ver, line) {
      case PREFIX_LEASE =>
        var ipstring := FirstWord(CString(line)[if e.ver == IPv4 then 6 else 9..]);
        // a failed parse leaves an indeterminate address behind
        addr := *;
        var r := e.Parse(ipstring);
        if r.Some? { addr := r.value; }
      case PREFIX_BINDING_STATE_FREE | PREFIX_BINDING_STATE_ABANDONED
         | PREFIX_BINDING_STATE_EXPIRED | PREFIX_BINDING_STATE_RELEASED =>
        table.Record(addr, FREE, Table(evs));
      case PREFIX_BINDING_STATE_ACTIVE =>
        table.Record(addr, ACTIVE, Table(evs));
      case PREFIX_BINDING_STATE_BACKUP =>
        table.Record(addr, BACKUP, Table(evs));
        backup := true;
      case PREFIX_HARDWARE_ETHERNET =>
        if ethernets {
          var macstring := CString(line[20..37]);
          table.SetEthernet(addr, macstring, Table(evs));
        }
      case NUM_OF_PREFIX =>
    }
  }

  lemma Extend(evs: seq<Event>, ev: Event)
    ensures WellFormed(evs + [ev]) <==> WellFormed(evs) && (ev.State? ==> Current(evs).Some?)
    ensures Current(evs + [ev]) == if ev.At? then ev.parsed else Current(evs)
    ensures Table(evs + [ev]) ==
            if ev.State? && Current(evs).Some? then Table(evs)[Current(evs).value := ev.kind] else Table(evs)
  {
    var all := evs + [ev];
    assert all[..|evs|] == evs;
    assert forall i | 0 <= i <= |evs| :: all[..i] == evs[..i];
    assert evs[..|evs|] == evs;
    if WellFormed(all) {
      forall i | 0 <= i < |evs| && evs[i].State? ensures Current(evs[..i]).Some? {
        assert all[i].State?;
      }
      if ev.State? { assert all[|evs|].State?; }
    }
  }

  /** A buffer whose first character is NUL; the others are indeterminate. */
  method NewBuffer() returns (line: seq<char>)
    ensures Buffer(line) && CString(line) == ""
  {
    line := *;
    if |line| != MAXLEN { line := seq(MAXLEN, _ => NUL); }
    line := line[0 := NUL];
    assert line[0] == NUL;
  }

  lemma NothingRead(table: LeaseTable, e: Env, addr: Addr)
    requires table.entries == []
    ensures Events(e, []) == [] && Agrees(table, addr, [])
  {
  }

  lemma EventsExtend(e: Env, chunks: seq<string>, k: nat)
    requires k < |chunks|
    ensures Events(e, chunks[..k + 1]) ==
            Events(e, chunks[..k]) + [EventOf(e, CString(chunks[k]))]
  {
    assert chunks[..k + 1][..k] == chunks[..k];
  }

  /** parse_leases over the chunks fgets delivers.  When the last chunk does not meet the end of the
      file, one more fgets fails, leaves the buffer as it was, and the buffer is handled again. */
  method ParseLeases(table: LeaseTable, e: Env, ethernets: bool,
                     chunks: seq<string>)
    returns (backupsFound: bool)
    requires forall c | c in chunks :: |c| < MAXLEN
    requires table.entries == []
    modifies table
    ensures Unique(table.entries)
    ensures WellFormed(Events(e, chunks)) ==> Represents(table.entries, Table(Events(e, chunks)))
    ensures backupsFound <==> State(BACKUP) in Events(e, chunks)
  {
    hide Events, EventOf, FirstWord, CString, Table, Current, WellFormed, Unique, Represents, Store, HitsEof;
    var line := NewBuffer();
    var addr: Addr := *;
    backupsFound := false;
    var k, eof := 0, false;
    ghost var evs: seq<Event> := [];
    NothingRead(table, e, addr);
    assert chunks[..0] == [];
    while !eof
      invariant 0 <= k <= |chunks| && Buffer(line)
      invariant evs == Events(e, chunks[..k]) && Unique(table.entries)
      invariant !eof ==> Agrees(table, addr, evs)
      invariant !eof ==> CString(line) == if k == 0 then "" else CString(chunks[k - 1])
      invariant eof ==> k == |chunks| && (WellFormed(evs) ==> Represents(table.entries, Table(evs)))
      invariant backupsFound <==> State(BACKUP) in evs
      decreases |chunks| - k, !eof
    {
      ghost var isNew := k < |chunks|;
      if k < |chunks| {
        line := Store(line, chunks[k]);
        k := k + 1;
        eof := k == |chunks| && HitsEof(chunks[k - 1]);
      } else {
        eof := true;
      }
      var backup;
      addr, backup := HandleLine(table, e, ethernets, line, addr, evs);
      backupsFound := backupsFound || backup;
      ghost var ev := EventOf(e, CString(line));
      if isNew {
        EventsExtend(e, chunks, k - 1);
        evs := evs + [ev];
      } else {
        HandledTwice(e, chunks, k, line);
      }
    }
    assert chunks[..k] == chunks;
  }

  /** The pass after the failed fgets sees the last line, or the empty line of an empty file. */
  lemma HandledTwice(e: Env, chunks: seq<string>, k: nat, line: seq<char>)
    requires k == |chunks|
    requires CString(line) == if k == 0 then "" else CString(chunks[k - 1])
    ensures var evs := Events(e, chunks[..k]);
            var ev := EventOf(e, CString(line));
            && Table(evs + [ev]) == Table(evs)
            && (WellFormed(evs) ==> WellFormed(evs + [ev]))
            && (ev == State(BACKUP) ==> ev in evs)
  {
    hide EventOf, CString, WellFormed, Table, Current;
    var evs := Events(e, chunks[..k]);
    var ev := EventOf(e, CString(line));
    if k == 0 {
      EmptyLine(e);
      Extend(evs, ev);
    } else {
      assert chunks[..k][k - 1] == chunks[k - 1];
      assert ev == evs[k - 1];
      LastLineTwice(evs);
    }
  }

  lemma EmptyLine(e: Env)
    ensures EventOf(e, "") == Other
  {
  }

  // ----- a lease written to the log -----

  /** The line that makes the address written w current. */
  function AddressLine(ver: Version, w: string): string {
    (if ver == IPv4 then "lease " else "  iaaddr ") + w + " {\n"
  }

  /** The line that makes the current address active. */
  function ActiveLine(ver: Version): string {
    if ver == IPv4 then "  binding state active;\n" else "    binding state active;\n"
  }

  lemma {:induction false} CStringOfText(s: string)
    requires NUL !in s
    ensures CString(s) == s
  {
    if s != [] { CStringOfText(s[1..]); }
  }

  lemma {:induction false} FirstWordOf(w: string, rest: string)
    requires ' ' !in w && rest != "" && rest[0] == ' '
    ensures FirstWord(w + rest) == w
  {
    if w == "" {
      assert w + rest == rest;
    } else {
      assert (w + rest)[1..] == w[1..] + rest;
      FirstWordOf(w[1..], rest);
    }
  }

  lemma AddressLineEvent(e: Env, w: string)
    requires NUL !in w && ' ' !in w
    ensures EventOf(e, CString(AddressLine(e.ver, w))) == At(e.Parse(w))
  {
    hide FirstWord, CString;
    var lit, line := Literal(e.ver, PREFIX_LEASE), AddressLine(e.ver, w);
    CStringOfText(line);
    assert line == lit + (w + " {\n");
    assert line[|lit|..] == w + " {\n";
    FirstWordOf(w, " {\n");
  }

  lemma Differs(lit: string, line: string, k: nat)
    requires k < |lit| && k < |line| && lit[k] != line[k]
    ensures !(lit <= line)
  {
  }

  lemma ActiveLineIsNoOther4(p: Prefix)
    requires p !in {PREFIX_BINDING_STATE_ACTIVE, PREFIX_BINDING_STATE_BACKUP, PREFIX_HARDWARE_ETHERNET, NUM_OF_PREFIX}
    ensures !StartsWith(IPv4, ActiveLine(IPv4), p)
  {
    var line := ActiveLine(IPv4);
    match p {
      case PREFIX_LEASE => Differs(LEASE4, line, 2);
      case PREFIX_BINDING_STATE_ABANDONED => Differs(ABANDONED4, line, 17);
      case PREFIX_BINDING_STATE_FREE => Differs(FREE4, line, 16);
      case PREFIX_BINDING_STATE_EXPIRED => Differs(EXPIRED4, line, 16);
      case PREFIX_BINDING_STATE_RELEASED => Differs(RELEASED4, line, 16);
    }
  }

  lemma ActiveLineIsNoOther6(p: Prefix)
    requires p !in {PREFIX_BINDING_STATE_ACTIVE, PREFIX_BINDING_STATE_BACKUP, PREFIX_HARDWARE_ETHERNET, NUM_OF_PREFIX}
    ensures !StartsWith(IPv6, ActiveLine(IPv6), p)
  {
    var line := ActiveLine(IPv6);
    match p {
      case PREFIX_LEASE => Differs(LEASE6, line, 4);
      case PREFIX_BINDING_STATE_ABANDONED => Differs(ABANDONED6, line, 19);
      case PREFIX_BINDING_STATE_FREE => Differs(FREE6, line, 18);
      case PREFIX_BINDING_STATE_EXPIRED => Differs(EXPIRED6, line, 18);
      case PREFIX_BINDING_STATE_RELEASED => Differs(RELEASED6, line, 18);
    }
  }

  lemma ActiveLineEvent(e: Env)
    ensures EventOf(e, CString(ActiveLine(e.ver))) == State(ACTIVE)
  {
    hide CString, FirstWord, Literal, ActiveLine;
    ActiveLineStarts(e.ver);
    CStringOfText(ActiveLine(e.ver));
    forall p | p !in {PREFIX_BINDING_STATE_ACTIVE, PREFIX_BINDING_STATE_BACKUP, PREFIX_HARDWARE_ETHERNET, NUM_OF_PREFIX}
      ensures !StartsWith(e.ver, ActiveLine(e.ver), p)
    {
      if e.ver == IPv4 { ActiveLineIsNoOther4(p); } else { ActiveLineIsNoOther6(p); }
    }
  }

  lemma ActiveLineStarts(ver: Version)
    ensures NUL !in ActiveLine(ver) && StartsWith(ver, ActiveLine(ver), PREFIX_BINDING_STATE_ACTIVE)
  {
  }

  /** Two lines more are two events more. */
  lemma LeaseWritten(e: Env, chunks: seq<string>, w: string)
    requires NUL !in w && ' ' !in w
    ensures e.ver == IPv4 ==>
              Events(e, chunks + ["lease " + w + " {\n", "  binding state active;\n"]) ==
              Events(e, chunks) + [At(e.Parse(w)), State(ACTIVE)]
    ensures e.ver == IPv6 ==>
              Events(e, chunks + ["  iaaddr " + w + " {\n", "    binding state active;\n"]) ==
              Events(e, chunks) + [At(e.Parse(w)), State(ACTIVE)]
  {
    hide EventOf, CString, Events;
    LinesAppended(e, chunks, w);
  }

  lemma LinesAppended(e: Env, chunks: seq<string>, w: string)
    requires NUL !in w && ' ' !in w
    ensures Events(e, chunks + [AddressLine(e.ver, w), ActiveLine(e.ver)]) ==
            Events(e, chunks) + [At(e.Parse(w)), State(ACTIVE)]
  {
    hide EventOf, AddressLine, ActiveLine, CString, Events;
    var all := chunks + [AddressLine(e.ver, w), ActiveLine(e.ver)];
    var n := |chunks|;
    AddressLineEvent(e, w);
    ActiveLineEvent(e);
    EventsExtend(e, all, n);
    EventsExtend(e, all, n + 1);
    assert all[..n] == chunks && all[..n + 2] == all;
  }
}

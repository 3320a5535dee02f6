/** The lease-file line classifiers xstrstr_v4 and xstrstr_v6 (src/other.c). */
module Classifier {
  import opened Address

  const MAXLEN := 1024
  const NUL := '\0'

  /** A line buffer of MAXLEN characters; what follows the first NUL is left over from earlier lines. */
  ghost predicate Buffer(buf: seq<char>) {
    |buf| == MAXLEN && NUL in buf
  }

  /** The C string held by a buffer. */
  function CString(buf: seq<char>): (s: string)
    ensures |s| <= |buf| && s == buf[..|s|] && NUL !in s
    ensures |s| < |buf| ==> buf[|s|] == NUL
  {
    if buf == [] || buf[0] == NUL then [] else [buf[0]] + CString(buf[1..])
  }

  datatype Prefix =
    | PREFIX_LEASE
    | PREFIX_BINDING_STATE_FREE
    | PREFIX_BINDING_STATE_ABANDONED
    | PREFIX_BINDING_STATE_EXPIRED
    | PREFIX_BINDING_STATE_RELEASED
    | PREFIX_BINDING_STATE_ACTIVE
    | PREFIX_BINDING_STATE_BACKUP
    | PREFIX_HARDWARE_ETHERNET
    | NUM_OF_PREFIX

  /** memcmp(lit, buf, |lit|) == 0. */
  predicate MemEq(lit: string, buf: seq<char>)
    requires |lit| <= |buf|
  {
    lit == buf[..|lit|]
  }

  // The literals as far as they are compared; "abandoned" is compared without its semicolon.
  const LEASE4 := "lease "
  const FREE4 := "  binding state free;"
  const ACTIVE4 := "  binding state active;"
  const ABANDONED4 := "  binding state abandoned"
  const EXPIRED4 := "  binding state expired;"
  const RELEASED4 := "  binding state released;"
  const BACKUP4 := "  binding state backup;"
  const ETHERNET := "  hardware ethernet"
  const LEASE6 := "  iaaddr "
  const FREE6 := "    binding state free;"
  const ACTIVE6 := "    binding state active;"
  const ABANDONED6 := "    binding state abandoned"
  const EXPIRED6 := "    binding state expired;"
  const RELEASED6 := "    binding state released;"
  const BACKUP6 := "    binding state backup;"

  function XstrstrV4(buf: seq<char>): Prefix
    requires |buf| == MAXLEN
  {
    var len := if buf[2] == 'b' || buf[2] == 'h' then |CString(buf)| else 0;
    var state :=
      if 15 < len then
        match buf[16]
        case 'f' => if MemEq(FREE4, buf) then PREFIX_BINDING_STATE_FREE else NUM_OF_PREFIX
        case 'a' =>
          if MemEq(ACTIVE4, buf) then PREFIX_BINDING_STATE_ACTIVE
          else if MemEq(ABANDONED4, buf) then PREFIX_BINDING_STATE_ABANDONED else NUM_OF_PREFIX
        case 'e' => if MemEq(EXPIRED4, buf) then PREFIX_BINDING_STATE_EXPIRED else NUM_OF_PREFIX
        case 'r' => if MemEq(RELEASED4, buf) then PREFIX_BINDING_STATE_RELEASED else NUM_OF_PREFIX
        case 'b' => if MemEq(BACKUP4, buf) then PREFIX_BINDING_STATE_BACKUP else NUM_OF_PREFIX
        case 'n' => if MemEq(ETHERNET, buf) then PREFIX_HARDWARE_ETHERNET else NUM_OF_PREFIX
        case _ => NUM_OF_PREFIX
      else NUM_OF_PREFIX;
    if state != NUM_OF_PREFIX then state
    else if MemEq(LEASE4, buf) then PREFIX_LEASE
    else NUM_OF_PREFIX
  }

  function XstrstrV6(buf: seq<char>): Prefix
    requires |buf| == MAXLEN
  {
    var len := if buf[4] == 'b' || buf[2] == 'h' then |CString(buf)| else 0;
    var state :=
      if 17 < len then
        match buf[18]
        case 'f' => if MemEq(FREE6, buf) then PREFIX_BINDING_STATE_FREE else NUM_OF_PREFIX
        case 'a' =>
          if MemEq(ACTIVE6, buf) then PREFIX_BINDING_STATE_ACTIVE
          else if MemEq(ABANDONED6, buf) then PREFIX_BINDING_STATE_ABANDONED else NUM_OF_PREFIX
        case 'e' => if MemEq(EXPIRED6, buf) then PREFIX_BINDING_STATE_EXPIRED else NUM_OF_PREFIX
        case 'r' => if MemEq(RELEASED6, buf) then PREFIX_BINDING_STATE_RELEASED else NUM_OF_PREFIX
        case 'b' => if MemEq(BACKUP6, buf) then PREFIX_BINDING_STATE_BACKUP else NUM_OF_PREFIX
        case 'n' => if MemEq(ETHERNET, buf) then PREFIX_HARDWARE_ETHERNET else NUM_OF_PREFIX
        case _ => NUM_OF_PREFIX
      else NUM_OF_PREFIX;
    if state != NUM_OF_PREFIX then state
    else if MemEq(LEASE6, buf) then PREFIX_LEASE
    else NUM_OF_PREFIX
  }

  function Xstrstr(ver: Version, buf: seq<char>): Prefix
    requires |buf| == MAXLEN
  {
    if ver == IPv4 then XstrstrV4(buf) else XstrstrV6(buf)
  }

  // ----- the specification: which of the eight prefixes does the line start with -----

  function Literal(ver: Version, p: Prefix): string {
    match p
    case PREFIX_LEASE => if ver == IPv4 then LEASE4 else LEASE6
    case PREFIX_BINDING_STATE_FREE => if ver == IPv4 then FREE4 else FREE6
    case PREFIX_BINDING_STATE_ABANDONED => if ver == IPv4 then ABANDONED4 else ABANDONED6
    case PREFIX_BINDING_STATE_EXPIRED => if ver == IPv4 then EXPIRED4 else EXPIRED6
    case PREFIX_BINDING_STATE_RELEASED => if ver == IPv4 then RELEASED4 else RELEASED6
    case PREFIX_BINDING_STATE_ACTIVE => if ver == IPv4 then ACTIVE4 else ACTIVE6
    case PREFIX_BINDING_STATE_BACKUP => if ver == IPv4 then BACKUP4 else BACKUP6
    case PREFIX_HARDWARE_ETHERNET => ETHERNET
    case NUM_OF_PREFIX => ""
  }

  /** The line starts with p's literal. */
  predicate StartsWith(ver: Version, line: string, p: Prefix) {
    p != NUM_OF_PREFIX && Literal(ver, p) <= line
  }

  /** No literal contains NUL, so a full match lies inside the C string. */
  lemma MatchIsInString(lit: string, buf: seq<char>)
    requires Buffer(buf) && |lit| <= |buf| && NUL !in lit
    ensures MemEq(lit, buf) <==> lit <= CString(buf)
  {
    hide CString;
    var s, n := CString(buf), |lit|;
    if |s| < n {
      assert lit[|s|] in lit && lit[|s|] != buf[..n][|s|];
    } else {
      assert s[..n] == buf[..n];
    }
  }

  lemma MatchesAreInString(ver: Version, buf: seq<char>, p: Prefix)
    requires Buffer(buf)
    ensures |Literal(ver, p)| <= 27
    ensures MemEq(Literal(ver, p), buf) <==> Literal(ver, p) <= CString(buf)
    ensures StartsWith(ver, CString(buf), p) ==> |Literal(ver, p)| <= |CString(buf)|
  {
    MatchIsInString(Literal(ver, p), buf);
  }

  lemma At(lit: string, buf: seq<char>, k: nat, c: char)
    requires k < |lit| <= |buf| && lit[k] == c
    ensures MemEq(lit, buf) ==> buf[k] == c
  {
    assert buf[..|lit|][k] == buf[k];
  }

  /** What the switch looks at when an IPv4 literal matches. */
  lemma Switch4(buf: seq<char>)
    requires |buf| == MAXLEN
    ensures MemEq(LEASE4, buf) ==> buf[2] == 'a'
    ensures MemEq(FREE4, buf) ==> buf[2] == 'b' && buf[16] == 'f'
    ensures MemEq(ACTIVE4, buf) ==> buf[2] == 'b' && buf[16] == 'a' && buf[17] == 'c'
    ensures MemEq(ABANDONED4, buf) ==> buf[2] == 'b' && buf[16] == 'a' && buf[17] == 'b'
    ensures MemEq(EXPIRED4, buf) ==> buf[2] == 'b' && buf[16] == 'e'
    ensures MemEq(RELEASED4, buf) ==> buf[2] == 'b' && buf[16] == 'r'
    ensures MemEq(BACKUP4, buf) ==> buf[2] == 'b' && buf[16] == 'b'
    ensures MemEq(ETHERNET, buf) ==> buf[2] == 'h' && buf[16] == 'n'
  {
    At(LEASE4, buf, 2, 'a');
    At(FREE4, buf, 2, 'b'); At(FREE4, buf, 16, 'f');
    At(ACTIVE4, buf, 2, 'b'); At(ACTIVE4, buf, 16, 'a'); At(ACTIVE4, buf, 17, 'c');
    At(ABANDONED4, buf, 2, 'b'); At(ABANDONED4, buf, 16, 'a'); At(ABANDONED4, buf, 17, 'b');
    At(EXPIRED4, buf, 2, 'b'); At(EXPIRED4, buf, 16, 'e');
    At(RELEASED4, buf, 2, 'b'); At(RELEASED4, buf, 16, 'r');
    At(BACKUP4, buf, 2, 'b'); At(BACKUP4, buf, 16, 'b');
    At(ETHERNET, buf, 2, 'h'); At(ETHERNET, buf, 16, 'n');
  }

  /** What the switch looks at when an IPv6 literal matches. */
  lemma Switch6(buf: seq<char>)
    requires |buf| == MAXLEN
    ensures MemEq(LEASE6, buf) ==> buf[2] == 'i' && buf[4] == 'a'
    ensures MemEq(FREE6, buf) ==> buf[2] == ' ' && buf[4] == 'b' && buf[18] == 'f'
    ensures MemEq(ACTIVE6, buf) ==> buf[2] == ' ' && buf[4] == 'b' && buf[18] == 'a' && buf[19] == 'c'
    ensures MemEq(ABANDONED6, buf) ==> buf[2] == ' ' && buf[4] == 'b' && buf[18] == 'a' && buf[19] == 'b'
    ensures MemEq(EXPIRED6, buf) ==> buf[2] == ' ' && buf[4] == 'b' && buf[18] == 'e'
    ensures MemEq(RELEASED6, buf) ==> buf[2] == ' ' && buf[4] == 'b' && buf[18] == 'r'
    ensures MemEq(BACKUP6, buf) ==> buf[2] == ' ' && buf[4] == 'b' && buf[18] == 'b'
    ensures MemEq(ETHERNET, buf) ==> buf[2] == 'h' && buf[4] == 'r' && buf[18] == 't'
  {
    At(LEASE6, buf, 2, 'i'); At(LEASE6, buf, 4, 'a');
    At(FREE6, buf, 2, ' '); At(FREE6, buf, 4, 'b'); At(FREE6, buf, 18, 'f');
    At(ACTIVE6, buf, 2, ' '); At(ACTIVE6, buf, 4, 'b'); At(ACTIVE6, buf, 18, 'a'); At(ACTIVE6, buf, 19, 'c');
    At(ABANDONED6, buf, 2, ' '); At(ABANDONED6, buf, 4, 'b');
    At(ABANDONED6, buf, 18, 'a'); At(ABANDONED6, buf, 19, 'b');
    At(EXPIRED6, buf, 2, ' '); At(EXPIRED6, buf, 4, 'b'); At(EXPIRED6, buf, 18, 'e');
    At(RELEASED6, buf, 2, ' '); At(RELEASED6, buf, 4, 'b'); At(RELEASED6, buf, 18, 'r');
    At(BACKUP6, buf, 2, ' '); At(BACKUP6, buf, 4, 'b'); At(BACKUP6, buf, 18, 'b');
    At(ETHERNET, buf, 2, 'h'); At(ETHERNET, buf, 4, 'r'); At(ETHERNET, buf, 18, 't');
  }

  /** The fast IPv4 classifier answers p exactly for the lines that start with p's literal, for each of
      the eight prefixes and whatever an earlier line left in the buffer. */
  lemma XstrstrV4IsPrefixMatch(buf: seq<char>, p: Prefix)
    requires Buffer(buf) && p != NUM_OF_PREFIX
    ensures XstrstrV4(buf) == p <==> StartsWith(IPv4, CString(buf), p)
  {
    forall q { MatchesAreInString(IPv4, buf, q); }
    Switch4(buf);
  }

  /** The IPv6 classifier agrees on seven prefixes and never reports an Ethernet address: the character
      it selects that case by is not the one the literal has there. */
  lemma XstrstrV6IsPrefixMatch(buf: seq<char>, p: Prefix)
    requires Buffer(buf) && p != NUM_OF_PREFIX
    ensures p != PREFIX_HARDWARE_ETHERNET ==> (XstrstrV6(buf) == p <==> StartsWith(IPv6, CString(buf), p))
    ensures XstrstrV6(buf) != PREFIX_HARDWARE_ETHERNET
  {
    forall q { MatchesAreInString(IPv6, buf, q); }
    Switch6(buf);
  }

  /** The answers of the IPv4 classifier, spelled out: one for each line the lease file may have. */
  lemma XstrstrV4Answers(buf: seq<char>)
    requires Buffer(buf)
    ensures XstrstrV4(buf) == PREFIX_LEASE <==> "lease " <= CString(buf)
    ensures XstrstrV4(buf) == PREFIX_BINDING_STATE_FREE <==> "  binding state free;" <= CString(buf)
    ensures XstrstrV4(buf) == PREFIX_BINDING_STATE_ABANDONED <==> "  binding state abandoned" <= CString(buf)
    ensures XstrstrV4(buf) == PREFIX_BINDING_STATE_EXPIRED <==> "  binding state expired;" <= CString(buf)
    ensures XstrstrV4(buf) == PREFIX_BINDING_STATE_RELEASED <==> "  binding state released;" <= CString(buf)
    ensures XstrstrV4(buf) == PREFIX_BINDING_STATE_ACTIVE <==> "  binding state active;" <= CString(buf)
    ensures XstrstrV4(buf) == PREFIX_BINDING_STATE_BACKUP <==> "  binding state backup;" <= CString(buf)
    ensures XstrstrV4(buf) == PREFIX_HARDWARE_ETHERNET <==> "  hardware ethernet" <= CString(buf)
  {
    hide XstrstrV4, CString;
    XstrstrV4IsPrefixMatch(buf, PREFIX_LEASE);
    XstrstrV4IsPrefixMatch(buf, PREFIX_BINDING_STATE_FREE);
    XstrstrV4IsPrefixMatch(buf, PREFIX_BINDING_STATE_ABANDONED);
    XstrstrV4IsPrefixMatch(buf, PREFIX_BINDING_STATE_EXPIRED);
    XstrstrV4IsPrefixMatch(buf, PREFIX_BINDING_STATE_RELEASED);
    XstrstrV4IsPrefixMatch(buf, PREFIX_BINDING_STATE_ACTIVE);
    XstrstrV4IsPrefixMatch(buf, PREFIX_BINDING_STATE_BACKUP);
    XstrstrV4IsPrefixMatch(buf, PREFIX_HARDWARE_ETHERNET);
  }

  /** The answers of the IPv6 classifier; it has none for the Ethernet line. */
  lemma XstrstrV6Answers(buf: seq<char>)
    requires Buffer(buf)
    ensures XstrstrV6(buf) == PREFIX_LEASE <==> "  iaaddr " <= CString(buf)
    ensures XstrstrV6(buf) == PREFIX_BINDING_STATE_FREE <==> "    binding state free;" <= CString(buf)
    ensures XstrstrV6(buf) == PREFIX_BINDING_STATE_ABANDONED <==> "    binding state abandoned" <= CString(buf)
    ensures XstrstrV6(buf) == PREFIX_BINDING_STATE_EXPIRED <==> "    binding state expired;" <= CString(buf)
    ensures XstrstrV6(buf) == PREFIX_BINDING_STATE_RELEASED <==> "    binding state released;" <= CString(buf)
    ensures XstrstrV6(buf) == PREFIX_BINDING_STATE_ACTIVE <==> "    binding state active;" <= CString(buf)
    ensures XstrstrV6(buf) == PREFIX_BINDING_STATE_BACKUP <==> "    binding state backup;" <= CString(buf)
    ensures XstrstrV6(buf) != PREFIX_HARDWARE_ETHERNET
  {
    hide XstrstrV6, CString;
    XstrstrV6IsPrefixMatch(buf, PREFIX_LEASE);
    XstrstrV6IsPrefixMatch(buf, PREFIX_BINDING_STATE_FREE);
    XstrstrV6IsPrefixMatch(buf, PREFIX_BINDING_STATE_ABANDONED);
    XstrstrV6IsPrefixMatch(buf, PREFIX_BINDING_STATE_EXPIRED);
    XstrstrV6IsPrefixMatch(buf, PREFIX_BINDING_STATE_RELEASED);
    XstrstrV6IsPrefixMatch(buf, PREFIX_BINDING_STATE_ACTIVE);
    XstrstrV6IsPrefixMatch(buf, PREFIX_BINDING_STATE_BACKUP);
  }
}

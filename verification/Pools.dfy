/** The records shared by all parts of the program (src/dhcpd-pools.h). */
module Pools {
  import opened Address

  datatype Option<+T> = None | Some(value: T)

  /** An address range with its counters; `net` is the index of its shared network. */
  datatype Range = Range(net: nat, first: Addr, last: Addr, count: nat, touched: nat, backups: nat)

  /** A shared network; entry 0 of the network array is "All networks". */
  datatype Net = Net(name: string, available: int, used: nat, touched: nat, backups: nat)

  datatype LeaseType = ACTIVE | FREE | BACKUP

  datatype Lease = Lease(ip: Addr, kind: LeaseType, ethernet: Option<string>)

  function SizeOf(ver: Version, r: Range): int {
    RangeSize(ver, r.first, r.last)
  }

  /** The computed size is the number of addresses, except for the full IPv4 space, where it is 0. */
  lemma SizeIsAddresses(ver: Version, r: Range)
    requires r.first <= r.last && InSpace(ver, r.last)
    ensures SizeOf(ver, r) ==
            if ver == IPv4 && r.first == 0 && r.last == 0xFFFF_FFFF then 0 else r.last - r.first + 1
  {
  }

  /** The size computed for r is the number of its addresses: not the full IPv4 space. */
  predicate ProperRange(ver: Version, r: Range) {
    && r.first <= r.last && InSpace(ver, r.last)
    && !(ver == IPv4 && r.first == 0 && r.last == SPACE4 - 1)
  }

  function Reverse<T>(s: seq<T>): (r: seq<T>)
    ensures |r| == |s|
    ensures forall i :: 0 <= i < |s| ==> r[i] == s[|s| - 1 - i]
  {
    if s == [] then [] else Reverse(s[1..]) + [s[0]]
  }

  /** The IP version and the library's conversion of words to addresses: four bytes for IPv4. */
  datatype Env = Env(ver: Version, parse: string -> Option<Addr>) {
    function Parse(w: string): (a: Option<Addr>)
      ensures a.Some? ==> a == parse(w) && InSpace(ver, a.value)
      ensures parse(w).Some? && InSpace(ver, parse(w).value) ==> a == parse(w)
    {
      var a := parse(w);
      if a.Some? && InSpace(ver, a.value) then a else None
    }
  }

  // ----- permutations -----

  lemma TakenOut<T>(t: seq<T>, i: nat)
    requires i < |t|
    ensures multiset(t) == multiset(t[..i] + t[i + 1..]) + multiset{t[i]}
  {
    assert t == t[..i] + ([t[i]] + t[i + 1..]);
    assert multiset(t[..i] + ([t[i]] + t[i + 1..])) == multiset(t[..i]) + multiset([t[i]] + t[i + 1..]);
    assert multiset([t[i]] + t[i + 1..]) == multiset{t[i]} + multiset(t[i + 1..]);
  }

  lemma HeadOut<T>(s: seq<T>)
    requires s != []
    ensures multiset(s) == multiset(s[1..]) + multiset{s[0]}
  {
    assert s == [s[0]] + s[1..];
  }

  lemma Cancel<T>(a: multiset<T>, b: multiset<T>, x: T)
    requires a + multiset{x} == b + multiset{x}
    ensures a == b
  {
    assert a == a + multiset{x} - multiset{x};
    assert b == b + multiset{x} - multiset{x};
  }

  lemma FindSame<T>(s: seq<T>, t: seq<T>, x: T) returns (i: nat)
    requires multiset(s) == multiset(t) && x in s
    ensures i < |t| && t[i] == x
  {
    assert x in multiset(t);
    i :| 0 <= i < |t| && t[i] == x;
  }

  /** The last element of s, found and taken out of a permutation t of s. */
  lemma RemoveSame<T>(s: seq<T>, t: seq<T>) returns (i: nat)
    requires multiset(s) == multiset(t) && s != []
    ensures i < |t| && t[i] == s[|s| - 1]
    ensures multiset(s[..|s| - 1]) == multiset(t[..i] + t[i + 1..])
  {
    var n := |s| - 1;
    i := FindSame(s, t, s[n]);
    TakenOut(s, n);
    TakenOut(t, i);
    assert s[..n] + s[n + 1..] == s[..n];
    Cancel(multiset(s[..n]), multiset(t[..i] + t[i + 1..]), s[n]);
  }

  ghost predicate Distinct<T(!new)>(s: seq<T>) {
    forall i, j | 0 <= i < j < |s| :: s[i] != s[j]
  }

  lemma {:induction false} OnceInMultiset<T(!new)>(s: seq<T>, x: T)
    requires Distinct(s)
    ensures multiset(s)[x] <= 1
  {
    if s != [] {
      var n := |s| - 1;
      OnceInMultiset(s[..n], x);
      assert s == s[..n] + [s[n]];
      if x == s[n] { assert x !in s[..n]; }
    }
  }

  lemma TwiceInMultiset<T>(s: seq<T>, i: nat, j: nat)
    requires i < j < |s| && s[i] == s[j]
    ensures multiset(s)[s[i]] >= 2
  {
    TakenOut(s, j);
    assert s[i] == (s[..j] + s[j + 1..])[i];
    assert s[i] in multiset(s[..j] + s[j + 1..]);
  }

  /** Two places of a permutation hold what two places of the original hold. */
  lemma Mates<T(!new)>(s: seq<T>, t: seq<T>, i: nat, j: nat) returns (k: nat, l: nat)
    requires multiset(s) == multiset(t) && Distinct(s) && i < j < |t|
    ensures k < |s| && l < |s| && k != l && s[k] == t[i] && s[l] == t[j]
  {
    k := FindSame(t, s, t[i]);
    l := FindSame(t, s, t[j]);
    if k == l {
      TwiceInMultiset(t, i, j);
      OnceInMultiset(s, t[i]);
    }
  }
}

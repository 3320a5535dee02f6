/** The user-built sort order: field comparators and the key chain (src/sort.c). */
module Ordering {
  import opened Address
  import opened Pools

  datatype Key = ByName | ByIp | ByMax | ByCurrent | ByPercent | ByTouched | ByTc | ByTcPercent

  /** The order in force: IP version, network names by index, and the keys of --sort. */
  datatype Order = Order(ver: Version, names: seq<string>, keys: seq<Key>)

  /** The doubles the comparators see; 0/0 arises for the full IPv4 space, whose size wraps to 0. */
  datatype Double = Num(v: real) | Inf | NaN

  function Ratio(n: nat, d: int): Double {
    if d != 0 then Num(n as real / d as real) else if n == 0 then NaN else Inf
  }

  /** `<` on doubles. */
  predicate Below(x: Double, y: Double) {
    match (x, y)
    case (Num(a), Num(b)) => a < b
    case (Num(_), Inf) => true
    case _ => false
  }

  function CompDouble(x: Double, y: Double): int {
    if Below(x, y) then -1 else if Below(y, x) then 1 else 0
  }

  function StrCmp(s: string, t: string): int {
    if s == [] && t == [] then 0
    else if s == [] then -1
    else if t == [] then 1
    else if s[0] != t[0] then s[0] as int - t[0] as int
    else StrCmp(s[1..], t[1..])
  }

  function NameOf(o: Order, r: Range): string {
    if r.net < |o.names| then o.names[r.net] else ""
  }

  function Percent(ver: Version, r: Range): Double {
    Ratio(r.count, SizeOf(ver, r))
  }

  function TcPercent(ver: Version, r: Range): Double {
    Ratio(r.count + r.touched, SizeOf(ver, r))
  }

  function Field(o: Order, k: Key, r: Range): Double {
    match k
    case ByName | ByIp => NaN
    case ByMax => Num(SizeOf(o.ver, r) as real)
    case ByCurrent => Num(r.count as real)
    case ByPercent => Percent(o.ver, r)
    case ByTouched => Num(r.touched as real)
    case ByTc => Num((r.count + r.touched) as real)
    case ByTcPercent => TcPercent(o.ver, r)
  }

  function Compare(o: Order, k: Key, a: Range, b: Range): int {
    match k
    case ByName => StrCmp(NameOf(o, a), NameOf(o, b))
    case ByIp => IpComp(o.ver, a.first, b.first)
    case _ => CompDouble(Field(o, k, a), Field(o, k, b))
  }

  /** The first key that tells a and b apart, 0 when none does. */
  function Chain(o: Order, a: Range, b: Range): int
    decreases |o.keys|
  {
    if o.keys == [] then 0
    else if Compare(o, o.keys[0], a, b) != 0 then Compare(o, o.keys[0], a, b)
    else Chain(o.(keys := o.keys[1..]), a, b)
  }

  predicate Before(o: Order, a: Range, b: Range) {
    Chain(o, a, b) < 0
  }

  /** The key at k is the first that tells a and b apart. */
  ghost predicate DecidedBy(o: Order, a: Range, b: Range, k: int) {
    && 0 <= k < |o.keys| && Compare(o, o.keys[k], a, b) != 0
    && forall j | 0 <= j < k :: Compare(o, o.keys[j], a, b) == 0
  }

  /** merge: walk the key list until a key decides; equality of all keys answers no. */
  method Merge(o: Order, left: Range, right: Range) returns (ret: bool)
    ensures ret <==> exists k :: DecidedBy(o, left, right, k) && Compare(o, o.keys[k], left, right) < 0
    ensures ret == Before(o, left, right)
  {
    hide Compare;
    var p := 0;
    assert o.(keys := o.keys[0..]) == o;
    while p < |o.keys|
      invariant 0 <= p <= |o.keys|
      invariant forall j | 0 <= j < p :: Compare(o, o.keys[j], left, right) == 0
    {
      var c := Compare(o, o.keys[p], left, right);
      assert c != 0 ==> DecidedBy(o, left, right, p);
      if c != 0 { ChainDecided(o, left, right, p); }
      if 0 < c { return false; }
      if c < 0 { return true; }
      p := p + 1;
    }
    ChainUndecided(o, left, right);
    return false;
  }

  /** What one key says does not depend on the list it stands in. */
  lemma CompareInTail(o: Order, k: Key, a: Range, b: Range)
    requires o.keys != []
    ensures Compare(o.(keys := o.keys[1..]), k, a, b) == Compare(o, k, a, b)
  {
  }

  lemma {:induction false} ChainDecided(o: Order, a: Range, b: Range, k: int)
    requires DecidedBy(o, a, b, k)
    ensures Chain(o, a, b) == Compare(o, o.keys[k], a, b)
    decreases |o.keys|
  {
    hide Compare;
    if k > 0 {
      var rest := o.(keys := o.keys[1..]);
      forall j ensures Compare(rest, j, a, b) == Compare(o, j, a, b) {
        CompareInTail(o, j, a, b);
      }
      forall j | 0 <= j < k - 1 ensures Compare(rest, rest.keys[j], a, b) == 0 {
        assert rest.keys[j] == o.keys[j + 1];
      }
      ChainDecided(rest, a, b, k - 1);
    }
  }

  lemma {:induction false} ChainUndecided(o: Order, a: Range, b: Range)
    requires forall j | 0 <= j < |o.keys| :: Compare(o, o.keys[j], a, b) == 0
    ensures Chain(o, a, b) == 0
    decreases |o.keys|
  {
    hide Compare;
    if o.keys != [] {
      var rest := o.(keys := o.keys[1..]);
      forall j | 0 <= j < |rest.keys| ensures Compare(rest, rest.keys[j], a, b) == 0 {
        assert rest.keys[j] == o.keys[j + 1];
        CompareInTail(o, rest.keys[j], a, b);
      }
      ChainUndecided(rest, a, b);
    }
  }

  lemma {:induction false} SomeKeyDecides(o: Order, a: Range, b: Range, k: nat) returns (d: int)
    requires k < |o.keys| && Compare(o, o.keys[k], a, b) != 0
    ensures DecidedBy(o, a, b, d)
  {
    hide Compare;
    if j: nat :| j < k && Compare(o, o.keys[j], a, b) != 0 {
      d := SomeKeyDecides(o, a, b, j);
    } else {
      d := k;
    }
  }

  /** The order of a key list: the first key that tells two ranges apart decides; they tie when none does. */
  lemma ChainMeaning(o: Order, a: Range, b: Range)
    ensures Chain(o, a, b) < 0 <==> exists k :: DecidedBy(o, a, b, k) && Compare(o, o.keys[k], a, b) < 0
    ensures Chain(o, a, b) == 0 <==> forall k | 0 <= k < |o.keys| :: Compare(o, o.keys[k], a, b) == 0
  {
    hide Compare, Chain;
    if k: nat :| k < |o.keys| && Compare(o, o.keys[k], a, b) != 0 {
      var d := SomeKeyDecides(o, a, b, k);
      ChainDecided(o, a, b, d);
      forall j | DecidedBy(o, a, b, j) ensures j == d {
      }
    } else {
      ChainUndecided(o, a, b);
    }
  }

  // ----- the chain is a weak order -----

  /** The key has a value on r: the only undefined one is a percentage 0/0. */
  predicate Defined(o: Order, k: Key, r: Range) {
    k != ByName && k != ByIp ==> !Field(o, k, r).NaN?
  }

  lemma {:induction false} StrCmpSigns(s: string, t: string)
    ensures StrCmp(s, t) < 0 <==> StrCmp(t, s) > 0
    ensures StrCmp(s, t) == 0 <==> s == t
  {
    if s != [] && t != [] && s[0] == t[0] {
      StrCmpSigns(s[1..], t[1..]);
      assert s == [s[0]] + s[1..] && t == [t[0]] + t[1..];
    }
  }

  lemma {:induction false} StrCmpTransitive(s: string, t: string, u: string)
    requires StrCmp(s, t) <= 0 && StrCmp(t, u) <= 0
    ensures StrCmp(s, u) <= 0
    ensures StrCmp(s, t) < 0 || StrCmp(t, u) < 0 ==> StrCmp(s, u) < 0
  {
    if s != [] && t != [] && u != [] && s[0] == t[0] == u[0] {
      StrCmpTransitive(s[1..], t[1..], u[1..]);
    }
  }

  /** s comes before t: a proper prefix, or smaller at the first difference. */
  ghost predicate LexBefore(s: string, t: string) {
    s < t || exists k :: FirstBelow(s, t, k)
  }

  /** s and t agree before k and differ there in s's favour. */
  predicate FirstBelow(s: string, t: string, k: int) {
    0 <= k < |s| && k < |t| && s[..k] == t[..k] && s[k] < t[k]
  }

  lemma FirstBelowTail(s: string, t: string, k: int)
    requires s != [] && t != [] && s[0] == t[0]
    ensures FirstBelow(s, t, k + 1) <==> FirstBelow(s[1..], t[1..], k)
  {
    if 0 <= k < |s| - 1 && k < |t| - 1 {
      assert s[..k + 1] == [s[0]] + s[1..][..k] && t[..k + 1] == [t[0]] + t[1..][..k];
      assert s[1..][..k] == s[..k + 1][1..] && t[1..][..k] == t[..k + 1][1..];
    }
  }

  lemma LexTail(s: string, t: string)
    requires s != [] && t != [] && s[0] == t[0]
    ensures LexBefore(s, t) <==> LexBefore(s[1..], t[1..])
  {
    hide FirstBelow;
    assert s == [s[0]] + s[1..] && t == [t[0]] + t[1..];
    assert !FirstBelow(s, t, 0) by { NotBelowHead(s, t); }
    if k :| FirstBelow(s, t, k) {
      FirstBelowTail(s, t, k - 1);
      assert FirstBelow(s[1..], t[1..], k - 1);
    }
    if k :| FirstBelow(s[1..], t[1..], k) {
      FirstBelowTail(s, t, k);
      assert FirstBelow(s, t, k + 1);
    }
  }

  lemma NotBelowHead(s: string, t: string)
    requires s != [] && t != [] && s[0] == t[0]
    ensures !FirstBelow(s, t, 0)
  {
  }

  lemma LexHead(s: string, t: string)
    requires s != [] && t != [] && s[0] != t[0]
    ensures LexBefore(s, t) <==> s[0] < t[0]
  {
    forall k | 0 < k < |s| && k < |t| ensures s[..k] != t[..k] {
      assert s[..k][0] == s[0] && t[..k][0] == t[0];
    }
    if s[0] < t[0] { assert FirstBelow(s, t, 0); }
  }

  /** strcmp orders names lexicographically. */
  lemma {:induction false} StrCmpIsLexicographic(s: string, t: string)
    ensures StrCmp(s, t) < 0 <==> LexBefore(s, t)
  {
    if s != [] && t != [] {
      if s[0] == t[0] {
        StrCmpIsLexicographic(s[1..], t[1..]);
        LexTail(s, t);
      } else {
        LexHead(s, t);
      }
    }
  }

  lemma DivideLess(a: nat, b: nat, c: int, d: int)
    requires c > 0 && d > 0
    ensures a as real / c as real < b as real / d as real <==> a * d < b * c
  {
    var x, y := a as real / c as real, b as real / d as real;
    var cr, dr := c as real, d as real;
    assert x * cr == a as real && y * dr == b as real;
    assert (a * d) as real == x * (cr * dr) && (b * c) as real == y * (cr * dr);
    assert cr * dr > 0.0;
    if x < y { assert x * (cr * dr) < y * (cr * dr); }
    if x >= y { assert x * (cr * dr) >= y * (cr * dr); }
  }

  /** Cross multiplication also decides the quotients by zero: 0/0 is not below anything, nor anything
      below it, and the infinite quotient is above every finite one. */
  lemma RatioLess(a: nat, b: nat, c: int, d: int)
    requires c >= 0 && d >= 0
    ensures Below(Ratio(a, c), Ratio(b, d)) <==> a * d < b * c
  {
    if c > 0 && d > 0 { DivideLess(a, b, c, d); }
  }

  /** What each key compares: names lexicographically, sizes as numbers of addresses, percentages by cross
      multiplication of integers. */
  lemma KeyMeanings(o: Order, a: Range, b: Range)
    ensures var m, n := SizeOf(o.ver, a), SizeOf(o.ver, b);
            && (a.net < |o.names| && b.net < |o.names| ==>
                  (Compare(o, ByName, a, b) < 0 <==> LexBefore(o.names[a.net], o.names[b.net])))
            && (Compare(o, ByIp, a, b) < 0 <==> a.first < b.first)
            && (Compare(o, ByMax, a, b) < 0 <==> m < n)
            && (ProperRange(o.ver, a) && ProperRange(o.ver, b) ==>
                  (Compare(o, ByMax, a, b) < 0 <==> a.last - a.first < b.last - b.first))
            && (Compare(o, ByCurrent, a, b) < 0 <==> a.count < b.count)
            && (Compare(o, ByTouched, a, b) < 0 <==> a.touched < b.touched)
            && (Compare(o, ByTc, a, b) < 0 <==> a.count + a.touched < b.count + b.touched)
            && (m >= 0 && n >= 0 ==>
                  && (Compare(o, ByPercent, a, b) < 0 <==> a.count * n < b.count * m)
                  && (Compare(o, ByTcPercent, a, b) < 0 <==>
                      (a.count + a.touched) * n < (b.count + b.touched) * m))
  {
    hide RangeSize, Ratio, StrCmp, LexBefore;
    var m, n := SizeOf(o.ver, a), SizeOf(o.ver, b);
    StrCmpIsLexicographic(NameOf(o, a), NameOf(o, b));
    if m >= 0 && n >= 0 {
      RatioLess(a.count, b.count, m, n);
      RatioLess(a.count + a.touched, b.count + b.touched, m, n);
    }
  }

  lemma CompareSigns(o: Order, k: Key, a: Range, b: Range)
    ensures Compare(o, k, a, b) < 0 <==> Compare(o, k, b, a) > 0
  {
    StrCmpSigns(NameOf(o, a), NameOf(o, b));
    StrCmpSigns(NameOf(o, b), NameOf(o, a));
  }

  lemma CompareTransitive(o: Order, k: Key, a: Range, b: Range, c: Range)
    requires Defined(o, k, a) && Defined(o, k, b) && Defined(o, k, c)
    requires Compare(o, k, a, b) <= 0 && Compare(o, k, b, c) <= 0
    ensures Compare(o, k, a, c) <= 0
    ensures Compare(o, k, a, b) < 0 || Compare(o, k, b, c) < 0 ==> Compare(o, k, a, c) < 0
  {
    if k == ByName {
      StrCmpTransitive(NameOf(o, a), NameOf(o, b), NameOf(o, c));
    }
  }

  lemma {:induction false} ChainSigns(o: Order, a: Range, b: Range)
    ensures Chain(o, a, b) < 0 <==> Chain(o, b, a) > 0
    ensures Chain(o, a, b) > 0 <==> Chain(o, b, a) < 0
    decreases |o.keys|
  {
    if o.keys != [] {
      CompareSigns(o, o.keys[0], a, b);
      CompareSigns(o, o.keys[0], b, a);
      ChainSigns(o.(keys := o.keys[1..]), a, b);
    }
  }

  // ----- weak orders on a set of ranges -----

  predicate Transits(o: Order, a: Range, b: Range, c: Range) {
    Chain(o, a, b) <= 0 && Chain(o, b, c) <= 0 ==> Chain(o, a, c) <= 0
  }

  /** On the ranges of d the key list is transitive; that either of two ranges is not above the other
      holds of every key list. */
  ghost predicate WeakOrder(o: Order, d: set<Range>) {
    forall a, b, c {:trigger Transits(o, a, b, c)} | a in d && b in d && c in d :: Transits(o, a, b, c)
  }

  /** Transitivity, also of the strict part. */
  lemma ChainTransitive(o: Order, d: set<Range>, a: Range, b: Range, c: Range)
    requires WeakOrder(o, d) && a in d && b in d && c in d
    requires Chain(o, a, b) <= 0 && Chain(o, b, c) <= 0
    ensures Chain(o, a, c) <= 0
    ensures Chain(o, a, b) < 0 || Chain(o, b, c) < 0 ==> Chain(o, a, c) < 0
  {
    hide Chain;
    assert Transits(o, a, b, c);
    assert Transits(o, c, a, b);
    assert Transits(o, b, c, a);
    ChainSigns(o, a, b); ChainSigns(o, b, c); ChainSigns(o, a, c);
  }

  ghost predicate Tied(o: Order, a: Range, b: Range) {
    !Before(o, a, b) && !Before(o, b, a)
  }

  /** A weak order makes `merge` a strict weak order: irreflexive, transitive, with transitive ties. */
  lemma StrictWeakOrder(o: Order, d: set<Range>, a: Range, b: Range, c: Range)
    requires WeakOrder(o, d) && a in d && b in d && c in d
    ensures !Before(o, a, a)
    ensures Before(o, a, b) && Before(o, b, c) ==> Before(o, a, c)
    ensures Tied(o, a, b) && Tied(o, b, c) ==> Tied(o, a, c)
  {
    hide Chain;
    ChainSigns(o, a, a);
    ChainSigns(o, a, b); ChainSigns(o, b, c); ChainSigns(o, a, c);
    if Chain(o, a, b) <= 0 && Chain(o, b, c) <= 0 { ChainTransitive(o, d, a, b, c); }
    if Chain(o, c, b) <= 0 && Chain(o, b, a) <= 0 { ChainTransitive(o, d, c, b, a); }
  }

  predicate KeyTransits(o: Order, k: Key, a: Range, b: Range, c: Range) {
    Compare(o, k, a, b) <= 0 && Compare(o, k, b, c) <= 0 ==> Compare(o, k, a, c) <= 0
  }

  ghost predicate KeyWeak(o: Order, k: Key, d: set<Range>) {
    forall a, b, c {:trigger KeyTransits(o, k, a, b, c)} | a in d && b in d && c in d :: KeyTransits(o, k, a, b, c)
  }

  /** A key that is defined on all of d is transitive there. */
  lemma DefinedIsWeak(o: Order, k: Key, d: set<Range>)
    requires forall r | r in d :: Defined(o, k, r)
    ensures KeyWeak(o, k, d)
  {
    forall a, b, c | a in d && b in d && c in d ensures KeyTransits(o, k, a, b, c) {
      if Compare(o, k, a, b) <= 0 && Compare(o, k, b, c) <= 0 { CompareTransitive(o, k, a, b, c); }
    }
  }

  /** One key decides, or it ties both pairs and the other keys do. */
  lemma ChainStep(o: Order, a: Range, b: Range, c: Range)
    requires o.keys != []
    requires KeyTransits(o, o.keys[0], a, b, c) && KeyTransits(o, o.keys[0], c, a, b)
    requires KeyTransits(o, o.keys[0], b, c, a)
    requires Transits(o.(keys := o.keys[1..]), a, b, c)
    ensures Transits(o, a, b, c)
  {
    hide Compare;
    var k := o.keys[0];
    CompareSigns(o, k, a, b); CompareSigns(o, k, b, a);
    CompareSigns(o, k, b, c); CompareSigns(o, k, c, b);
    CompareSigns(o, k, a, c); CompareSigns(o, k, c, a);
  }

  /** Transitive keys make a transitive list. */
  lemma {:induction false} ChainIsWeak(o: Order, d: set<Range>)
    requires forall k | k in o.keys :: KeyWeak(o, k, d)
    ensures WeakOrder(o, d)
    decreases |o.keys|
  {
    hide Chain, Compare, KeyTransits, Transits;
    var rest := o.(keys := if o.keys == [] then [] else o.keys[1..]);
    if o.keys == [] {
      forall a, b, c ensures Transits(o, a, b, c) { NoKeys(o, a, b, c); }
    } else {
      forall k | k in rest.keys ensures KeyWeak(rest, k, d) {
        assert k in o.keys;
        SameKey(o, rest, k, d);
      }
      ChainIsWeak(rest, d);
      assert o.keys[0] in o.keys;
      forall a, b, c | a in d && b in d && c in d ensures Transits(o, a, b, c) {
        ChainStep(o, a, b, c);
      }
    }
  }

  lemma NoKeys(o: Order, a: Range, b: Range, c: Range)
    requires o.keys == []
    ensures Transits(o, a, b, c)
  {
  }

  /** What one key compares does not depend on the list it stands in. */
  lemma SameKey(o: Order, p: Order, k: Key, d: set<Range>)
    requires o.ver == p.ver && o.names == p.names && KeyWeak(o, k, d)
    ensures KeyWeak(p, k, d)
  {
    hide IpComp, StrCmp, CompDouble;
    forall a, b, c | a in d && b in d && c in d ensures KeyTransits(p, k, a, b, c) {
      assert KeyTransits(o, k, a, b, c);
    }
  }

  /** On ranges of positive size the order is strict and weak whatever their counters are. */
  lemma PositiveSizesOrder(o: Order, a: Range, b: Range, c: Range)
    requires SizeOf(o.ver, a) > 0 && SizeOf(o.ver, b) > 0 && SizeOf(o.ver, c) > 0
    ensures !Before(o, a, a)
    ensures Before(o, a, b) && Before(o, b, c) ==> Before(o, a, c)
    ensures Tied(o, a, b) && Tied(o, b, c) ==> Tied(o, a, c)
  {
    hide Before, Tied, WeakOrder, KeyWeak, RangeSize;
    forall k | k in o.keys ensures KeyWeak(o, k, {a, b, c}) {
      DefinedIsWeak(o, k, {a, b, c});
    }
    ChainIsWeak(o, {a, b, c});
    StrictWeakOrder(o, {a, b, c}, a, b, c);
  }

  /** Which ranges have no percentage: only the full IPv4 space without active leases. */
  lemma UndefinedPercentIff(o: Order, r: Range)
    requires r.first <= r.last && InSpace(o.ver, r.last)
    ensures Percent(o.ver, r).NaN? <==>
              o.ver == IPv4 && r.first == 0 && r.last == SPACE4 - 1 && r.count == 0
  {
  }

  // ----- key lists -----

  lemma {:induction false} ChainConcat(o: Order, k1: seq<Key>, k2: seq<Key>, a: Range, b: Range)
    ensures Chain(o.(keys := k1 + k2), a, b) ==
            (if Chain(o.(keys := k1), a, b) != 0 then Chain(o.(keys := k1), a, b)
             else Chain(o.(keys := k2), a, b))
    decreases |k1|
  {
    if k1 == [] {
      assert k1 + k2 == k2;
    } else {
      assert (k1 + k2)[1..] == k1[1..] + k2;
      ChainConcat(o, k1[1..], k2, a, b);
    }
  }
}

/** What a stable sort of a range table is, and that there is only one. */
module StableSort {
  import opened Pools
  import opened Ordering

  ghost predicate Sorted(o: Order, s: seq<Range>) {
    forall i, j | 0 <= i < j < |s| :: Chain(o, s[i], s[j]) <= 0
  }

  ghost predicate Over(d: set<Range>, s: seq<Range>) {
    forall r | r in s :: r in d
  }

  function Elements(s: seq<Range>): (d: set<Range>)
    ensures forall r :: r in d <==> r in s
  {
    set r | r in s
  }

  /** The elements of s that tie with x, in the order s has them. */
  function Ties(o: Order, x: Range, s: seq<Range>): seq<Range> {
    if s == [] then []
    else (if Chain(o, x, s[0]) == 0 then [s[0]] else []) + Ties(o, x, s[1..])
  }

  /** Each class of ties appears in r as it does in s. */
  ghost predicate SameTies(o: Order, d: set<Range>, r: seq<Range>, s: seq<Range>) {
    forall x | x in d :: Ties(o, x, r) == Ties(o, x, s)
  }

  /** r is the stable ascending sort of s, a table over d: sorted, a permutation, each class of ties in
      the order it has in s. */
  ghost predicate StableSortOf(o: Order, d: set<Range>, r: seq<Range>, s: seq<Range>) {
    && Sorted(o, r)
    && multiset(r) == multiset(s)
    && SameTies(o, d, r, s)
  }

  lemma {:induction false} TiesConcat(o: Order, x: Range, s: seq<Range>, t: seq<Range>)
    ensures Ties(o, x, s + t) == Ties(o, x, s) + Ties(o, x, t)
  {
    if s == [] {
      assert s + t == t;
    } else {
      assert (s + t)[1..] == s[1..] + t;
      TiesConcat(o, x, s[1..], t);
    }
  }

  lemma {:induction false} ReverseConcat(s: seq<Range>, t: seq<Range>)
    ensures Reverse(s + t) == Reverse(t) + Reverse(s)
  {
  }

  lemma ReverseReverse(s: seq<Range>)
    ensures Reverse(Reverse(s)) == s
  {
  }

  lemma {:induction false} ReverseMultiset(s: seq<Range>)
    ensures multiset(Reverse(s)) == multiset(s)
  {
    if s != [] {
      ReverseMultiset(s[1..]);
      assert s == [s[0]] + s[1..];
    }
  }

  lemma {:induction false} TiesReverse(o: Order, x: Range, s: seq<Range>)
    ensures Ties(o, x, Reverse(s)) == Reverse(Ties(o, x, s))
  {
    if s != [] {
      TiesReverse(o, x, s[1..]);
      TiesConcat(o, x, Reverse(s[1..]), [s[0]]);
      ReverseConcat(if Chain(o, x, s[0]) == 0 then [s[0]] else [], Ties(o, x, s[1..]));
    }
  }

  lemma {:induction false} TiesMember(o: Order, x: Range, s: seq<Range>, y: Range)
    ensures y in Ties(o, x, s) <==> y in s && Chain(o, x, y) == 0
  {
    if s != [] {
      TiesMember(o, x, s[1..], y);
      assert s == [s[0]] + s[1..];
    }
  }

  /** No element ties with x. */
  lemma {:induction false} NoTies(o: Order, x: Range, s: seq<Range>)
    requires forall y | y in s :: Chain(o, x, y) != 0
    ensures Ties(o, x, s) == []
  {
    if s != [] {
      assert s[0] in s;
      NoTies(o, x, s[1..]);
    }
  }

  lemma SortedTail(o: Order, s: seq<Range>)
    requires Sorted(o, s) && s != []
    ensures Sorted(o, s[1..])
    ensures forall y | y in s[1..] :: Chain(o, s[0], y) <= 0
  {
    forall i, j | 0 <= i < j < |s[1..]| ensures Chain(o, s[1..][i], s[1..][j]) <= 0 {
      assert Chain(o, s[i + 1], s[j + 1]) <= 0;
    }
  }

  /** The head of a sorted table is not above the head of another one with the same classes. */
  lemma HeadNotAbove(o: Order, d: set<Range>, r: seq<Range>, s: seq<Range>)
    requires r != [] && s != [] && Sorted(o, r)
    requires Over(d, r) && Over(d, s) && SameTies(o, d, r, s)
    ensures Chain(o, r[0], s[0]) <= 0
    ensures s[0] in r
  {
    ChainSigns(o, s[0], s[0]);
    TiesMember(o, s[0], s, s[0]);
    TiesMember(o, s[0], r, s[0]);
    if s[0] == r[0] {
    } else {
      SortedTail(o, r);
      assert r == [r[0]] + r[1..];
    }
  }

  lemma SameTails(o: Order, d: set<Range>, r: seq<Range>, s: seq<Range>)
    requires r != [] && s != [] && r[0] == s[0] && SameTies(o, d, r, s)
    ensures SameTies(o, d, r[1..], s[1..])
  {
    hide Chain;
    forall z | z in d ensures Ties(o, z, r[1..]) == Ties(o, z, s[1..]) {
      var head := if Chain(o, z, r[0]) == 0 then [r[0]] else [];
      assert Ties(o, z, r[1..]) == (head + Ties(o, z, r[1..]))[|head|..];
      assert Ties(o, z, s[1..]) == (head + Ties(o, z, s[1..]))[|head|..];
    }
  }

  /** A stable sort is unique: two sorted tables with the same classes of ties are equal. */
  lemma {:induction false} StableSortIsUnique(o: Order, d: set<Range>, r: seq<Range>, s: seq<Range>)
    requires Sorted(o, r) && Sorted(o, s)
    requires Over(d, r) && Over(d, s) && SameTies(o, d, r, s)
    ensures r == s
  {
    hide Chain;
    if r == [] && s == [] {
    } else if r == [] {
      NoTiesOfEmpty(o, d, s, r);
    } else if s == [] {
      NoTiesOfEmpty(o, d, r, s);
    } else {
      HeadNotAbove(o, d, r, s);
      HeadNotAbove(o, d, s, r);
      ChainSigns(o, r[0], s[0]);
      ChainSigns(o, r[0], r[0]);
      assert Ties(o, r[0], r)[0] == r[0];
      assert Ties(o, r[0], s)[0] == s[0];
      assert r == [r[0]] + r[1..] && s == [s[0]] + s[1..];
      SameTails(o, d, r, s);
      SortedTail(o, r); SortedTail(o, s);
      StableSortIsUnique(o, d, r[1..], s[1..]);
    }
  }

  lemma NoTiesOfEmpty(o: Order, d: set<Range>, s: seq<Range>, e: seq<Range>)
    requires s != [] && e == [] && Over(d, s)
    ensures !SameTies(o, d, s, e)
  {
    ChainSigns(o, s[0], s[0]);
    assert Ties(o, s[0], s) != Ties(o, s[0], e);
  }

  // ----- sorting by one key list after another -----

  /** The class of ties under k1 + k2 is the k2-class within the k1-class, and the other way round. */
  lemma TiesOfConcat(o: Order, k1: seq<Key>, k2: seq<Key>, x: Range, s: seq<Range>)
    ensures Ties(o.(keys := k1 + k2), x, s) == Ties(o.(keys := k2), x, Ties(o.(keys := k1), x, s))
    ensures Ties(o.(keys := k1 + k2), x, s) == Ties(o.(keys := k1), x, Ties(o.(keys := k2), x, s))
  {
    var p, q, both := o.(keys := k1), o.(keys := k2), o.(keys := k1 + k2);
    forall y ensures Chain(both, x, y) == 0 <==> Chain(p, x, y) == 0 && Chain(q, x, y) == 0 {
      ChainConcat(o, k1, k2, x, y);
    }
    TiesWithin(p, q, both, x, s);
    TiesWithin(q, p, both, x, s);
  }

  lemma {:induction false} TiesWithin(p: Order, q: Order, both: Order, x: Range, s: seq<Range>)
    requires forall y :: Chain(both, x, y) == 0 <==> Chain(p, x, y) == 0 && Chain(q, x, y) == 0
    ensures Ties(both, x, s) == Ties(q, x, Ties(p, x, s))
  {
    if s != [] {
      TiesWithin(p, q, both, x, s[1..]);
      var rest := Ties(p, x, s[1..]);
      if Chain(p, x, s[0]) == 0 {
        assert ([s[0]] + rest)[1..] == rest;
        assert Ties(p, x, s) == [s[0]] + rest;
      } else {
        assert Ties(p, x, s) == rest;
      }
    }
  }

  /** In a sorted table every selection of ties is sorted. */
  lemma {:induction false} SortedTies(p: Order, o: Order, x: Range, s: seq<Range>)
    requires Sorted(o, s)
    ensures Sorted(o, Ties(p, x, s))
  {
    if s != [] {
      SortedTail(o, s);
      SortedTies(p, o, x, s[1..]);
      forall y | y in Ties(p, x, s[1..]) ensures Chain(o, s[0], y) <= 0 {
        TiesMember(p, x, s[1..], y);
      }
    }
  }

  /** Elements at i < j that tie with x under p appear in that order among the ties. */
  lemma {:induction false} TiesKeepOrder(p: Order, x: Range, s: seq<Range>, i: nat, j: nat) returns (k: nat, l: nat)
    requires i < j < |s| && Chain(p, x, s[i]) == 0 && Chain(p, x, s[j]) == 0
    ensures k < l < |Ties(p, x, s)| && Ties(p, x, s)[k] == s[i] && Ties(p, x, s)[l] == s[j]
  {
    hide Chain;
    if i == 0 {
      TiesMember(p, x, s[1..], s[j]);
      assert s[j] == s[1..][j - 1];
      var m :| 0 <= m < |Ties(p, x, s[1..])| && Ties(p, x, s[1..])[m] == s[j];
      k, l := 0, m + 1;
    } else {
      k, l := TiesKeepOrder(p, x, s[1..], i - 1, j - 1);
      if Chain(p, x, s[0]) == 0 { k, l := k + 1, l + 1; }
    }
  }

  /** r sorted by k1 with the ties of t, t sorted by k2: then r is sorted by k1 + k2. */
  lemma SortedByBoth(o: Order, d: set<Range>, k1: seq<Key>, k2: seq<Key>, r: seq<Range>, t: seq<Range>)
    requires Sorted(o.(keys := k1), r) && Sorted(o.(keys := k2), t)
    requires Over(d, r) && SameTies(o.(keys := k1), d, r, t)
    ensures Sorted(o.(keys := k1 + k2), r)
  {
    var o1, o2 := o.(keys := k1), o.(keys := k2);
    forall i, j | 0 <= i < j < |r| ensures Chain(o.(keys := k1 + k2), r[i], r[j]) <= 0 {
      ChainConcat(o, k1, k2, r[i], r[j]);
      if Chain(o1, r[i], r[j]) == 0 {
        ChainSigns(o1, r[i], r[i]);
        var k, l := TiesKeepOrder(o1, r[i], r, i, j);
        SortedTies(o1, o2, r[i], t);
        assert r[i] in d && Ties(o1, r[i], r) == Ties(o1, r[i], t);
      }
    }
  }

  // ----- tables that are their own reversal as far as ties go -----

  lemma {:induction false} TiesDistinct(o: Order, x: Range, s: seq<Range>)
    requires Distinct(s)
    ensures Distinct(Ties(o, x, s))
  {
    hide Chain;
    if s != [] {
      TiesDistinct(o, x, s[1..]);
      TiesMember(o, x, s[1..], s[0]);
    }
  }

  ghost predicate NoTwoTied(o: Order, s: seq<Range>) {
    forall i, j | 0 <= i < j < |s| :: Chain(o, s[i], s[j]) != 0
  }

  lemma {:induction false} TiesAtMostOne(o: Order, d: set<Range>, x: Range, s: seq<Range>)
    requires WeakOrder(o, d) && Over(d, s) && x in d && NoTwoTied(o, s)
    ensures |Ties(o, x, s)| <= 1
  {
    hide Chain, WeakOrder;
    if s != [] {
      forall i, j | 0 <= i < j < |s[1..]| ensures Chain(o, s[1..][i], s[1..][j]) != 0 {
        assert s[1..][i] == s[i + 1] && s[1..][j] == s[j + 1];
      }
      assert Over(d, s[1..]) by { assert forall r | r in s[1..] :: r in s; }
      TiesAtMostOne(o, d, x, s[1..]);
      if Chain(o, x, s[0]) == 0 {
        forall y | y in s[1..] ensures Chain(o, x, y) != 0 {
          ChainSigns(o, x, s[0]);
          if Chain(o, x, y) == 0 { TiedBack(o, d, s[0], x, y); }
        }
        NoTies(o, x, s[1..]);
      }
    }
  }

  lemma TiedBack(o: Order, d: set<Range>, a: Range, b: Range, c: Range)
    requires WeakOrder(o, d) && a in d && b in d && c in d
    requires Chain(o, a, b) == 0 && Chain(o, b, c) == 0
    ensures Chain(o, a, c) == 0
  {
    hide Chain, WeakOrder;
    ChainSigns(o, a, b); ChainSigns(o, b, c); ChainSigns(o, a, c);
    ChainTransitive(o, d, a, b, c);
    ChainTransitive(o, d, c, b, a);
  }

  /** Reversing a table of distinct ranges keeps its classes of ties exactly when no two ranges tie. */
  lemma PalindromeIff(o: Order, d: set<Range>, s: seq<Range>)
    requires WeakOrder(o, d) && Over(d, s) && Distinct(s)
    ensures (forall x | x in d :: Ties(o, x, s) == Reverse(Ties(o, x, s))) <==> NoTwoTied(o, s)
  {
    hide Chain, WeakOrder;
    if NoTwoTied(o, s) {
      forall x | x in d ensures Ties(o, x, s) == Reverse(Ties(o, x, s)) {
        TiesAtMostOne(o, d, x, s);
      }
    } else {
      var i, j :| 0 <= i < j < |s| && Chain(o, s[i], s[j]) == 0;
      ChainSigns(o, s[i], s[i]);
      var k, l := TiesKeepOrder(o, s[i], s, i, j);
      TiesDistinct(o, s[i], s);
      var t := Ties(o, s[i], s);
      assert Reverse(t)[0] == t[|t| - 1];
    }
  }
}

/** The in-place table operations: mergesort_ranges (src/sort.c) and flip_ranges (src/other.c). */
module RangeTable {
  import opened Pools
  import opened Ordering
  import opened Sorting

  /** The table outside [lo, hi) is what it was. */
  twostate predicate SameOutside(a: array<Range>, lo: int, hi: int)
    reads a
  {
    forall k | 0 <= k < a.Length && !(lo <= k < hi) :: a[k] == old(a[k])
  }

  /** The array segment at `base` holds s. */
  ghost predicate Holds(a: array<Range>, base: nat, s: seq<Range>)
    reads a
  {
    base + |s| <= a.Length && forall k | base <= k < base + |s| :: a[k] == s[k - base]
  }

  lemma InsertStep(o: Order, run: seq<Range>, hold: Range, right: nat)
    requires right < |run| && !Before(o, run[right], hold)
    ensures Insert(o, run[..right + 1], hold) + run[right + 1..] == Insert(o, run[..right], hold) + run[right..]
  {
    assert run[..right + 1][..right] == run[..right];
    assert run[right..] == [run[right]] + run[right + 1..];
  }

  lemma InsertStop(o: Order, low: seq<Range>, hold: Range)
    requires low != [] ==> Before(o, low[|low| - 1], hold)
    ensures Insert(o, low, hold) == low + [hold]
  {
    hide Before;
  }

  lemma InsertEnd(o: Order, run: seq<Range>, hold: Range, at: nat) returns (out: seq<Range>)
    requires at <= |run| && (at > 0 ==> Before(o, run[at - 1], hold))
    requires Insert(o, run, hold) == Insert(o, run[..at], hold) + run[at..]
    ensures out == Insert(o, run, hold) && |out| == |run| + 1
    ensures (forall k | 0 <= k < at :: out[k] == run[k]) && out[at] == hold
    ensures forall k | at < k <= |run| :: out[k] == run[k - 1]
  {
    hide Before, Insert;
    InsertStop(o, run[..at], hold);
    out := Insert(o, run, hold);
  }

  /** The inner loop: shift up the elements of the sorted run that are not strictly before `hold`. */
  method ShiftUp(o: Order, orig: array<Range>, base: nat, left: nat, hold: Range, ghost run: seq<Range>)
    returns (gap: nat)
    requires base + left < orig.Length && |run| == left && Holds(orig, base, run)
    modifies orig
    ensures gap <= left && (gap > 0 ==> Before(o, run[gap - 1], hold))
    ensures Insert(o, run, hold) == Insert(o, run[..gap], hold) + run[gap..]
    ensures forall k | base + gap < k <= base + left :: orig[k] == run[k - base - 1]
    ensures SameOutside(orig, base + gap + 1, base + left + 1)
  {
    hide Before, Insert, DecidedBy, Compare;
    var right := left - 1;
    assert run[..left] == run;
    while 0 <= right
      invariant -1 <= right < left
      invariant SameOutside(orig, base + right + 2, base + left + 1)
      invariant forall k | base + right + 1 < k <= base + left :: orig[k] == run[k - base - 1]
      invariant Insert(o, run, hold) == Insert(o, run[..right + 1], hold) + run[right + 1..]
    {
      assert orig[base + right] == run[right];
      var stop := Merge(o, orig[base + right], hold);
      if stop { break; }
      InsertStep(o, run, hold, right);
      orig[base + right + 1] := orig[base + right];
      right := right - 1;
    }
    gap := right + 1;
  }

  /** One round of the insertion loop: make a gap in the sorted run and drop the next element into it. */
  method InsertInPlace(o: Order, orig: array<Range>, base: nat, left: nat, ghost run: seq<Range>)
    requires base + left < orig.Length && |run| == left && Holds(orig, base, run)
    modifies orig
    ensures |Insert(o, run, old(orig[base + left]))| == left + 1
    ensures Holds(orig, base, Insert(o, run, old(orig[base + left])))
    ensures SameOutside(orig, base, base + left + 1)
  {
    hide Before, Insert;
    var hold := orig[base + left];
    var gap := ShiftUp(o, orig, base, left, hold, run);
    ghost var out := InsertEnd(o, run, hold, gap);
    orig[base + gap] := hold;
    assert forall k | base <= k < base + gap :: orig[k] == run[k - base];
    assert Holds(orig, base, out);
  }

  /** The run whose head goes out next. */
  predicate TakeLeft(o: Order, l: seq<Range>, r: seq<Range>, a: nat, b: nat)
    requires a <= |l| && b <= |r|
  {
    b == |r| || (a < |l| && Before(o, l[a], r[b]))
  }

  /** The first i elements of the merge are out, the rest is the merge of l[a..] and r[b..]. */
  ghost predicate Merging(o: Order, l: seq<Range>, r: seq<Range>, a: nat, b: nat, i: nat) {
    a <= |l| && b <= |r| && i <= |MergeRuns(o, l, r)|
    && MergeRuns(o, l[a..], r[b..]) == MergeRuns(o, l, r)[i..]
  }

  lemma MergeStep(o: Order, l: seq<Range>, r: seq<Range>, a: nat, b: nat, i: nat)
    requires Merging(o, l, r, a, b, i) && (a < |l| || b < |r|)
    ensures i < |MergeRuns(o, l, r)|
    ensures TakeLeft(o, l, r, a, b) ==> MergeRuns(o, l, r)[i] == l[a] && Merging(o, l, r, a + 1, b, i + 1)
    ensures !TakeLeft(o, l, r, a, b) ==> MergeRuns(o, l, r)[i] == r[b] && Merging(o, l, r, a, b + 1, i + 1)
  {
    var all := MergeRuns(o, l, r);
    var rest := MergeRuns(o, l[a..], r[b..]);
    assert all[i + 1..] == all[i..][1..] == rest[1..];
    if a < |l| { assert l[a..][1..] == l[a + 1..]; }
    if b < |r| { assert r[b..][1..] == r[b + 1..]; }
  }

  /** How many of the first i elements that go out come from the left run. */
  function FromLeft(o: Order, l: seq<Range>, r: seq<Range>, i: nat): (a: nat)
    requires i <= |l| + |r|
    ensures a <= |l| && 0 <= i - a <= |r|
  {
    if i == 0 then 0
    else
      var a := FromLeft(o, l, r, i - 1);
      if TakeLeft(o, l, r, a, i - 1 - a) then a + 1 else a
  }

  lemma {:induction false} FromLeftMerges(o: Order, l: seq<Range>, r: seq<Range>, i: nat)
    requires i <= |l| + |r|
    ensures Merging(o, l, r, FromLeft(o, l, r, i), i - FromLeft(o, l, r, i), i)
  {
    hide Before, MergeRuns;
    if i > 0 {
      FromLeftMerges(o, l, r, i - 1);
      var a := FromLeft(o, l, r, i - 1);
      MergeStep(o, l, r, a, i - 1 - a, i - 1);
    } else {
      assert l[0..] == l && r[0..] == r;
    }
  }

  lemma MergeRunsLength(o: Order, l: seq<Range>, r: seq<Range>)
    ensures |MergeRuns(o, l, r)| == |l| + |r|
  {
    MergeRunsMultiset(o, l, r);
    assert |MergeRuns(o, l, r)| == |multiset(MergeRuns(o, l, r))|;
  }

  /** The i-th element that goes out. */
  function Out(o: Order, l: seq<Range>, r: seq<Range>, i: nat): Range
    requires i < |l| + |r|
  {
    var a := FromLeft(o, l, r, i);
    if TakeLeft(o, l, r, a, i - a) then l[a] else r[i - a]
  }

  ghost predicate Outputs(o: Order, l: seq<Range>, r: seq<Range>, all: seq<Range>) {
    |all| == |l| + |r| && forall i | 0 <= i < |all| :: all[i] == Out(o, l, r, i)
  }

  /** What goes out is the merge of the two runs. */
  lemma MergeRunsOutputs(o: Order, l: seq<Range>, r: seq<Range>)
    ensures Outputs(o, l, r, MergeRuns(o, l, r))
  {
    MergeRunsLength(o, l, r);
    forall i | 0 <= i < |l| + |r| ensures MergeRuns(o, l, r)[i] == Out(o, l, r, i) {
      FromLeftMerges(o, l, r, i);
      MergeStep(o, l, r, FromLeft(o, l, r, i), i - FromLeft(o, l, r, i), i);
    }
  }

  /** One run is used up: the rest of the other goes out unchanged. */
  lemma {:induction false} RestOut(o: Order, l: seq<Range>, r: seq<Range>, a: nat, b: nat, k: nat)
    requires a <= |l| && b <= |r| && (a == |l| || b == |r|) && a + b <= k < |l| + |r|
    requires FromLeft(o, l, r, a + b) == a
    ensures Out(o, l, r, k) == if a == |l| then r[k - a] else l[k - b]
    ensures FromLeft(o, l, r, k) == if a == |l| then a else k - b
  {
    hide Before;
    if k > a + b { RestOut(o, l, r, a, b, k - 1); }
  }

  lemma NothingOut(o: Order, l: seq<Range>, r: seq<Range>)
    ensures FromLeft(o, l, r, 0) == 0
  {
  }

  /** What goes out next while both runs last. */
  lemma NextOut(o: Order, l: seq<Range>, r: seq<Range>, all: seq<Range>, a: nat, b: nat)
    requires a < |l| && b < |r| && Outputs(o, l, r, all) && FromLeft(o, l, r, a + b) == a
    ensures Before(o, l[a], r[b]) ==> all[a + b] == l[a] && FromLeft(o, l, r, a + b + 1) == a + 1
    ensures !Before(o, l[a], r[b]) ==> all[a + b] == r[b] && FromLeft(o, l, r, a + b + 1) == a
  {
    hide Before;
    assert all[a + b] == Out(o, l, r, a + b);
  }

  /** What is still to go out when one run is used up. */
  lemma RestOfAll(o: Order, l: seq<Range>, r: seq<Range>, all: seq<Range>, a: nat, b: nat)
    requires a <= |l| && b <= |r| && (a == |l| || b == |r|)
    requires Outputs(o, l, r, all) && FromLeft(o, l, r, a + b) == a
    ensures forall k | a + b <= k < |all| :: all[k] == if a == |l| then r[k - a] else l[k - b]
  {
    hide Before, FromLeft, Out;
    forall k | a + b <= k < |all| ensures all[k] == if a == |l| then r[k - a] else l[k - b] {
      RestOut(o, l, r, a, b, k);
      assert all[k] == Out(o, l, r, k);
    }
  }

  /** The loop that merges while both runs last. */
  method MergeBoth(o: Order, orig: array<Range>, base: nat, size: nat, temp: array<Range>,
                   ghost l: seq<Range>, ghost r: seq<Range>, ghost all: seq<Range>)
    returns (left: nat, right: nat)
    requires size <= temp.Length && orig != temp
    requires |l| == size / 2 && |r| == size - size / 2 && Outputs(o, l, r, all)
    requires Holds(orig, base, l) && Holds(orig, base + size / 2, r)
    modifies temp
    ensures left <= size / 2 <= right <= size && (left == size / 2 || right == size)
    ensures FromLeft(o, l, r, left + (right - size / 2)) == left
    ensures forall k | 0 <= k < left + (right - size / 2) :: temp[k] == all[k]
    ensures SameOutside(temp, 0, size)
  {
    hide Before, FromLeft, Out, DecidedBy, Compare;
    NothingOut(o, l, r);
    var m := size / 2;
    left, right := 0, m;
    var i := 0;
    while left < m && right < size
      invariant left <= m <= right <= size && i == left + (right - m)
      invariant FromLeft(o, l, r, i) == left
      invariant forall k | 0 <= k < i :: temp[k] == all[k]
      invariant SameOutside(temp, 0, size)
    {
      assert orig[base + left] == l[left] && orig[base + right] == r[right - m];
      NextOut(o, l, r, all, left, right - m);
      var first := Merge(o, orig[base + left], orig[base + right]);
      if first {
        temp[i] := orig[base + left];
        left := left + 1;
      } else {
        temp[i] := orig[base + right];
        right := right + 1;
      }
      i := i + 1;
    }
  }

  /** The loops that copy what is left of one run. */
  method Drain(orig: array<Range>, from: nat, n: nat, temp: array<Range>, at: nat)
    requires from + n <= orig.Length && at + n <= temp.Length && orig != temp
    modifies temp
    ensures forall k | at <= k < at + n :: temp[k] == orig[from + k - at]
    ensures SameOutside(temp, at, at + n)
  {
    for j := 0 to n
      invariant forall k | at <= k < at + j :: temp[k] == orig[from + k - at]
      invariant SameOutside(temp, at, at + n)
    {
      temp[at + j] := orig[from + j];
    }
  }

  lemma OutputsLength(o: Order, l: seq<Range>, r: seq<Range>, all: seq<Range>)
    requires Outputs(o, l, r, all)
    ensures |all| == |l| + |r|
  {
  }

  /** The merge of the two sorted halves into the scratch buffer. */
  method MergeHalves(o: Order, orig: array<Range>, base: nat, size: nat, temp: array<Range>,
                     ghost l: seq<Range>, ghost r: seq<Range>, ghost all: seq<Range>)
    requires size <= temp.Length && orig != temp
    requires |l| == size / 2 && |r| == size - size / 2 && Outputs(o, l, r, all)
    requires Holds(orig, base, l) && Holds(orig, base + size / 2, r)
    modifies temp
    ensures Holds(temp, 0, all)
    ensures SameOutside(temp, 0, size)
  {
    hide Before, FromLeft, Out, Outputs;
    OutputsLength(o, l, r, all);
    var m := size / 2;
    var left, right := MergeBoth(o, orig, base, size, temp, l, r, all);
    var i := left + (right - m);
    RestOfAll(o, l, r, all, left, right - m);
    Drain(orig, base + left, m - left, temp, i);
    Drain(orig, base + right, size - right, temp, i + (m - left));
  }

  lemma HybridSortSplits(o: Order, s: seq<Range>, m: nat)
    requires |s| >= MIN_MERGE_SIZE && m == |s| / 2
    ensures HybridSort(o, s) == MergeRuns(o, HybridSort(o, s[..m]), HybridSort(o, s[m..]))
    ensures |HybridSort(o, s[..m])| == m && |HybridSort(o, s[m..])| == |s| - m
  {
    SortIsPermutation(o, s[..m]);
    SortIsPermutation(o, s[m..]);
  }

  /** mergesort_ranges on the segment of `orig` starting at `base`; `temp` is scratch space shared by
      all recursive calls. */
  method MergesortRanges(o: Order, orig: array<Range>, base: nat, size: nat, temp: array<Range>,
                         ghost s: seq<Range>)
    requires size == |s| <= temp.Length && orig != temp && Holds(orig, base, s)
    modifies orig, temp
    ensures |HybridSort(o, s)| == size && Holds(orig, base, HybridSort(o, s))
    ensures SameOutside(orig, base, base + size)
    ensures SameOutside(temp, 0, size)
    decreases size
  {
    hide Before, MergeRuns;
    SortIsPermutation(o, s);
    if size < MIN_MERGE_SIZE {
      InsertAll(o, orig, base, size, s);
      return;
    }
    var m := size / 2;
    ghost var l, r := HybridSort(o, s[..m]), HybridSort(o, s[m..]);
    HybridSortSplits(o, s, m);
    MergeRunsOutputs(o, l, r);
    MergesortRanges(o, orig, base, m, temp, s[..m]);
    MergesortRanges(o, orig, base + m, size - m, temp, s[m..]);
    MergeHalves(o, orig, base, size, temp, l, r, HybridSort(o, s));
    CopyBack(orig, base, size, temp);
  }

  /** The final memcpy. */
  method CopyBack(orig: array<Range>, base: nat, size: nat, temp: array<Range>)
    requires base + size <= orig.Length && size <= temp.Length && orig != temp
    modifies orig
    ensures forall k | base <= k < base + size :: orig[k] == temp[k - base]
    ensures SameOutside(orig, base, base + size)
  {
    forall k | base <= k < base + size {
      orig[k] := temp[k - base];
    }
  }

  /** The branch for short tables. */
  method InsertAll(o: Order, orig: array<Range>, base: nat, size: nat, ghost s: seq<Range>)
    requires size == |s| && Holds(orig, base, s)
    modifies orig
    ensures |InsertionSort(o, s)| == size && Holds(orig, base, InsertionSort(o, s))
    ensures SameOutside(orig, base, base + size)
  {
    for left := 0 to size
      invariant |InsertionSort(o, s[..left])| == left && Holds(orig, base, InsertionSort(o, s[..left]))
      invariant SameOutside(orig, base, base + left)
    {
      assert s[..left + 1][..left] == s[..left];
      assert orig[base + left] == s[left];
      InsertInPlace(o, orig, base, left, InsertionSort(o, s[..left]));
    }
    assert s[..size] == s;
  }

  /** flip_ranges: the index is unsigned and wraps below zero after its last use. */
  method FlipRanges(flipMe: array<Range>, tmpRanges: array<Range>, numRanges: nat)
    requires numRanges <= flipMe.Length && numRanges <= tmpRanges.Length && flipMe != tmpRanges
    requires numRanges < 0x1_0000_0000
    modifies flipMe, tmpRanges
    ensures flipMe[..numRanges] == Reverse(old(flipMe[..numRanges]))
    ensures SameOutside(flipMe, 0, numRanges) && SameOutside(tmpRanges, 0, numRanges)
  {
    var i := (numRanges - 1) % 0x1_0000_0000;
    for j := 0 to numRanges
      invariant i == (numRanges - 1 - j) % 0x1_0000_0000
      invariant forall k | 0 <= k < j :: tmpRanges[k] == flipMe[numRanges - 1 - k]
      invariant flipMe[..] == old(flipMe[..]) && SameOutside(tmpRanges, 0, numRanges)
    {
      tmpRanges[j] := flipMe[i];
      i := (i - 1) % 0x1_0000_0000;
    }
    forall k | 0 <= k < numRanges {
      flipMe[k] := tmpRanges[k];
    }
  }
}

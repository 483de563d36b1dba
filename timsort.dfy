/**
 The timsort of the benchmark (benchmark.py lines 80-144): runs of
 calc_min_run(n) rows are sorted by insertion, then neighbouring runs are
 merged bottom-up, doubling the run size each round.

 merge is specified by the function Merged(l, r, key): the merge of two runs
 that always takes the smaller head and, on a tie, the head of the left run.
 The run loop and the merge loop are specified by RunsSorted: the rows are
 sorted within every block of a given width.
 */
module TimSort {
  import opened Ordering
  import opened Arith
  import opened Insertion

  const MinMerge := 32

  /**
   calc_min_run: halves n until it drops below 32, remembering whether a 1
   bit was shifted out. The result is n / 2^shifts rounded up, where shifts
   is the number of halvings.
   */
  method CalcMinRun(n: nat) returns (minRun: nat, ghost shifts: nat)
    ensures n / Pow2(shifts) < MinMerge
    ensures shifts > 0 ==> n / Pow2(shifts - 1) >= MinMerge
    ensures minRun == n / Pow2(shifts) + (if n % Pow2(shifts) == 0 then 0 else 1)
    ensures n < MinMerge ==> minRun == n
    ensures n >= MinMerge ==> MinMerge / 2 <= minRun <= MinMerge
  {
    var m := n;
    var r := 0;
    shifts := 0;
    while m >= MinMerge
      invariant m == n / Pow2(shifts)
      invariant r == if n % Pow2(shifts) == 0 then 0 else 1
      invariant shifts > 0 ==> n / Pow2(shifts - 1) >= MinMerge
      invariant n < MinMerge ==> shifts == 0
    {
      DigitSplit(n, Pow2(shifts), 2);
      assert 2 * Pow2(shifts) == Pow2(shifts + 1);
      r := if m % 2 == 1 then 1 else r;  // r |= m & 1, r being 0 or 1
      m := m / 2;
      shifts := shifts + 1;
    }
    if shifts > 0 {
      DigitSplit(n, Pow2(shifts - 1), 2);
    } else {
      DivModUnique(n, 1, n, 0);
    }
    minRun := m + r;
  }

  /** The merge of two runs: the smaller head first, the head of `l` on a tie. */
  function Merged<T>(l: seq<T>, r: seq<T>, key: T -> int): seq<T>
    decreases |l| + |r|
  {
    if |l| == 0 then r
    else if |r| == 0 then l
    else if key(l[0]) <= key(r[0]) then [l[0]] + Merged(l[1..], r, key)
    else [r[0]] + Merged(l, r[1..], key)
  }

  /** Merging loses and invents no row. */
  lemma {:induction false} MergedPermutation<T>(l: seq<T>, r: seq<T>, key: T -> int)
    ensures |Merged(l, r, key)| == |l| + |r|
    ensures multiset(Merged(l, r, key)) == multiset(l) + multiset(r)
    decreases |l| + |r|
  {
    if |l| > 0 && |r| > 0 {
      assert l == [l[0]] + l[1..] && r == [r[0]] + r[1..];
      if key(l[0]) <= key(r[0]) {
        MergedPermutation(l[1..], r, key);
      } else {
        MergedPermutation(l, r[1..], key);
      }
    }
  }

  /** A bound below every row of both runs is a bound below every row of their merge. */
  lemma {:induction false} MergedAbove<T>(l: seq<T>, r: seq<T>, key: T -> int, lo: int)
    requires forall i :: 0 <= i < |l| ==> lo <= key(l[i])
    requires forall i :: 0 <= i < |r| ==> lo <= key(r[i])
    ensures forall i :: 0 <= i < |Merged(l, r, key)| ==> lo <= key(Merged(l, r, key)[i])
    decreases |l| + |r|
  {
    if |l| > 0 && |r| > 0 {
      if key(l[0]) <= key(r[0]) {
        MergedAbove(l[1..], r, key, lo);
      } else {
        MergedAbove(l, r[1..], key, lo);
      }
    }
  }

  /** The merge of two sorted runs is sorted. */
  lemma {:induction false} MergedSorted<T>(l: seq<T>, r: seq<T>, key: T -> int)
    requires SortedBy(l, key) && SortedBy(r, key)
    ensures SortedBy(Merged(l, r, key), key)
    decreases |l| + |r|
  {
    if |l| > 0 && |r| > 0 {
      if key(l[0]) <= key(r[0]) {
        MergedSorted(l[1..], r, key);
        MergedAbove(l[1..], r, key, key(l[0]));
      } else {
        MergedSorted(l, r[1..], key);
        MergedAbove(l, r[1..], key, key(r[0]));
      }
    }
  }

  /**
   Merging is stable: the rows of any one key come out as those of the left
   run followed by those of the right run, each in its own order. Ties go to
   the left run, so this needs only the left run sorted.
   */
  lemma {:induction false} MergedFilter<T>(l: seq<T>, r: seq<T>, key: T -> int, b: int)
    requires SortedBy(l, key)
    ensures Filter(Merged(l, r, key), key, b) == Filter(l, key, b) + Filter(r, key, b)
    decreases |l| + |r|
  {
    if |l| == 0 {
      assert Filter(l, key, b) == [];
    } else if |r| == 0 {
      assert Filter(r, key, b) == [];
    } else if key(l[0]) <= key(r[0]) {
      MergedFilter(l[1..], r, key, b);
      FilterConsLeft(l[0], Merged(l[1..], r, key), l[1..], r, key, b);
      assert [l[0]] + l[1..] == l;
    } else {
      MergedFilter(l, r[1..], key, b);
      if key(r[0]) == b {
        FilterNone(l, key, b);
      }
      FilterConsRight(r[0], Merged(l, r[1..], key), l, r[1..], key, b);
      assert [r[0]] + r[1..] == r;
    }
  }

  /** A row put in front of m, whose filter is that of u then v, joins u's filter. */
  lemma FilterConsLeft<T>(x: T, m: seq<T>, u: seq<T>, v: seq<T>, key: T -> int, b: int)
    requires Filter(m, key, b) == Filter(u, key, b) + Filter(v, key, b)
    ensures Filter([x] + m, key, b) == Filter([x] + u, key, b) + Filter(v, key, b)
  {
    FilterCons(x, m, key, b);
    FilterCons(x, u, key, b);
  }

  /**
   A row put in front of m, whose filter is that of u then v, joins v's
   filter when u has no row of its key.
   */
  lemma FilterConsRight<T>(y: T, m: seq<T>, u: seq<T>, v: seq<T>, key: T -> int, b: int)
    requires Filter(m, key, b) == Filter(u, key, b) + Filter(v, key, b)
    requires key(y) == b ==> Filter(u, key, b) == []
    ensures Filter([y] + m, key, b) == Filter(u, key, b) + Filter([y] + v, key, b)
  {
    FilterCons(y, m, key, b);
    FilterCons(y, v, key, b);
  }

  /** Merging two runs, the left one sorted, is a stable permutation of the two runs side by side. */
  lemma MergedStable<T>(l: seq<T>, r: seq<T>, key: T -> int)
    requires SortedBy(l, key)
    ensures StablePermutation(l + r, Merged(l, r, key), key)
    ensures multiset(Merged(l, r, key)) == multiset(l + r)
  {
    forall b ensures Filter(l + r, key, b) == Filter(Merged(l, r, key), key, b) {
      MergedFilter(l, r, key, b);
      FilterAppend(l, r, key, b);
    }
    StablePermutationIsPermutation(l + r, Merged(l, r, key), key);
  }

  /** Merging a run with nothing leaves it as it is. */
  lemma MergedEmpty<T>(l: seq<T>, key: T -> int)
    ensures Merged(l, [], key) == l && Merged([], l, key) == l
  {
  }

  /**
   merge(arr, l, m, r): merges the runs arr[lo..mid] and arr[mid+1..hi]
   (inclusive bounds) through copies of both, leaving every other row in place.
   */
  method Merge<T>(a: array<T>, key: T -> int, lo: int, mid: int, hi: int)
    requires 0 <= lo <= mid + 1 <= hi + 1 <= a.Length
    modifies a
    ensures a[..] == old(a[..])[..lo] + Merged(old(a[..])[lo..mid + 1], old(a[..])[mid + 1..hi + 1], key) + old(a[..])[hi + 1..]
  {
    var len1, len2 := mid - lo + 1, hi - mid;
    var left := CopyRun(a, lo, len1);
    var right := CopyRun(a, mid + 1, len2);
    assert left == old(a[..])[lo..mid + 1] && right == old(a[..])[mid + 1..hi + 1];
    MergeBack(a, key, lo, left, right);
  }

  /**
   The three loops of merge: they write the merge of the copies `left` and
   `right` back into the array from position lo on.
   */
  method MergeBack<T>(a: array<T>, key: T -> int, lo: int, left: seq<T>, right: seq<T>)
    requires 0 <= lo && lo + |left| + |right| <= a.Length
    modifies a
    ensures a[..] == old(a[..])[..lo] + Merged(left, right, key) + old(a[..])[lo + |left| + |right|..]
  {
    var len1, len2 := |left|, |right|;
    ghost var whole := Merged(left, right, key);
    MergedFromIsMerged(left, right, key, 0, 0);
    assert left[0..] == left && right[0..] == right;
    var i, j, k, out := MergeHeads(a, key, lo, left, right);
    MergedFromDrained(left, right, key, i, j);
    ghost var hi1 := lo + len1 + len2;
    Regroup(out, left[i..], right[j..]);
    ghost var i1, j1 := i, j;
    i, k := CopyTail(a, left, i, k, lo, out, hi1);
    out := out + left[i1..];
    j, k := CopyTail(a, right, j, k, lo, out, hi1);
    out := out + right[j1..];
    assert whole == out;
    Assemble(a[..], old(a[..]), lo, whole);
  }

  /**
   The first loop of merge: while both runs have rows left, the smaller head
   (the left one on a tie) is written at k.
   */
  method MergeHeads<T>(a: array<T>, key: T -> int, lo: int, left: seq<T>, right: seq<T>)
    returns (i: int, j: int, k: int, ghost out: seq<T>)
    requires 0 <= lo && lo + |left| + |right| <= a.Length
    modifies a
    ensures 0 <= i <= |left| && 0 <= j <= |right| && (i == |left| || j == |right|)
    ensures |out| == i + j && k == lo + |out|
    ensures out + MergedFrom(left, right, key, i, j) == MergedFrom(left, right, key, 0, 0)
    ensures forall p :: lo <= p < k ==> a[p] == out[p - lo]
    ensures forall p :: 0 <= p < a.Length && !(lo <= p < lo + |left| + |right|) ==> a[p] == old(a[p])
  {
    var len1, len2 := |left|, |right|;
    ghost var whole := MergedFrom(left, right, key, 0, 0);
    out := [];
    i, j, k := 0, 0, lo;
    while i < len1 && j < len2
      invariant 0 <= i <= len1 && 0 <= j <= len2 && |out| == i + j && k == lo + |out|
      invariant whole == out + MergedFrom(left, right, key, i, j)
      invariant a[lo..k] == out
      invariant forall p :: 0 <= p < a.Length && !(lo <= p < lo + len1 + len2) ==> a[p] == old(a[p])
    {
      var takeLeft := key(left[i]) <= key(right[j]);
      var row := if takeLeft then left[i] else right[j];
      ghost var rest := if takeLeft then MergedFrom(left, right, key, i + 1, j) else MergedFrom(left, right, key, i, j + 1);
      assert MergedFrom(left, right, key, i, j) == [row] + rest;
      Regroup(out, [row], rest);
      a[k] := row;
      out := out + [row];
      if takeLeft {
        i := i + 1;
      } else {
        j := j + 1;
      }
      k := k + 1;
    }
    assert forall p :: lo <= p < k ==> a[p] == a[lo..k][p - lo];
  }

  /**
   The last two loops of merge: once one run is used up, the rest of the
   other, from row i on, is copied to positions k onwards.
   */
  method CopyTail<T>(a: array<T>, run: seq<T>, i0: int, k0: int, ghost lo: int, ghost out: seq<T>, ghost hi1: int)
    returns (i: int, k: int)
    requires 0 <= i0 <= |run| && 0 <= lo && k0 == lo + |out| && k0 + |run| - i0 <= hi1 <= a.Length
    requires forall p :: lo <= p < k0 ==> a[p] == out[p - lo]
    modifies a
    ensures i == |run| && k == k0 + |run| - i0
    ensures forall p :: lo <= p < k ==> a[p] == (out + run[i0..])[p - lo]
    ensures forall p :: 0 <= p < a.Length && !(k0 <= p < hi1) ==> a[p] == old(a[p])
  {
    i, k := i0, k0;
    while i < |run|
      invariant i0 <= i <= |run| && k == k0 + i - i0
      invariant forall p :: lo <= p < k0 ==> a[p] == out[p - lo]
      invariant forall p :: k0 <= p < k ==> a[p] == run[i0 + p - k0]
      invariant forall p :: 0 <= p < a.Length && !(k0 <= p < hi1) ==> a[p] == old(a[p])
    {
      a[k] := run[i];
      i := i + 1;
      k := k + 1;
    }
  }

  /** The copy loops of merge: the rows at [from, from + len), appended one by one. */
  method CopyRun<T>(a: array<T>, from: int, len: int) returns (run: seq<T>)
    requires 0 <= from && 0 <= len && from + len <= a.Length
    ensures run == a[from..from + len]
  {
    run := [];
    var i := 0;
    while i < len
      invariant 0 <= i <= len && run == a[from..from + i]
    {
      run := run + [a[from + i]];
      i := i + 1;
    }
  }

  /**
   The merge loops' view of Merged: what is still to be written once i rows
   of l and j rows of r have been taken.
   */
  ghost function MergedFrom<T>(l: seq<T>, r: seq<T>, key: T -> int, i: nat, j: nat): seq<T>
    requires i <= |l| && j <= |r|
    decreases |l| - i + |r| - j
  {
    if i == |l| && j == |r| then []
    else if j == |r| || (i < |l| && key(l[i]) <= key(r[j])) then [l[i]] + MergedFrom(l, r, key, i + 1, j)
    else [r[j]] + MergedFrom(l, r, key, i, j + 1)
  }

  lemma {:induction false} MergedFromIsMerged<T>(l: seq<T>, r: seq<T>, key: T -> int, i: nat, j: nat)
    requires i <= |l| && j <= |r|
    ensures MergedFrom(l, r, key, i, j) == Merged(l[i..], r[j..], key)
    decreases |l| - i + |r| - j
  {
    if i == |l| && j == |r| {
      assert l[i..] == [];
      MergedEmpty(r[j..], key);
    } else {
      MergedStep(l, r, key, i, j);
      if j == |r| || (i < |l| && key(l[i]) <= key(r[j])) {
        MergedFromIsMerged(l, r, key, i + 1, j);
      } else {
        MergedFromIsMerged(l, r, key, i, j + 1);
      }
    }
  }

  /** Once one run is used up, what remains is the rest of the other. */
  lemma {:induction false} MergedFromDrained<T>(l: seq<T>, r: seq<T>, key: T -> int, i: nat, j: nat)
    requires i <= |l| && j <= |r| && (i == |l| || j == |r|)
    ensures MergedFrom(l, r, key, i, j) == l[i..] + r[j..]
    decreases |l| - i + |r| - j
  {
    if i == |l| && j == |r| {
    } else if i == |l| {
      MergedFromDrained(l, r, key, i, j + 1);
      assert r[j..] == [r[j]] + r[j + 1..];
    } else {
      MergedFromDrained(l, r, key, i + 1, j);
      assert l[i..] == [l[i]] + l[i + 1..];
    }
  }

  lemma Regroup<T>(out: seq<T>, x: seq<T>, rest: seq<T>)
    ensures out + (x + rest) == (out + x) + rest
  {
  }

  /** One step of the merge loops, read off the remaining parts of both runs. */
  lemma MergedStep<T>(l: seq<T>, r: seq<T>, key: T -> int, i: nat, j: nat)
    requires i <= |l| && j <= |r| && (i < |l| || j < |r|)
    ensures Merged(l[i..], r[j..], key) ==
      if j == |r| || (i < |l| && key(l[i]) <= key(r[j])) then [l[i]] + Merged(l[i + 1..], r[j..], key)
      else [r[j]] + Merged(l[i..], r[j + 1..], key)
  {
    if i < |l| {
      assert l[i..][1..] == l[i + 1..];
    }
    if j < |r| {
      assert r[j..][1..] == r[j + 1..];
    }
    if j == |r| {
      assert r[j..] == [] && l[i..] == [l[i]] + l[i + 1..];
      MergedEmpty(l[i..], key);
      MergedEmpty(l[i + 1..], key);
    } else if i == |l| {
      assert l[i..] == [] && r[j..] == [r[j]] + r[j + 1..];
      MergedEmpty(r[j..], key);
      MergedEmpty(r[j + 1..], key);
    }
  }

  /**
   The rows at [lo, hi) are sorted within each block of w positions: rows i
   and j of the same block, i / w == j / w, are in key order.
   */
  ghost predicate RunsSorted<T>(s: seq<T>, key: T -> int, w: int, lo: int, hi: int) {
    w > 0 && 0 <= lo <= hi <= |s| &&
    forall i, j :: lo <= i < j < hi && i / w == j / w ==> key(s[i]) <= key(s[j])
  }

  /** Position i lies in block b of width w exactly when b * w <= i < b * w + w. */
  lemma InBlock(i: int, w: int, b: int)
    requires w > 0 && b * w <= i < b * w + w
    ensures i / w == b
  {
    DivModUnique(i, w, b, i - b * w);
  }

  /** A position before block b lies in an earlier block. */
  lemma BeforeBlock(i: int, w: int, b: int)
    requires w > 0 && 0 <= i < b * w
    ensures i / w < b
  {
    if i / w >= b {
      MulMono(b, i / w, w);
    }
  }

  /** Once a single block covers all n rows, block-sorted means sorted. */
  lemma RunsSortedWhole<T>(s: seq<T>, key: T -> int, w: int)
    requires RunsSorted(s, key, w, 0, |s|) && |s| <= w
    ensures SortedBy(s, key)
  {
    forall i, j | 0 <= i < j < |s|
      ensures key(s[i]) <= key(s[j])
    {
      InBlock(i, w, 0);
      InBlock(j, w, 0);
    }
  }

  /**
   Sorting the rows of block b (those from start = b * w up to end1) leaves the
   blocks before it sorted and makes the rows up to end1 block-sorted.
   */
  lemma RunsSortedExtend<T>(s: seq<T>, m: seq<T>, key: T -> int, w: int, b: nat, end1: int)
    requires RunsSorted(s, key, w, 0, b * w) && b * w <= end1 <= b * w + w && end1 <= |s|
    requires |m| == end1 - b * w && SortedBy(m, key)
    ensures RunsSorted(s[..b * w] + m + s[end1..], key, w, 0, end1)
  {
    var start := b * w;
    var c := s[..start] + m + s[end1..];
    forall i, j | 0 <= i < j < end1 && i / w == j / w
      ensures key(c[i]) <= key(c[j])
    {
      if j < start {
        assert c[i] == s[i] && c[j] == s[j];
      } else if i < start {
        BeforeBlock(i, w, b);
        InBlock(j, w, b);
      } else {
        assert c[i] == m[i - start] && c[j] == m[j - start];
      }
    }
  }

  /**
   One round of the runs loop, on values: the rows of block b up to end1 are
   replaced by their insertion-sorted order. The array stays block-sorted up
   to end1, a stable permutation of the input, and unchanged after end1.
   */
  lemma SortRunStep<T>(s0: seq<T>, prev: seq<T>, cur: seq<T>, key: T -> int, w: int, b: nat, end1: int)
    requires RunsSorted(prev, key, w, 0, b * w) && b * w < end1 <= b * w + w && end1 <= |prev|
    requires StablePermutation(s0, prev, key)
    requires cur == prev[..b * w] + InsertionSorted(prev[b * w..end1], key) + prev[end1..]
    ensures RunsSorted(cur, key, w, 0, end1)
    ensures StablePermutation(s0, cur, key)
    ensures |cur| == |prev| && forall p :: end1 <= p < |cur| ==> cur[p] == prev[p]
  {
    var m := InsertionSorted(prev[b * w..end1], key);
    InsertionSortedSorted(prev[b * w..end1], key);
    InsertionSortedStable(prev[b * w..end1], key);
    StableReplace(prev, b * w, end1, m, key);
    StableTrans(s0, prev, cur, key);
    RunsSortedExtend(prev, m, key, w, b, end1);
  }

  /**
   Where the run loop stands before `start`: the rows before it are sorted in
   blocks of w, the rows from it on are those of s0, and the whole is a stable
   permutation of s0.
   */
  ghost predicate RunsDone<T>(s0: seq<T>, s: seq<T>, key: T -> int, w: int, start: int) {
    |s| == |s0| && 0 <= start
    && RunsSorted(s, key, w, 0, if start < |s| then start else |s|)
    && (forall p :: start <= p < |s| ==> s[p] == s0[p])
    && StablePermutation(s0, s, key)
  }

  /**
   The loop `for start in range(0, n, min_run)`: each block of min_run rows
   is sorted by insertion. Afterwards the array is block-sorted with blocks of
   min_run rows, and a stable permutation of what it held.
   */
  method SortRuns<T>(a: array<T>, key: T -> int, minRun: int)
    requires minRun > 0
    modifies a
    ensures RunsSorted(a[..], key, minRun, 0, a.Length)
    ensures StablePermutation(old(a[..]), a[..], key) && multiset(a[..]) == multiset(old(a[..]))
  {
    var n := a.Length;
    var start := 0;
    ghost var b: nat := 0;
    while start < n
      invariant start == b * minRun
      invariant RunsDone(old(a[..]), a[..], key, minRun, start)
    {
      SortRun(a, key, minRun, start, b, old(a[..]));
      MulSucc(b, minRun);
      start, b := start + minRun, b + 1;
    }
    StablePermutationIsPermutation(old(a[..]), a[..], key);
  }

  /** One round of the run loop: insertion_sort on the block of min_run rows at start. */
  method SortRun<T>(a: array<T>, key: T -> int, minRun: int, start: int, ghost b: nat, ghost s0: seq<T>)
    requires minRun > 0 && 0 <= start < a.Length && start == b * minRun
    requires RunsDone(s0, a[..], key, minRun, start)
    modifies a
    ensures RunsDone(s0, a[..], key, minRun, start + minRun)
  {
    var end := if start + minRun - 1 < a.Length - 1 then start + minRun - 1 else a.Length - 1;
    ghost var prev := a[..];
    InsertionSort(a, key, start, end);
    SortRunStep(s0, prev, a[..], key, minRun, b, end + 1);
  }

  /**
   Where a merge pass over runs of w rows stands once the rows before lo are
   done: those are sorted in blocks of 2 * w, the rest still in blocks of w.
   */
  ghost predicate PassDone<T>(s: seq<T>, key: T -> int, w: int, lo: int) {
    if lo < |s| then RunsSorted(s, key, 2 * w, 0, lo) && RunsSorted(s, key, w, lo, |s|)
    else RunsSorted(s, key, 2 * w, 0, |s|)
  }

  /** The rows of block c, from c * w up to e, are sorted. */
  lemma BlockSorted<T>(s: seq<T>, key: T -> int, w: int, lo: int, c: nat, e: int)
    requires RunsSorted(s, key, w, lo, |s|) && lo <= c * w <= e <= c * w + w && e <= |s|
    ensures SortedBy(s[c * w..e], key)
  {
    forall i, j | 0 <= i < j < e - c * w
      ensures key(s[c * w..e][i]) <= key(s[c * w..e][j])
    {
      InBlock(c * w + i, w, c);
      InBlock(c * w + j, w, c);
    }
  }

  /**
   One merge of a pass, on values: block b of width 2 * w starts at lo; its
   first half lo..m-1 and its second half m..r-1 are sorted runs, and are
   replaced by their merge. Blocks of width 2 * w are sorted up to r, blocks
   of width w from r on, and the array is a stable permutation of s0.
   */
  lemma MergeStep<T>(prev: seq<T>, cur: seq<T>, key: T -> int, w: int, b: nat, lo: int, m: int, r: int)
    requires w > 0 && lo == b * (2 * w) && m == lo + w && m < r <= m + w && r <= |prev|
    requires r == m + w || r == |prev|
    requires PassDone(prev, key, w, lo)
    requires cur == prev[..lo] + Merged(prev[lo..m], prev[m..r], key) + prev[r..]
    ensures PassDone(cur, key, w, lo + 2 * w)
    ensures StablePermutation(prev, cur, key)
  {
    var merged := Merged(prev[lo..m], prev[m..r], key);
    MergedPermutation(prev[lo..m], prev[m..r], key);
    MergeBlockSorted(prev, key, w, b, lo, m, r);
    MergeBlockStable(prev, key, lo, m, r);
    RunsSortedExtend(prev, merged, key, 2 * w, b, r);
    SpliceTail(prev, lo, r, merged);
    RunsSortedFrame(prev, cur, key, w, lo, r);
  }

  /** The two halves of block b are sorted runs, and so is their merge. */
  lemma MergeBlockSorted<T>(s: seq<T>, key: T -> int, w: int, b: nat, lo: int, m: int, r: int)
    requires w > 0 && lo == b * (2 * w) && m == lo + w && m < r <= m + w && r <= |s|
    requires RunsSorted(s, key, w, lo, |s|)
    ensures SortedBy(s[lo..m], key) && SortedBy(s[m..r], key)
    ensures SortedBy(Merged(s[lo..m], s[m..r], key), key)
  {
    assert lo == (2 * b) * w;
    assert m == (2 * b + 1) * w;
    BlockSorted(s, key, w, lo, 2 * b, m);
    BlockSorted(s, key, w, lo, 2 * b + 1, r);
    MergedSorted(s[lo..m], s[m..r], key);
  }

  /** Replacing two neighbouring runs, the first sorted, by their merge is a stable permutation. */
  lemma MergeBlockStable<T>(s: seq<T>, key: T -> int, lo: int, m: int, r: int)
    requires 0 <= lo <= m <= r <= |s| && SortedBy(s[lo..m], key)
    ensures StablePermutation(s, s[..lo] + Merged(s[lo..m], s[m..r], key) + s[r..], key)
  {
    MergedStable(s[lo..m], s[m..r], key);
    assert s[lo..m] + s[m..r] == s[lo..r];
    StableReplace(s, lo, r, Merged(s[lo..m], s[m..r], key), key);
  }

  /** Replacing the rows at lo..hi-1 by as many rows leaves those from hi on in place. */
  lemma SpliceTail<T>(x: seq<T>, lo: int, hi: int, m: seq<T>)
    requires 0 <= lo <= hi <= |x| && |m| == hi - lo
    ensures |x[..lo] + m + x[hi..]| == |x|
    ensures forall p :: hi <= p < |x| ==> (x[..lo] + m + x[hi..])[p] == x[p]
  {
  }

  /** Block order from r on carries over to an array that agrees from r on. */
  lemma RunsSortedFrame<T>(s: seq<T>, t: seq<T>, key: T -> int, w: int, lo: int, r: int)
    requires RunsSorted(s, key, w, lo, |s|) && lo <= r <= |s| == |t|
    requires forall p :: r <= p < |t| ==> t[p] == s[p]
    ensures RunsSorted(t, key, w, r, |t|)
  {
  }

  /**
   The last block of a pass when it holds no more than w rows (mid == right):
   nothing is merged, and the rows, already one sorted run, make the array
   sorted in blocks of 2 * w up to its end.
   */
  lemma MergeSkip<T>(s: seq<T>, key: T -> int, w: int, b: nat, lo: int)
    requires w > 0 && lo == b * (2 * w) && lo < |s| <= lo + w
    requires PassDone(s, key, w, lo)
    ensures PassDone(s, key, w, lo + 2 * w)
  {
    assert lo == (2 * b) * w;
    BlockSorted(s, key, w, lo, 2 * b, |s|);
    assert s[..lo] + s[lo..|s|] + s[|s|..] == s;
    RunsSortedExtend(s, s[lo..|s|], key, 2 * w, b, |s|);
  }

  /**
   One round of the `while size < n` loop: `for left in range(0, n, size * 2)`
   merges each pair of neighbouring runs of size rows. Runs of size rows
   become runs of 2 * size rows, and the rows stay a stable permutation.
   */
  method MergePass<T>(a: array<T>, key: T -> int, size: int)
    requires size > 0 && RunsSorted(a[..], key, size, 0, a.Length)
    modifies a
    ensures RunsSorted(a[..], key, 2 * size, 0, a.Length)
    ensures StablePermutation(old(a[..]), a[..], key)
  {
    var n := a.Length;
    var left := 0;
    ghost var b: nat := 0;
    while left < n
      invariant 0 <= left == b * (2 * size)
      invariant PassDone(a[..], key, size, left)
      invariant StablePermutation(old(a[..]), a[..], key)
    {
      ghost var prev := a[..];
      MergeBlock(a, key, size, left, b);
      StableTrans(old(a[..]), prev, a[..], key);
      MulSucc(b, 2 * size);
      left, b := left + size * 2, b + 1;
    }
  }

  /**
   The body of the pass's inner loop for one value of left: the runs at
   left..mid and mid+1..right are merged when there are two of them.
   Afterwards the rows before left + 2 * size are sorted in blocks of
   2 * size, the rows from there on still in blocks of size.
   */
  method MergeBlock<T>(a: array<T>, key: T -> int, size: int, left: int, ghost b: nat)
    requires size > 0 && 0 <= left < a.Length && left == b * (2 * size)
    requires PassDone(a[..], key, size, left)
    modifies a
    ensures PassDone(a[..], key, size, left + 2 * size)
    ensures StablePermutation(old(a[..]), a[..], key)
  {
    var n := a.Length;
    var mid := if n - 1 < left + size - 1 then n - 1 else left + size - 1;
    var right := if n - 1 < left + 2 * size - 1 then n - 1 else left + 2 * size - 1;
    if mid < right {
      ghost var prev := a[..];
      Merge(a, key, left, mid, right);
      MergeStep(prev, a[..], key, size, b, left, mid + 1, right + 1);
    } else {
      MergeSkip(a[..], key, size, b, left);
    }
  }

  /**
   timsort(arr): sorts the whole array in place. calc_min_run(0) is 0, and
   `range(0, 0, 0)` raises ValueError, so an empty array is an error and
   stays as it was; any other array ends sorted by key and a stable
   permutation of what it held.
   */
  method TimSort<T>(a: array<T>, key: T -> int) returns (o: Outcome)
    modifies a
    ensures o == ValueError <==> a.Length == 0
    ensures SortedBy(a[..], key)
    ensures StablePermutation(old(a[..]), a[..], key) && multiset(a[..]) == multiset(old(a[..]))
  {
    var n := a.Length;
    var minRun, _ := CalcMinRun(n);
    if minRun == 0 {
      return ValueError;
    }
    SortRuns(a, key, minRun);
    var size := minRun;
    while size < n
      invariant size > 0 && RunsSorted(a[..], key, size, 0, n)
      invariant StablePermutation(old(a[..]), a[..], key)
    {
      ghost var prev := a[..];
      MergePass(a, key, size);
      StableTrans(old(a[..]), prev, a[..], key);
      size := size * 2;
    }
    RunsSortedWhole(a[..], key, size);
    StablePermutationIsPermutation(old(a[..]), a[..], key);
    return Done;
  }
}

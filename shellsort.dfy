/**
 shell_sort of the benchmark (benchmark.py lines 149-175). It first lists
 Sedgewick's increments 1, 5, 19, 41, 109, ... up to the number of rows n,
 largest first, and then runs one gap insertion pass per increment: each row
 in turn moves left in steps of gap past the rows of larger key. The last
 increment is 1, a plain insertion sort, which leaves the rows sorted.
 */
module ShellSort {
  import opened Ordering
  import opened Arith

  /** Sedgewick's i-th increment, as the generating loop computes it. */
  function Gap(i: nat): int {
    if i % 2 == 0 then 9 * (Pow2(i) - Pow2(i / 2)) + 1
    else 8 * Pow2(i) - 6 * Pow2((i + 1) / 2) + 1
  }

  /** The first increments are 1, 5, 19, 41 and 109. */
  lemma GapValues()
    ensures Gap(0) == 1 && Gap(1) == 5 && Gap(2) == 19 && Gap(3) == 41 && Gap(4) == 109
  {
    assert Pow2(1) == 2 && Pow2(2) == 4 && Pow2(3) == 8 && Pow2(4) == 16;
  }

  /** Halving 2k, 2k + 1 and 2k + 2, and their parities. */
  lemma Halves(k: nat)
    ensures (2 * k) % 2 == 0 && (2 * k) / 2 == k
    ensures (2 * k + 1) % 2 == 1 && (2 * k + 2) / 2 == k + 1
    ensures (2 * k + 2) % 2 == 0
  {
    DivModUnique(2 * k, 2, k, 0);
    DivModUnique(2 * k + 1, 2, k, 1);
    DivModUnique(2 * k + 2, 2, k + 1, 0);
  }

  lemma Pow2Steps(k: nat)
    ensures Pow2(2 * k + 1) == 2 * Pow2(2 * k) && Pow2(2 * k + 2) == 4 * Pow2(2 * k)
    ensures Pow2(k + 1) == 2 * Pow2(k)
  {
  }

  /** The even branch of the generating loop, once i / 2 is known. */
  lemma GapEvenAt(i: nat, h: nat)
    requires i % 2 == 0 && i / 2 == h
    ensures Gap(i) == 9 * (Pow2(i) - Pow2(h)) + 1
  {
  }

  /** The odd branch of the generating loop, once (i + 1) / 2 is known. */
  lemma GapOddAt(i: nat, h: nat)
    requires i % 2 == 1 && (i + 1) / 2 == h
    ensures Gap(i) == 8 * Pow2(i) - 6 * Pow2(h) + 1
  {
  }

  /**
   Three consecutive increments from an even index 2k, in terms of p = 2^k
   and q = 2^(2k): 9(q - p) + 1, 16q - 12p + 1 and 36q - 18p + 1.
   */
  lemma GapFromEven(k: nat, p: int, q: int)
    requires p == Pow2(k) && q == Pow2(2 * k)
    ensures Gap(2 * k) == 9 * (q - p) + 1
    ensures Gap(2 * k + 1) == 16 * q - 12 * p + 1
    ensures Gap(2 * k + 2) == 36 * q - 18 * p + 1
  {
    Halves(k);
    Pow2Steps(k);
    GapEvenAt(2 * k, k);
    GapOddAt(2 * k + 1, k + 1);
    GapEvenAt(2 * k + 2, k + 1);
  }

  /** From an even index 2k, the next two increments are each larger than the one before. */
  lemma GapRise(k: nat)
    ensures Gap(2 * k) < Gap(2 * k + 1) < Gap(2 * k + 2)
  {
    Pow2Mono(k, 2 * k);
    GapFromEven(k, Pow2(k), Pow2(2 * k));
  }

  /** Each increment is larger than the one before it. */
  lemma GapIncreasing(i: nat)
    ensures Gap(i) < Gap(i + 1)
  {
    var k := i / 2;
    GapRise(k);
    assert i == 2 * k || i == 2 * k + 1;
  }

  /** A later increment is a larger one. */
  lemma {:induction false} GapStrict(i: nat, j: nat)
    requires i < j
    ensures Gap(i) < Gap(j)
    decreases j - i
  {
    GapIncreasing(j - 1);
    if i < j - 1 {
      GapStrict(i, j - 1);
    }
  }

  /** Increments grow with their index: i < j exactly when Gap(i) < Gap(j). */
  lemma GapMonotone(i: nat, j: nat)
    ensures i < j <==> Gap(i) < Gap(j)
  {
    if i < j {
      GapStrict(i, j);
    } else if j < i {
      GapStrict(j, i);
    }
  }

  /** The i-th increment is at least i + 1, so the generating loop ends. */
  lemma {:induction false} GapAbove(i: nat)
    ensures Gap(i) >= i + 1
  {
    if i == 0 {
      assert Gap(0) == 1;
    } else {
      GapAbove(i - 1);
      GapIncreasing(i - 1);
    }
  }

  /**
   The gap list of shell_sort for n rows: every increment up to n, largest
   first. It is strictly decreasing, holds exactly the increments not above
   n, and ends with 1 whenever there is a row.
   */
  method SedgewickGaps(n: nat) returns (gaps: seq<int>)
    ensures forall k :: 0 <= k < |gaps| ==> gaps[k] == Gap(|gaps| - 1 - k)
    ensures forall i: nat :: Gap(i) <= n <==> i < |gaps|
    ensures forall j, k :: 0 <= j < k < |gaps| ==> gaps[j] > gaps[k]
    ensures forall k :: 0 <= k < |gaps| ==> 1 <= gaps[k] <= n
    ensures n >= 1 <==> |gaps| > 0
    ensures n >= 1 ==> gaps[|gaps| - 1] == 1
  {
    var ascending: seq<int> := [];
    var i: nat := 0;
    while true
      invariant i <= n && |ascending| == i
      invariant forall k :: 0 <= k < i ==> ascending[k] == Gap(k) && Gap(k) <= n
      decreases n - i
    {
      var gap := Gap(i);
      if gap > n {
        break;
      }
      GapAbove(i);
      ascending := ascending + [gap];
      i := i + 1;
    }
    gaps := seq(|ascending|, k requires 0 <= k < |ascending| => ascending[|ascending| - 1 - k]);
    GapsReversed(n, ascending, gaps);
  }

  /**
   The increments Gap(0) .. Gap(m - 1) that do not exceed n, where Gap(m)
   does, taken largest first, are exactly the increments not above n, in
   strictly decreasing order, and end with 1.
   */
  lemma GapsReversed(n: nat, ascending: seq<int>, gaps: seq<int>)
    requires forall k :: 0 <= k < |ascending| ==> ascending[k] == Gap(k) && Gap(k) <= n
    requires Gap(|ascending|) > n
    requires |gaps| == |ascending| && forall k :: 0 <= k < |gaps| ==> gaps[k] == ascending[|gaps| - 1 - k]
    ensures forall k :: 0 <= k < |gaps| ==> gaps[k] == Gap(|gaps| - 1 - k)
    ensures forall i: nat :: Gap(i) <= n <==> i < |gaps|
    ensures forall j, k :: 0 <= j < k < |gaps| ==> gaps[j] > gaps[k]
    ensures forall k :: 0 <= k < |gaps| ==> 1 <= gaps[k] <= n
    ensures n >= 1 <==> |gaps| > 0
    ensures n >= 1 ==> gaps[|gaps| - 1] == 1
  {
    var m := |ascending|;
    forall j: nat ensures Gap(j) <= n <==> j < m {
      GapMonotone(j, m);
      if j < m {
        assert ascending[j] == Gap(j);
      }
    }
    forall j, k | 0 <= j < k < m ensures gaps[j] > gaps[k] {
      GapMonotone(m - 1 - k, m - 1 - j);
    }
    forall k | 0 <= k < m ensures 1 <= gaps[k] {
      GapMonotone(0, m - 1 - k);
    }
    assert Gap(0) == 1;
  }

  /** Rows p and q of s are in key order. */
  ghost predicate InOrder<T>(s: seq<T>, key: T -> int, p: int, q: int) {
    0 <= p < |s| && 0 <= q < |s| && key(s[p]) <= key(s[q])
  }

  /**
   The rows before hi are sorted along every chain of step gap: each row is
   no larger in key than the row gap places after it.
   */
  ghost predicate GapSorted<T>(s: seq<T>, key: T -> int, gap: int, hi: int) {
    gap > 0 && hi <= |s| && forall p, q :: 0 <= p && q == p + gap && q < hi ==> InOrder(s, key, p, q)
  }

  /** Sorted along chains of step 1 is sorted. */
  lemma GapOneSorted<T>(s: seq<T>, key: T -> int)
    requires GapSorted(s, key, 1, |s|)
    ensures SortedBy(s, key)
  {
    forall i, j | 0 <= i < j < |s| ensures key(s[i]) <= key(s[j]) {
      ChainOrdered(s, key, i, j);
    }
  }

  lemma {:induction false} ChainOrdered<T>(s: seq<T>, key: T -> int, i: int, j: int)
    requires GapSorted(s, key, 1, |s|) && 0 <= i <= j < |s|
    ensures key(s[i]) <= key(s[j])
    decreases j - i
  {
    if i < j {
      ChainOrdered(s, key, i, j - 1);
      assert InOrder(s, key, j - 1, j);
    }
  }

  /**
   The inner while loop of a gap pass on values: with the row temp taken out
   and the hole at j, the row gap places before the hole moves up into it
   while its key is larger than temp's; then temp fills the hole.
   */
  function Shifted<T>(s: seq<T>, key: T -> int, gap: int, j: int, temp: T): (r: seq<T>)
    requires gap >= 1 && 0 <= j < |s|
    ensures |r| == |s|
    decreases j
  {
    if j >= gap && key(s[j - gap]) > key(temp) then Shifted(s[j := s[j - gap]], key, gap, j - gap, temp)
    else s[j := temp]
  }

  /** The inner loop moves rows and loses none: the rows are those of s with temp in the hole. */
  lemma {:induction false} ShiftedPermutation<T>(s: seq<T>, key: T -> int, gap: int, j: int, temp: T)
    requires gap >= 1 && 0 <= j < |s|
    ensures multiset(Shifted(s, key, gap, j, temp)) == multiset(s[j := temp])
    decreases j
  {
    if j >= gap && key(s[j - gap]) > key(temp) {
      var t := s[j := s[j - gap]];
      ShiftedPermutation(t, key, gap, j - gap, temp);
      assert multiset(t[j - gap := temp]) == multiset(s[j := temp]);
    }
  }

  /** The inner loop writes only at the hole and below it. */
  lemma {:induction false} ShiftedFrame<T>(s: seq<T>, key: T -> int, gap: int, j: int, temp: T)
    requires gap >= 1 && 0 <= j < |s|
    ensures forall p :: j < p < |s| ==> Shifted(s, key, gap, j, temp)[p] == s[p]
    decreases j
  {
    if j >= gap && key(s[j - gap]) > key(temp) {
      ShiftedFrame(s[j := s[j - gap]], key, gap, j - gap, temp);
    }
  }

  /**
   The inner loop's state, with the row temp taken from i and the hole at j:
   apart from the hole the rows up to i are sorted along the chains of step
   gap, the row after the hole is larger in key than temp, and the rows on
   either side of the hole are in order.
   */
  ghost predicate Hole<T>(s: seq<T>, key: T -> int, gap: int, i: int, j: int, temp: T) {
    gap >= 1 && 0 <= j <= i < |s| && (j < i ==> j + gap <= i) &&
    (forall p, q :: 0 <= p && q == p + gap && q <= i && p != j && q != j ==> InOrder(s, key, p, q)) &&
    (j < i ==> key(s[j + gap]) > key(temp)) &&
    (j < i && j >= gap ==> key(s[j - gap]) <= key(s[j + gap]))
  }

  /** Taking the row at i out of rows sorted along chains before i leaves the hole at i. */
  lemma HoleStart<T>(s: seq<T>, key: T -> int, gap: int, i: int)
    requires 1 <= gap <= i < |s| && GapSorted(s, key, gap, i)
    ensures Hole(s, key, gap, i, i, s[i])
  {
    forall p, q | 0 <= p && q == p + gap && q <= i && p != i && q != i
      ensures InOrder(s, key, p, q)
    {
      assert q < i;
    }
  }

  /**
   One shift `arr[j] = arr[j - gap]`, taken when the row before the hole is
   larger in key than temp, moves the hole down one step of gap.
   */
  lemma HoleStep<T>(s: seq<T>, key: T -> int, gap: int, i: int, j: int, temp: T)
    requires Hole(s, key, gap, i, j, temp) && j >= gap && key(s[j - gap]) > key(temp)
    ensures Hole(s[j := s[j - gap]], key, gap, i, j - gap, temp)
  {
    var t := s[j := s[j - gap]];
    forall p, q | 0 <= p && q == p + gap && q <= i && p != j - gap && q != j - gap
      ensures InOrder(t, key, p, q)
    {
      if p == j {
        assert t[p] == s[j - gap] && t[q] == s[j + gap];
      } else {
        assert InOrder(s, key, p, q);
      }
    }
    if j - gap >= gap {
      assert InOrder(s, key, j - gap - gap, j - gap);
    }
  }

  /**
   When the loop stops, because the hole is within gap of the start or the
   row before it is not larger in key than temp, temp fills the hole and the
   rows up to i are sorted along the chains of step gap.
   */
  lemma HolePlace<T>(s: seq<T>, key: T -> int, gap: int, i: int, j: int, temp: T)
    requires Hole(s, key, gap, i, j, temp) && (j < gap || key(s[j - gap]) <= key(temp))
    ensures GapSorted(s[j := temp], key, gap, i + 1)
  {
    var t := s[j := temp];
    forall p, q | 0 <= p && q == p + gap && q < i + 1
      ensures InOrder(t, key, p, q)
    {
      if p != j && q != j {
        assert InOrder(s, key, p, q);
      }
    }
  }

  /** The inner loop started from a hole leaves the rows up to i sorted along the chains of step gap. */
  lemma {:induction false} ShiftedSorted<T>(s: seq<T>, key: T -> int, gap: int, i: int, j: int, temp: T)
    requires Hole(s, key, gap, i, j, temp)
    ensures GapSorted(Shifted(s, key, gap, j, temp), key, gap, i + 1)
    decreases j
  {
    if j >= gap && key(s[j - gap]) > key(temp) {
      HoleStep(s, key, gap, i, j, temp);
      ShiftedSorted(s[j := s[j - gap]], key, gap, i, j - gap, temp);
    } else {
      HolePlace(s, key, gap, i, j, temp);
    }
  }

  /**
   One round of the `for i in range(gap, n)` loop: the row at i moves left in
   steps of gap past the rows of larger key, as Shifted describes.
   */
  method GapInsert<T>(a: array<T>, key: T -> int, gap: int, i: int)
    requires 1 <= gap <= i < a.Length
    modifies a
    ensures a[..] == Shifted(old(a[..]), key, gap, i, old(a[i]))
  {
    var temp := a[i];
    var j := i;
    while j >= gap && key(a[j - gap]) > key(temp)
      invariant 0 <= j <= i
      invariant Shifted(a[..], key, gap, j, temp) == Shifted(old(a[..]), key, gap, i, temp)
    {
      a[j] := a[j - gap];
      j := j - gap;
    }
    a[j] := temp;
  }

  /**
   One gap insertion pass (the body of `for gap in gaps`): afterwards the
   whole array is sorted along the chains of step gap, and it holds the rows
   it held.
   */
  method GapPass<T>(a: array<T>, key: T -> int, gap: int)
    requires 1 <= gap <= a.Length
    modifies a
    ensures GapSorted(a[..], key, gap, a.Length)
    ensures multiset(a[..]) == multiset(old(a[..]))
  {
    var n := a.Length;
    var i := gap;
    while i < n
      invariant gap <= i <= n
      invariant GapSorted(a[..], key, gap, i)
      invariant multiset(a[..]) == multiset(old(a[..]))
    {
      ghost var s := a[..];
      HoleStart(s, key, gap, i);
      ShiftedSorted(s, key, gap, i, i, s[i]);
      ShiftedPermutation(s, key, gap, i, s[i]);
      assert s[i := s[i]] == s;
      GapInsert(a, key, gap, i);
      i := i + 1;
    }
  }

  /**
   shell_sort(arr): one gap pass per Sedgewick increment, largest first.
   The array ends sorted by key and holding the rows it held; an empty array
   is left as it was.
   */
  method ShellSort<T>(a: array<T>, key: T -> int)
    modifies a
    ensures SortedBy(a[..], key)
    ensures multiset(a[..]) == multiset(old(a[..]))
    ensures a.Length == 0 ==> a[..] == old(a[..])
  {
    var n := a.Length;
    var gaps := SedgewickGaps(n);
    var k := 0;
    while k < |gaps|
      invariant 0 <= k <= |gaps|
      invariant k > 0 ==> GapSorted(a[..], key, gaps[k - 1], n)
      invariant multiset(a[..]) == multiset(old(a[..]))
    {
      GapPass(a, key, gaps[k]);
      k := k + 1;
    }
    if n > 0 {
      GapOneSorted(a[..], key);
    }
  }
}


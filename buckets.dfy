/**
 The stable bucket placement that both counting sorts of the benchmark run:
 count the rows per bucket, turn the counts into end positions by a running
 sum, place the rows into an output buffer walking the input backwards, and
 copy the buffer back. A bucket index is given by a function `f` into
 [0, m); the result is the concatenation, bucket by bucket, of the rows of
 each bucket in their input order: Bucketed(s, f, m).
 */
module Buckets {
  import opened Ordering

  /** Buckets 0 .. m-1 of `s`, concatenated. */
  function Bucketed<T>(s: seq<T>, f: T -> int, m: nat): seq<T> {
    if m == 0 then [] else Bucketed(s, f, m - 1) + Filter(s, f, m - 1)
  }

  /** Every row of Bucketed(s, f, m) has a bucket index in [0, m). */
  lemma {:induction false} BucketedValues<T>(s: seq<T>, f: T -> int, m: nat)
    ensures forall i :: 0 <= i < |Bucketed(s, f, m)| ==> 0 <= f(Bucketed(s, f, m)[i]) < m
  {
    if m > 0 {
      BucketedValues(s, f, m - 1);
      FilterValues(s, f, m - 1);
    }
  }

  /** Where bucket `b` begins in Bucketed(s, f, m) for any m > b. */
  function Start<T>(s: seq<T>, f: T -> int, b: nat): nat {
    |Bucketed(s, f, b)|
  }

  /** Where bucket `b` ends: bucket `b` occupies [Start(b), End(b)). */
  function End<T>(s: seq<T>, f: T -> int, b: nat): nat {
    Start(s, f, b) + |Filter(s, f, b)|
  }

  predicate InBuckets<T>(s: seq<T>, f: T -> int, m: nat) {
    forall i :: 0 <= i < |s| ==> 0 <= f(s[i]) < m
  }

  /** Bucketing keeps, for every bucket value, the rows of that value in order. */
  lemma {:induction false} BucketedFilter<T>(s: seq<T>, f: T -> int, m: nat, b: int)
    ensures Filter(Bucketed(s, f, m), f, b) == if 0 <= b < m then Filter(s, f, b) else []
  {
    if m > 0 {
      BucketedFilterStep(s, f, m, b);
      BucketedFilter(s, f, m - 1, b);
    }
  }

  /** Adding bucket m-1 adds its rows to their own filter and nothing to any other. */
  lemma BucketedFilterStep<T>(s: seq<T>, f: T -> int, m: nat, b: int)
    requires m > 0
    ensures Filter(Bucketed(s, f, m), f, b)
      == Filter(Bucketed(s, f, m - 1), f, b) + (if b == m - 1 then Filter(s, f, b) else [])
  {
    FilterAppend(Bucketed(s, f, m - 1), Filter(s, f, m - 1), f, b);
    FilterFilter(s, f, b, m - 1);
  }

  /** When every bucket index lies in [0, m), bucketing is a stable permutation. */
  lemma BucketedStable<T>(s: seq<T>, f: T -> int, m: nat)
    requires InBuckets(s, f, m)
    ensures StablePermutation(s, Bucketed(s, f, m), f)
    ensures multiset(Bucketed(s, f, m)) == multiset(s)
    ensures |Bucketed(s, f, m)| == |s|
  {
    forall b ensures Filter(s, f, b) == Filter(Bucketed(s, f, m), f, b) {
      BucketedFilter(s, f, m, b);
      if !(0 <= b < m) {
        FilterNone(s, f, b);
      }
    }
    StablePermutationIsPermutation(s, Bucketed(s, f, m), f);
    assert |multiset(Bucketed(s, f, m))| == |multiset(s)|;
  }

  /**
   If `s` is sorted by `g`, Bucketed(s, f, m) is sorted by `f` first and, among
   rows of one bucket, by `g`: the property radix sort builds on.
   */
  lemma {:induction false} BucketedLex<T>(s: seq<T>, f: T -> int, m: nat, g: T -> int)
    requires SortedBy(s, g)
    ensures forall i, j :: 0 <= i < j < |Bucketed(s, f, m)| ==>
      var r := Bucketed(s, f, m);
      f(r[i]) < f(r[j]) || (f(r[i]) == f(r[j]) && g(r[i]) <= g(r[j]))
  {
    if m > 0 {
      BucketedLex(s, f, m - 1, g);
      FilterSorted(s, f, m - 1, g);
      BucketedValues(s, f, m - 1);
      FilterValues(s, f, m - 1);
    }
  }

  /** Bucketed(s, f, m) is in non-decreasing order of its bucket index. */
  lemma BucketedSorted<T>(s: seq<T>, f: T -> int, m: nat)
    ensures SortedBy(Bucketed(s, f, m), f)
  {
    var zero: T -> int := _ => 0;
    BucketedLex(s, f, m, zero);
  }

  lemma {:induction false} StartMono<T>(s: seq<T>, f: T -> int, b: nat, c: nat)
    requires b <= c
    ensures Start(s, f, b) <= Start(s, f, c)
    decreases c - b
  {
    if b < c {
      StartMono(s, f, b, c - 1);
    }
  }

  /** The `q`-th row of bucket `b` sits at Start(b) + q in the bucketed sequence. */
  lemma {:induction false} BucketedAt<T>(s: seq<T>, f: T -> int, m: nat, b: nat, q: nat)
    requires b < m && q < |Filter(s, f, b)|
    ensures Start(s, f, b) + q < |Bucketed(s, f, m)|
    ensures Bucketed(s, f, m)[Start(s, f, b) + q] == Filter(s, f, b)[q]
  {
    if b < m - 1 {
      BucketedAt(s, f, m - 1, b, q);
    }
  }

  /** Every position of Bucketed(s, f, m) belongs to some bucket below m. */
  lemma {:induction false} CoveringBucket<T>(s: seq<T>, f: T -> int, m: nat, p: nat) returns (b: nat)
    requires p < Start(s, f, m)
    ensures b < m && Start(s, f, b) <= p < Start(s, f, b + 1)
  {
    if p < Start(s, f, m - 1) {
      b := CoveringBucket(s, f, m - 1, p);
    } else {
      b := m - 1;
    }
  }

  /**
   Rearranges `a` into Bucketed(old(a[..]), f, m): benchmark.py lines 49-72
   (and, with f(x) = key(x) - min, lines 186-203). The source's four loops
   are the four steps below; its local lists `count` and `output` are
   sequence values updated one element at a time.
   */
  method BucketPlace<T>(a: array<T>, f: T -> int, m: nat)
    requires InBuckets(a[..], f, m)
    modifies a
    ensures a[..] == Bucketed(old(a[..]), f, m)
  {
    var count := CountBuckets(a[..], f, m);
    count := RunningSum(a[..], f, count);
    var output := PlaceBackward(a[..], f, count);
    CopyBack(a, output);
  }

  /** How many rows of bucket `b` come before position `k` of `s`. */
  function Rank<T>(s: seq<T>, f: T -> int, b: int, k: nat): (r: nat)
    requires k <= |s|
    ensures r <= k
  {
    if k == 0 then 0 else Rank(s, f, b, k - 1) + (if f(s[k - 1]) == b then 1 else 0)
  }

  /** Rank counts exactly the rows FilterTo keeps. */
  lemma {:induction false} RankFilter<T>(s: seq<T>, f: T -> int, b: int, k: nat)
    requires k <= |s|
    ensures Rank(s, f, b, k) == |FilterTo(s, f, b, k)|
  {
    if k > 0 {
      RankFilter(s, f, b, k - 1);
    }
  }

  lemma RankAll<T>(s: seq<T>, f: T -> int)
    ensures forall b :: Rank(s, f, b, |s|) == |Filter(s, f, b)|
  {
    forall b ensures Rank(s, f, b, |s|) == |Filter(s, f, b)| {
      RankFilter(s, f, b, |s|);
    }
  }

  /** The row at position k is the Rank(k)-th row of its own bucket. */
  lemma RankAt<T>(s: seq<T>, f: T -> int, k: nat)
    requires k < |s|
    ensures Rank(s, f, f(s[k]), k) < |Filter(s, f, f(s[k]))|
    ensures Filter(s, f, f(s[k]))[Rank(s, f, f(s[k]), k)] == s[k]
  {
    var b := f(s[k]);
    RankFilter(s, f, b, k);
    assert FilterTo(s, f, b, k + 1) == FilterTo(s, f, b, k) + [s[k]];
    FilterToPrefix(s, f, b, k + 1, |s|);
  }

  /** FilterTo(s, f, b, k) is a prefix of FilterTo(s, f, b, j) for k <= j. */
  lemma {:induction false} FilterToPrefix<T>(s: seq<T>, f: T -> int, b: int, k: nat, j: nat)
    requires k <= j <= |s|
    ensures |FilterTo(s, f, b, k)| <= |FilterTo(s, f, b, j)|
    ensures forall i :: 0 <= i < |FilterTo(s, f, b, k)| ==> FilterTo(s, f, b, j)[i] == FilterTo(s, f, b, k)[i]
    decreases j - k
  {
    if k < j {
      FilterToPrefix(s, f, b, k, j - 1);
    }
  }

  /** First loop: count[b] is the number of rows in bucket b. */
  method CountBuckets<T>(s: seq<T>, f: T -> int, m: nat) returns (count: seq<int>)
    requires InBuckets(s, f, m)
    ensures |count| == m
    ensures forall b :: 0 <= b < m ==> count[b] == |Filter(s, f, b)|
  {
    count := seq(m, _ => 0);
    var i := 0;
    while i < |s|
      invariant 0 <= i <= |s| && |count| == m
      invariant forall b :: 0 <= b < m ==> count[b] == Rank(s, f, b, i)
    {
      var index := f(s[i]);
      count := count[index := count[index] + 1];
      i := i + 1;
    }
    RankAll(s, f);
  }

  /** Second loop: a running sum turns each count into the end of its bucket. */
  method RunningSum<T>(s: seq<T>, f: T -> int, count: seq<int>) returns (ends: seq<int>)
    requires forall b :: 0 <= b < |count| ==> count[b] == |Filter(s, f, b)|
    ensures |ends| == |count|
    ensures forall b :: 0 <= b < |count| ==> ends[b] == End(s, f, b)
  {
    var m := |count|;
    ends := count;
    assert m > 0 ==> End(s, f, 0) == |Filter(s, f, 0)|;
    var i := 1;
    while i < m
      invariant 1 <= i <= if m == 0 then 1 else m
      invariant |ends| == m
      invariant forall b :: 0 <= b < i && b < m ==> ends[b] == End(s, f, b)
      invariant forall b :: i <= b < m ==> ends[b] == |Filter(s, f, b)|
    {
      assert End(s, f, i) == End(s, f, i - 1) + |Filter(s, f, i)|;
      ends := ends[i := ends[i] + ends[i - 1]];
      i := i + 1;
    }
  }

  /**
   Third loop: walking the rows from the last to the first, each row is put
   just before the current end of its bucket, and that end moves down.
   */
  method PlaceBackward<T>(s: seq<T>, f: T -> int, ends: seq<int>) returns (output: seq<T>)
    requires InBuckets(s, f, |ends|)
    requires forall b :: 0 <= b < |ends| ==> ends[b] == End(s, f, b)
    ensures |output| == |s|
    ensures output == Bucketed(s, f, |ends|)
  {
    var m := |ends|;
    var count := ends;
    output := s;
    var k := |s|;
    RankAll(s, f);
    while k > 0
      invariant 0 <= k <= |s| && |count| == m
      invariant forall b :: 0 <= b < m ==> count[b] == Start(s, f, b) + Rank(s, f, b, k)
      invariant output == Placed(s, f, k)
    {
      var x := s[k - 1];
      var index := f(x);
      SlotInRange(s, f, m, k - 1);
      output := output[count[index] - 1 := x];
      count := count[index := count[index] - 1];
      k := k - 1;
    }
    PlacedIsBucketed(s, f, m);
  }

  /**
   Where the row s[k] is placed: in its bucket, after the rows of that bucket
   that come before it in `s`.
   */
  function Slot<T>(s: seq<T>, f: T -> int, k: nat): nat
    requires k < |s| && 0 <= f(s[k])
  {
    Start(s, f, f(s[k])) + Rank(s, f, f(s[k]), k)
  }

  /** The value of `output` once the rows s[k..] are placed, as the loop computes it. */
  ghost function Placed<T>(s: seq<T>, f: T -> int, k: nat): (r: seq<T>)
    requires k <= |s|
    ensures |r| == |s|
    decreases |s| - k
  {
    if k == |s| then s
    else
      var prev := Placed(s, f, k + 1);
      if 0 <= f(s[k]) && Slot(s, f, k) < |prev| then prev[Slot(s, f, k) := s[k]] else prev
  }

  /** The slot of a row lies inside its bucket, and the row is found there in Bucketed. */
  lemma SlotInRange<T>(s: seq<T>, f: T -> int, m: nat, k: nat)
    requires InBuckets(s, f, m) && k < |s|
    ensures Start(s, f, f(s[k])) <= Slot(s, f, k) < End(s, f, f(s[k])) <= |s|
    ensures |Bucketed(s, f, m)| == |s| && Bucketed(s, f, m)[Slot(s, f, k)] == s[k]
  {
    var b := f(s[k]);
    RankAt(s, f, k);
    assert Bucketed(s, f, m)[Slot(s, f, k)] == s[k] by {
      BucketedAt(s, f, m, b, Rank(s, f, b, k));
    }
    assert End(s, f, b) <= |s| by {
      assert End(s, f, b) == Start(s, f, b + 1);
      StartMono(s, f, b + 1, m);
      BucketedLength(s, f, m);
    }
    BucketedLength(s, f, m);
  }

  lemma BucketedLength<T>(s: seq<T>, f: T -> int, m: nat)
    requires InBuckets(s, f, m)
    ensures |Bucketed(s, f, m)| == |s|
  {
    BucketedStable(s, f, m);
  }

  /**
   Once the rows s[k..] are placed, every position p at or above the current
   count of its bucket already holds the row Bucketed puts there.
   */
  lemma {:induction false} PlacedAt<T>(s: seq<T>, f: T -> int, m: nat, k: nat, p: nat)
    requires InBuckets(s, f, m) && k <= |s| && p < |Bucketed(s, f, m)|
    requires var c := f(Bucketed(s, f, m)[p]); c >= 0 && Start(s, f, c) + Rank(s, f, c, k) <= p
    ensures p < |s| && Placed(s, f, k)[p] == Bucketed(s, f, m)[p]
    decreases |s| - k
  {
    var c := f(Bucketed(s, f, m)[p]);
    PosInBucket(s, f, m, p);
    BucketedLength(s, f, m);
    if k == |s| {
      RankAll(s, f);
      assert false;
    } else {
      SlotInRange(s, f, m, k);
      if p != Slot(s, f, k) {
        PlacedAt(s, f, m, k + 1, p);
      }
    }
  }

  lemma PlacedIsBucketed<T>(s: seq<T>, f: T -> int, m: nat)
    requires InBuckets(s, f, m)
    ensures Placed(s, f, 0) == Bucketed(s, f, m)
  {
    BucketedLength(s, f, m);
    forall p | 0 <= p < |s| ensures Placed(s, f, 0)[p] == Bucketed(s, f, m)[p] {
      PosInBucket(s, f, m, p);
      PlacedAt(s, f, m, 0, p);
    }
  }

  /** The last loop of both counting sorts: a[i] := output[i] for every i. */
  method CopyBack<T>(a: array<T>, output: seq<T>)
    requires |output| == a.Length
    modifies a
    ensures a[..] == output
  {
    var i := 0;
    while i < a.Length
      invariant 0 <= i <= a.Length
      invariant forall p :: 0 <= p < i ==> a[p] == output[p]
    {
      a[i] := output[i];
      i := i + 1;
    }
  }

  /** Position p of Bucketed(s, f, m) lies inside the range of its own bucket. */
  lemma PosInBucket<T>(s: seq<T>, f: T -> int, m: nat, p: nat)
    requires p < |Bucketed(s, f, m)|
    ensures var b := f(Bucketed(s, f, m)[p]); 0 <= b < m && Start(s, f, b) <= p < End(s, f, b)
  {
    var b := CoveringBucket(s, f, m, p);
    BucketedAt(s, f, m, b, p - Start(s, f, b));
    FilterValues(s, f, b);
  }
}

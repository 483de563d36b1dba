/**
 counting_sort (benchmark.py lines 180-203): one stable bucket placement
 whose bucket index is the key less the smallest key, over as many buckets
 as there are values between the smallest and the largest key.
 */
module CountingSort {
  import opened Ordering
  import opened Buckets

  /** The bucket of a row: its key less the smallest key. */
  function Shift<T>(key: T -> int, low: int): T -> int {
    x => key(x) - low
  }

  /** The smallest and the largest key of a non-empty list. */
  function Low<T>(s: seq<T>, key: T -> int): int
    requires |s| > 0
  {
    MinTo(s, key, |s|)
  }

  function High<T>(s: seq<T>, key: T -> int): int
    requires |s| > 0
  {
    MaxTo(s, key, |s|)
  }

  /** What counting_sort leaves in a non-empty list. */
  function CountingSorted<T>(s: seq<T>, key: T -> int): seq<T>
    requires |s| > 0
  {
    Bucketed(s, Shift(key, Low(s, key)), High(s, key) - Low(s, key) + 1)
  }

  /** Every index the count and placement loops compute lies inside `count`. */
  lemma IndexInRange<T>(s: seq<T>, key: T -> int)
    requires |s| > 0
    ensures High(s, key) - Low(s, key) + 1 >= 1
    ensures InBuckets(s, Shift(key, Low(s, key)), High(s, key) - Low(s, key) + 1)
  {
  }

  /** The result is in non-decreasing key order. */
  lemma CountingSortedSorted<T>(s: seq<T>, key: T -> int)
    requires |s| > 0
    ensures SortedBy(CountingSorted(s, key), key)
  {
    var low := Low(s, key);
    var r := CountingSorted(s, key);
    BucketedSorted(s, Shift(key, low), High(s, key) - low + 1);
    forall i, j | 0 <= i < j < |r| ensures key(r[i]) <= key(r[j]) {
      assert Shift(key, low)(r[i]) <= Shift(key, low)(r[j]);
    }
  }

  /** The result is a stable permutation of the input: rows of equal key keep their order. */
  lemma CountingSortedStable<T>(s: seq<T>, key: T -> int)
    requires |s| > 0
    ensures StablePermutation(s, CountingSorted(s, key), key)
    ensures multiset(CountingSorted(s, key)) == multiset(s)
  {
    var low := Low(s, key);
    IndexInRange(s, key);
    BucketedStable(s, Shift(key, low), High(s, key) - low + 1);
    StableCoarsen(s, CountingSorted(s, key), Shift(key, low), key, k => k - low);
  }

  /**
   Sorts `a` by key in place, or raises ValueError, leaving `a` alone, when it
   is empty (Python's max of an empty list).
   */
  method CountingSort<T>(a: array<T>, key: T -> int) returns (o: Outcome)
    modifies a
    ensures a.Length == 0 ==> o == ValueError && a[..] == old(a[..])
    ensures a.Length > 0 ==> o == Done && a[..] == CountingSorted(old(a[..]), key)
    ensures o == Done ==> SortedBy(a[..], key) && StablePermutation(old(a[..]), a[..], key)
  {
    if a.Length == 0 {
      return ValueError;
    }
    var high := MaxTo(a[..], key, a.Length);
    var low := MinTo(a[..], key, a.Length);
    var range := high - low + 1;
    ghost var s := a[..];
    IndexInRange(s, key);
    BucketPlace(a, Shift(key, low), range);
    CountingSortedSorted(s, key);
    CountingSortedStable(s, key);
    o := Done;
  }
}

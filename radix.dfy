/**
 radix_sort and helper_counting_sort (benchmark.py lines 27-72): a
 least-significant-digit radix sort in base 10. Each pass is one stable
 bucket placement over ten buckets, the bucket of a row being one decimal
 digit of its key shifted by an offset that makes the smallest key zero.
 */
module RadixSort {
  import opened Ordering
  import opened Buckets
  import opened Arith

  function Pow10(d: nat): (r: nat)
    ensures r >= 1
  {
    if d == 0 then 1 else 10 * Pow10(d - 1)
  }

  /** Python's int() of an exact quotient: truncation toward zero. */
  function TruncDiv(v: int, e: int): int
    requires e > 0
  {
    if v >= 0 then v / e else -((-v) / e)
  }

  /** The bucket helper_counting_sort gives a row: int((key + offset) / exp) % 10. */
  function Digit<T>(key: T -> int, offset: int, exp: nat): T -> int
    requires exp > 0
  {
    x => TruncDiv(key(x) + offset, exp) % 10
  }

  /** The part of the shifted key below `exp`, the order a run of passes establishes. */
  function LowPart<T>(key: T -> int, offset: int, exp: nat): T -> int
    requires exp > 0
  {
    x => (key(x) + offset) % exp
  }

  function AbsKey<T>(key: T -> int): T -> int {
    x => if key(x) < 0 then -key(x) else key(x)
  }

  /** The offset radix_sort adds to every key: minus the smallest key when that is negative. */
  function Offset(low: int): nat {
    if low < 0 then -low else 0
  }

  /**
   The number of decimal digits of m, and 1 for m = 0: the value of
   floor(log10(m)) + 1, or 1 when m is 0, computed exactly.
   */
  function NumDigits(m: nat): (d: nat)
    ensures d >= 1 && m < Pow10(d)
    ensures d > 1 ==> Pow10(d - 1) <= m
  {
    if m < 10 then 1 else 1 + NumDigits(m / 10)
  }

  /** The list after the first d passes, the i-th pass bucketing by the digit of weight 10^i. */
  function Passes<T>(s: seq<T>, key: T -> int, offset: int, d: nat): seq<T> {
    if d == 0 then s else Bucketed(Passes(s, key, offset, d - 1), Digit(key, offset, Pow10(d - 1)), 10)
  }

  function Low<T>(s: seq<T>, key: T -> int): int
    requires |s| > 0
  {
    MinTo(s, key, |s|)
  }

  /** The number of passes radix_sort runs: the digits of the largest absolute key. */
  function PassCount<T>(s: seq<T>, key: T -> int): nat
    requires |s| > 0
  {
    var maxAbs := MaxTo(s, AbsKey(key), |s|);
    assert maxAbs >= 0;
    NumDigits(maxAbs)
  }

  /** The number of passes the shifted keys need: the digits of the largest shifted key. */
  function PassCountFixed<T>(s: seq<T>, key: T -> int): nat
    requires |s| > 0
  {
    var high := MaxTo(s, key, |s|) + Offset(Low(s, key));
    assert high >= 0;
    NumDigits(high)
  }

  /** What radix_sort leaves in a non-empty list. */
  function RadixSorted<T>(s: seq<T>, key: T -> int): seq<T>
    requires |s| > 0
  {
    Passes(s, key, Offset(Low(s, key)), PassCount(s, key))
  }

  /** What radix_sort leaves in a non-empty list once it runs as many passes as the shifted keys need. */
  function RadixSortedFixed<T>(s: seq<T>, key: T -> int): seq<T>
    requires |s| > 0
  {
    Passes(s, key, Offset(Low(s, key)), PassCountFixed(s, key))
  }

  /** Every index helper_counting_sort computes lies in [0, 10). */
  lemma DigitInRange<T>(s: seq<T>, key: T -> int, offset: int, exp: nat)
    requires exp > 0
    ensures InBuckets(s, Digit(key, offset, exp), 10)
  {
    forall i | 0 <= i < |s| ensures 0 <= Digit(key, offset, exp)(s[i]) < 10 {
    }
  }

  /**
   One pass: stably places the rows of `a` into ten buckets by the digit of
   weight `exp` of key + offset.
   */
  method HelperCountingSort<T>(a: array<T>, key: T -> int, exp: nat, offset: int)
    requires exp > 0
    modifies a
    ensures a[..] == Bucketed(old(a[..]), Digit(key, offset, exp), 10)
  {
    DigitInRange(a[..], key, offset, exp);
    BucketPlace(a, Digit(key, offset, exp), 10);
  }

  /** The pass loop of radix_sort: `digits` passes with exp = 1, 10, 100, ... */
  method RunPasses<T>(a: array<T>, key: T -> int, offset: int, digits: nat)
    modifies a
    ensures a[..] == Passes(old(a[..]), key, offset, digits)
  {
    var exp := 1;
    var pass := 0;
    while pass < digits
      invariant 0 <= pass <= digits && exp == Pow10(pass)
      invariant a[..] == Passes(old(a[..]), key, offset, pass)
    {
      HelperCountingSort(a, key, exp, offset);
      exp := exp * 10;
      pass := pass + 1;
    }
  }

  /**
   radix_sort as written: sorts `a` by key, or raises ValueError when `a` is
   empty (Python's max of an empty list).
   */
  method RadixSortAsWritten<T>(a: array<T>, key: T -> int) returns (o: Outcome)
    modifies a
    ensures a.Length == 0 ==> o == ValueError && a[..] == old(a[..])
    ensures a.Length > 0 ==> o == Done && a[..] == RadixSorted(old(a[..]), key)
    ensures o == Done ==> StablePermutation(old(a[..]), a[..], key)
    ensures o == Done && (forall i :: 0 <= i < a.Length ==> key(old(a[i])) >= 0) ==> SortedBy(a[..], key)
  {
    if a.Length == 0 {
      return ValueError;
    }
    ghost var s := a[..];
    RadixSortedStable(s, key);
    if forall i :: 0 <= i < |s| ==> key(s[i]) >= 0 {
      RadixSortedNonNegative(s, key);
    }
    var maxNum := MaxTo(a[..], AbsKey(key), a.Length);
    var minNum := MinTo(a[..], key, a.Length);
    var offset := if minNum < 0 then -minNum else 0;
    var maxDigits := NumDigits(maxNum);
    RunPasses(a, key, offset, maxDigits);
    o := Done;
  }

  /** radix_sort with the number of passes taken from the shifted keys. */
  method RadixSort<T>(a: array<T>, key: T -> int) returns (o: Outcome)
    modifies a
    ensures a.Length == 0 ==> o == ValueError && a[..] == old(a[..])
    ensures a.Length > 0 ==> o == Done && a[..] == RadixSortedFixed(old(a[..]), key)
    ensures o == Done ==> SortedBy(a[..], key) && StablePermutation(old(a[..]), a[..], key)
  {
    if a.Length == 0 {
      return ValueError;
    }
    ghost var s := a[..];
    var maxNum := MaxTo(a[..], key, a.Length);
    var minNum := MinTo(a[..], key, a.Length);
    var offset := if minNum < 0 then -minNum else 0;
    var maxDigits := NumDigits(maxNum + offset);
    RadixSortedFixedSorted(s, key);
    RadixSortedFixedStable(s, key);
    RunPasses(a, key, offset, maxDigits);
    o := Done;
  }

  /** Every shifted key lies in [0, hi). */
  ghost predicate ShiftedIn<T>(s: seq<T>, key: T -> int, offset: int, hi: int) {
    forall x :: x in s ==> 0 <= key(x) + offset < hi
  }

  /** Every shifted key is non-negative. */
  ghost predicate ShiftedNonNegative<T>(s: seq<T>, key: T -> int, offset: int) {
    forall x :: x in s ==> 0 <= key(x) + offset
  }

  /** A permutation of `s` holds no row that `s` does not. */
  lemma RowsOf<T>(s: seq<T>, t: seq<T>)
    requires multiset(s) == multiset(t)
    ensures forall x :: x in t ==> x in s
  {
    forall x | x in t ensures x in s {
      assert x in multiset(t);
    }
  }

  /** One pass keeps rows of equal key in their order. */
  lemma PassStable<T>(p: seq<T>, key: T -> int, offset: int, e: nat)
    requires e > 0
    ensures StablePermutation(p, Bucketed(p, Digit(key, offset, e), 10), key)
  {
    var f := Digit(key, offset, e);
    var h := k => TruncDiv(k + offset, e) % 10;
    DigitInRange(p, key, offset, e);
    BucketedStable(p, f, 10);
    assert forall x :: f(x) == h(key(x));
    StableCoarsen(p, Bucketed(p, f, 10), f, key, h);
  }

  /** Any run of passes keeps rows of equal key in their order. */
  lemma {:induction false} PassesStable<T>(s: seq<T>, key: T -> int, offset: int, d: nat)
    ensures StablePermutation(s, Passes(s, key, offset, d), key)
    ensures multiset(Passes(s, key, offset, d)) == multiset(s)
  {
    if d > 0 {
      var p := Passes(s, key, offset, d - 1);
      PassesStable(s, key, offset, d - 1);
      PassStable(p, key, offset, Pow10(d - 1));
      StableTrans(s, p, Passes(s, key, offset, d), key);
    }
  }

  /** A run of passes holds exactly the rows it started with. */
  lemma PassesRows<T>(s: seq<T>, key: T -> int, offset: int, d: nat)
    ensures forall x :: x in Passes(s, key, offset, d) ==> x in s
  {
    PassesStable(s, key, offset, d);
    RowsOf(s, Passes(s, key, offset, d));
  }

  /**
   A pass over a list already ordered by the part below e of its shifted keys
   leaves it ordered by the part below 10e.
   */
  lemma PassOrder<T>(p: seq<T>, key: T -> int, offset: int, e: nat)
    requires e > 0 && ShiftedNonNegative(p, key, offset)
    requires SortedBy(p, LowPart(key, offset, e))
    ensures SortedBy(Bucketed(p, Digit(key, offset, e), 10), LowPart(key, offset, 10 * e))
  {
    var f, g := Digit(key, offset, e), LowPart(key, offset, e);
    var r := Bucketed(p, f, 10);
    BucketedLex(p, f, 10, g);
    DigitInRange(p, key, offset, e);
    BucketedStable(p, f, 10);
    RowsOf(p, r);
    forall i, j | 0 <= i < j < |r| ensures LowPart(key, offset, 10 * e)(r[i]) <= LowPart(key, offset, 10 * e)(r[j]) {
      assert r[i] in r && r[j] in r;
      assert key(r[i]) + offset >= 0 && key(r[j]) + offset >= 0;
      assert f(r[i]) < f(r[j]) || (f(r[i]) == f(r[j]) && g(r[i]) <= g(r[j]));
      DigitStep(key, offset, e, r[i], r[j]);
    }
  }

  /**
   Ordering two rows with non-negative shifted keys by their digit of weight
   e first and by their part below e second orders them by their part below 10e.
   */
  lemma DigitStep<T>(key: T -> int, offset: int, e: nat, x: T, y: T)
    requires e > 0 && key(x) + offset >= 0 && key(y) + offset >= 0
    requires var f, g := Digit(key, offset, e), LowPart(key, offset, e);
      f(x) < f(y) || (f(x) == f(y) && g(x) <= g(y))
    ensures LowPart(key, offset, 10 * e)(x) <= LowPart(key, offset, 10 * e)(y)
  {
    var v1, v2 := key(x) + offset, key(y) + offset;
    assert Digit(key, offset, e)(x) == (v1 / e) % 10 && Digit(key, offset, e)(y) == (v2 / e) % 10;
    DigitSplit(v1, e, 10);
    DigitSplit(v2, e, 10);
    LexCombine((v1 / e) % 10, v1 % e, (v2 / e) % 10, v2 % e, e);
  }

  /** After d passes the list is ordered by the part below 10^d of its shifted keys. */
  lemma {:induction false} PassesOrder<T>(s: seq<T>, key: T -> int, offset: int, d: nat)
    requires ShiftedNonNegative(s, key, offset)
    ensures SortedBy(Passes(s, key, offset, d), LowPart(key, offset, Pow10(d)))
  {
    if d > 0 {
      var p := Passes(s, key, offset, d - 1);
      PassesOrder(s, key, offset, d - 1);
      PassesRows(s, key, offset, d - 1);
      PassOrder(p, key, offset, Pow10(d - 1));
    }
  }

  /** When every shifted key has at most d digits, d passes sort the list by key. */
  lemma PassesSorted<T>(s: seq<T>, key: T -> int, offset: int, d: nat)
    requires ShiftedIn(s, key, offset, Pow10(d))
    ensures SortedBy(Passes(s, key, offset, d), key)
  {
    var r := Passes(s, key, offset, d);
    PassesOrder(s, key, offset, d);
    PassesRows(s, key, offset, d);
    var n := Pow10(d);
    forall i, j | 0 <= i < j < |r| ensures key(r[i]) <= key(r[j]) {
      var vi, vj := key(r[i]) + offset, key(r[j]) + offset;
      assert r[i] in r && r[j] in r;
      assert 0 <= vi < n && 0 <= vj < n;
      DivModUnique(vi, n, 0, vi);
      DivModUnique(vj, n, 0, vj);
      assert LowPart(key, offset, n)(r[i]) == vi && LowPart(key, offset, n)(r[j]) == vj;
    }
  }

  /** The corrected radix sort leaves the list sorted by key, whatever the signs of the keys. */
  lemma RadixSortedFixedSorted<T>(s: seq<T>, key: T -> int)
    requires |s| > 0
    ensures SortedBy(RadixSortedFixed(s, key), key)
  {
    var offset := Offset(Low(s, key));
    var high := MaxTo(s, key, |s|) + offset;
    assert high >= 0;
    var d := NumDigits(high);
    assert ShiftedIn(s, key, offset, Pow10(d)) by {
      forall i | 0 <= i < |s| ensures 0 <= key(s[i]) + offset < Pow10(d) {
        assert Low(s, key) <= key(s[i]) <= MaxTo(s, key, |s|);
      }
    }
    PassesSorted(s, key, offset, d);
  }

  /** Radix sort as written is a stable permutation of its input. */
  lemma RadixSortedStable<T>(s: seq<T>, key: T -> int)
    requires |s| > 0
    ensures StablePermutation(s, RadixSorted(s, key), key) && multiset(RadixSorted(s, key)) == multiset(s)
  {
    PassesStable(s, key, Offset(Low(s, key)), PassCount(s, key));
  }

  /** The corrected radix sort is a stable permutation of its input. */
  lemma RadixSortedFixedStable<T>(s: seq<T>, key: T -> int)
    requires |s| > 0
    ensures StablePermutation(s, RadixSortedFixed(s, key), key) && multiset(RadixSortedFixed(s, key)) == multiset(s)
  {
    PassesStable(s, key, Offset(Low(s, key)), PassCountFixed(s, key));
  }

  /** With no negative key, radix sort as written sorts the list. */
  lemma RadixSortedNonNegative<T>(s: seq<T>, key: T -> int)
    requires |s| > 0
    requires forall i :: 0 <= i < |s| ==> key(s[i]) >= 0
    ensures SortedBy(RadixSorted(s, key), key)
  {
    var low := Low(s, key);
    assert low >= 0;
    var maxAbs := MaxTo(s, AbsKey(key), |s|);
    assert maxAbs >= 0;
    var d := NumDigits(maxAbs);
    assert ShiftedIn(s, key, 0, Pow10(d)) by {
      forall i | 0 <= i < |s| ensures 0 <= key(s[i]) < Pow10(d) {
        assert AbsKey(key)(s[i]) == key(s[i]);
      }
    }
    PassesSorted(s, key, 0, d);
  }

  function Identity(x: int): int { x }

  /**
   radix_sort as written does not sort [9, -1]: the offset 1 turns the keys
   into 10 and 0, but the largest absolute key 9 has one digit, so the only
   pass looks at the units digits, both 0, and keeps the list as it is.
   */
  lemma RadixCounterexample(s: seq<int>)
    requires s == [9, -1]
    ensures RadixSorted(s, Identity) == s
    ensures !SortedBy(RadixSorted(s, Identity), Identity)
  {
    assert Low(s, Identity) == -1;
    assert MaxTo(s, AbsKey(Identity), 2) == 9;
    assert PassCount(s, Identity) == 1;
    assert Offset(Low(s, Identity)) == 1 && Pow10(0) == 1;
    var f := Digit(Identity, 1, 1);
    assert RadixSorted(s, Identity) == Passes(s, Identity, 1, 1) == Bucketed(s, f, 10);
    assert f(s[0]) == 0 && f(s[1]) == 0;
    BucketedConstant(s, f, 10);
  }

  /** When every row falls in bucket 0, bucket placement changes nothing. */
  lemma {:induction false} BucketedConstant<T>(s: seq<T>, f: T -> int, m: nat)
    requires m > 0 && forall i :: 0 <= i < |s| ==> f(s[i]) == 0
    ensures Bucketed(s, f, m) == s
  {
    if m == 1 {
      FilterAll(s, f, 0);
    } else {
      BucketedConstant(s, f, m - 1);
      FilterNone(s, f, m - 1);
    }
  }
}

/**
 insertion_sort of the benchmark's timsort (benchmark.py lines 90-97): sorts
 the rows at positions left..right (both inclusive) of the array in place.
 Each row in turn is taken out, the sorted rows before it whose key is larger
 move one place right, and the row drops into the gap. Rows of equal key keep
 their order, since a row never moves past an equal key.
 */
module Insertion {
  import opened Ordering

  /**
   The inner loop as a function: row x enters behind the sorted rows t and
   moves left past every row whose key is larger than its own.
   */
  function Insert<T>(t: seq<T>, x: T, key: T -> int): (r: seq<T>)
    ensures |r| == |t| + 1
    decreases |t|
  {
    if |t| == 0 || key(t[|t| - 1]) <= key(x) then t + [x]
    else Insert(t[..|t| - 1], x, key) + [t[|t| - 1]]
  }

  /** The first n rows of s after the outer loop has inserted them one by one. */
  function InsertionSortedTo<T>(s: seq<T>, key: T -> int, n: nat): (r: seq<T>)
    requires n <= |s|
    ensures |r| == n
  {
    if n == 0 then [] else Insert(InsertionSortedTo(s, key, n - 1), s[n - 1], key)
  }

  /** What insertion_sort leaves in place of the rows s. */
  function InsertionSorted<T>(s: seq<T>, key: T -> int): (r: seq<T>)
    ensures |r| == |s|
  {
    InsertionSortedTo(s, key, |s|)
  }

  /**
   Where the row lands: if the rows of t from q on all have a larger key than
   x and the row before q does not, x ends up at q, the rows before q stay
   and those from q on move one place right.
   */
  lemma {:induction false} InsertAt<T>(t: seq<T>, x: T, key: T -> int, q: int)
    requires 0 <= q <= |t|
    requires q == 0 || key(t[q - 1]) <= key(x)
    requires forall r :: q <= r < |t| ==> key(t[r]) > key(x)
    ensures forall r :: 0 <= r < q ==> Insert(t, x, key)[r] == t[r]
    ensures Insert(t, x, key)[q] == x
    ensures forall r :: q < r <= |t| ==> Insert(t, x, key)[r] == t[r - 1]
    decreases |t|
  {
    if q < |t| {
      var t' := t[..|t| - 1];
      assert q == 0 || t'[q - 1] == t[q - 1];
      InsertAt(t', x, key, q);
      assert Insert(t, x, key) == Insert(t', x, key) + [t[|t| - 1]];
    }
  }

  /** Insertion loses and invents no row. */
  lemma {:induction false} InsertPermutation<T>(t: seq<T>, x: T, key: T -> int)
    ensures multiset(Insert(t, x, key)) == multiset(t) + multiset{x}
    decreases |t|
  {
    if |t| > 0 && key(t[|t| - 1]) > key(x) {
      InsertPermutation(t[..|t| - 1], x, key);
      assert t == t[..|t| - 1] + [t[|t| - 1]];
    }
  }

  /** A bound above every row of t and above x is a bound above every row after the insertion. */
  lemma {:induction false} InsertBelow<T>(t: seq<T>, x: T, key: T -> int, v: int)
    requires forall i :: 0 <= i < |t| ==> key(t[i]) <= v
    requires key(x) <= v
    ensures forall i :: 0 <= i < |t| + 1 ==> key(Insert(t, x, key)[i]) <= v
    decreases |t|
  {
    if |t| > 0 && key(t[|t| - 1]) > key(x) {
      InsertBelow(t[..|t| - 1], x, key, v);
    }
  }

  /** Inserting into sorted rows keeps them sorted. */
  lemma {:induction false} InsertSorted<T>(t: seq<T>, x: T, key: T -> int)
    requires SortedBy(t, key)
    ensures SortedBy(Insert(t, x, key), key)
    decreases |t|
  {
    if |t| > 0 && key(t[|t| - 1]) > key(x) {
      var t' := t[..|t| - 1];
      InsertSorted(t', x, key);
      InsertBelow(t', x, key, key(t[|t| - 1]));
    }
  }

  /** A row y of larger key than x, passed by x, leaves x's key class and its own as they were. */
  lemma FilterPast<T>(u: seq<T>, y: T, x: T, key: T -> int, b: int)
    requires key(y) > key(x)
    ensures Filter(u + [y] + [x], key, b) == Filter(u + [x], key, b) + Filter([y], key, b)
  {
    FilterAppend(u + [y], [x], key, b);
    FilterAppend(u, [y], key, b);
    FilterAppend(u, [x], key, b);
    FilterSingle(x, key, b);
    FilterSingle(y, key, b);
  }

  /**
   Insertion is stable: x passes only rows of a larger key, so the rows of
   any one key keep the order they have in t followed by x.
   */
  lemma {:induction false} InsertStable<T>(t: seq<T>, x: T, key: T -> int)
    ensures StablePermutation(t + [x], Insert(t, x, key), key)
    decreases |t|
  {
    if |t| > 0 && key(t[|t| - 1]) > key(x) {
      var t', y := t[..|t| - 1], t[|t| - 1];
      InsertStable(t', x, key);
      assert t + [x] == t' + [y] + [x];
      assert Insert(t, x, key) == Insert(t', x, key) + [y];
      forall b ensures Filter(t + [x], key, b) == Filter(Insert(t, x, key), key, b) {
        FilterPast(t', y, x, key, b);
        FilterAppend(Insert(t', x, key), [y], key, b);
      }
    }
  }

  /** After the outer loop has inserted n rows, they are sorted. */
  lemma {:induction false} InsertionSortedToSorted<T>(s: seq<T>, key: T -> int, n: nat)
    requires n <= |s|
    ensures SortedBy(InsertionSortedTo(s, key, n), key)
  {
    if n > 0 {
      InsertionSortedToSorted(s, key, n - 1);
      InsertSorted(InsertionSortedTo(s, key, n - 1), s[n - 1], key);
    }
  }

  /** After the outer loop has inserted n rows, they are a stable permutation of the first n rows. */
  lemma {:induction false} InsertionSortedToStable<T>(s: seq<T>, key: T -> int, n: nat)
    requires n <= |s|
    ensures StablePermutation(s[..n], InsertionSortedTo(s, key, n), key)
    ensures multiset(InsertionSortedTo(s, key, n)) == multiset(s[..n])
  {
    if n > 0 {
      var t := InsertionSortedTo(s, key, n - 1);
      InsertionSortedToStable(s, key, n - 1);
      assert s[..n] == s[..n - 1] + [s[n - 1]];
      forall b ensures Filter(s[..n], key, b) == Filter(t + [s[n - 1]], key, b) {
        FilterAppend(s[..n - 1], [s[n - 1]], key, b);
        FilterAppend(t, [s[n - 1]], key, b);
      }
      InsertStable(t, s[n - 1], key);
      StableTrans(s[..n], t + [s[n - 1]], Insert(t, s[n - 1], key), key);
    }
  }

  /** insertion_sort leaves the rows sorted. */
  lemma InsertionSortedSorted<T>(s: seq<T>, key: T -> int)
    ensures SortedBy(InsertionSorted(s, key), key)
  {
    InsertionSortedToSorted(s, key, |s|);
  }

  /** insertion_sort is a stable permutation of the rows. */
  lemma InsertionSortedStable<T>(s: seq<T>, key: T -> int)
    ensures StablePermutation(s, InsertionSorted(s, key), key)
    ensures multiset(InsertionSorted(s, key)) == multiset(s)
  {
    InsertionSortedToStable(s, key, |s|);
    assert s[..|s|] == s;
  }

  /**
   insertion_sort(arr, left, right): sorts the rows at left..right in place,
   leaving every other row where it was.
   */
  method InsertionSort<T>(a: array<T>, key: T -> int, left: int, right: int)
    requires 0 <= left <= right + 1 <= a.Length
    modifies a
    ensures a[..] == old(a[..])[..left] + InsertionSorted(old(a[left..right + 1]), key) + old(a[..])[right + 1..]
  {
    ghost var seg := a[left..right + 1];
    if left > right {
      // the range of the outer loop is empty
      assert a[..] == a[..left] + seg + a[right + 1..];
      return;
    }
    var i := left + 1;
    while i <= right
      invariant left + 1 <= i <= right + 1
      invariant forall p :: left <= p < i ==> a[p] == InsertionSortedTo(seg, key, i - left)[p - left]
      invariant forall p :: 0 <= p < a.Length && !(left <= p < i) ==> a[p] == old(a[p])
    {
      ghost var t := InsertionSortedTo(seg, key, i - left);
      ghost var temp := a[i];
      InsertRow(a, key, left, i, t);
      assert temp == seg[i - left];
      i := i + 1;
      assert InsertionSortedTo(seg, key, i - left) == Insert(t, temp, key);
    }
    Assemble(a[..], old(a[..]), left, InsertionSorted(seg, key));
  }

  /**
   One round of insertion_sort's outer loop: the row at i is taken out, the
   rows t at left..i-1 whose key is larger than its own move one place right,
   and the row drops into the gap.
   */
  method InsertRow<T>(a: array<T>, key: T -> int, left: int, i: int, ghost t: seq<T>)
    requires 0 <= left < i < a.Length && |t| == i - left
    requires forall p :: left <= p < i ==> a[p] == t[p - left]
    modifies a
    ensures forall p :: left <= p <= i ==> a[p] == Insert(t, old(a[i]), key)[p - left]
    ensures forall p :: 0 <= p < a.Length && !(left <= p <= i) ==> a[p] == old(a[p])
  {
    var temp := a[i];
    var j := i - 1;
    while j >= left && key(a[j]) > key(temp)
      invariant left - 1 <= j <= i - 1
      invariant forall p :: left <= p <= j ==> a[p] == t[p - left]
      invariant forall p :: j + 2 <= p <= i ==> a[p] == t[p - left - 1]
      invariant forall r :: j + 1 - left <= r < i - left ==> key(t[r]) > key(temp)
      invariant forall p :: 0 <= p < a.Length && !(left <= p <= i) ==> a[p] == old(a[p])
    {
      a[j + 1] := a[j];
      j := j - 1;
    }
    a[j + 1] := temp;
    InsertAt(t, temp, key, j + 1 - left);
    forall p | left <= p <= i
      ensures a[p] == Insert(t, temp, key)[p - left]
    {
      if p == j + 1 {
        assert p - left == j + 1 - left;
      }
    }
  }
}

/**
 Shared vocabulary for the sorting routines of the benchmark: a row is an
 element of an arbitrary type T and every routine orders rows by an integer
 key extracted from a fixed column, here the function `key: T -> int`.

 - SortedBy(s, f): s is in non-decreasing order of f.
 - Filter(s, f, b): the rows of s whose f-value is b, in their order in s.
 - StablePermutation(s, t, f): for every value b, the rows with f-value b
   appear in t in exactly the order they appear in s. This says at once that
   t is a permutation of s (lemma StablePermutationIsPermutation) and that a
   sort producing t is stable with respect to f.
 */
module Ordering {

  /** How a sort call ends: normally, or with the ValueError Python raises on an empty list. */
  datatype Outcome = Done | ValueError

  predicate SortedBy<T>(s: seq<T>, f: T -> int) {
    forall i, j :: 0 <= i < j < |s| ==> f(s[i]) <= f(s[j])
  }

  /** The rows of `s` whose `f`-value is `b`, in order. */
  function Filter<T>(s: seq<T>, f: T -> int, b: int): (r: seq<T>)
    ensures |r| <= |s|
  {
    FilterTo(s, f, b, |s|)
  }

  /** The rows among the first `k` of `s` whose `f`-value is `b`, in order. */
  function FilterTo<T>(s: seq<T>, f: T -> int, b: int, k: nat): (r: seq<T>)
    requires k <= |s|
    ensures |r| <= k
  {
    if k == 0 then [] else FilterTo(s, f, b, k - 1) + (if f(s[k - 1]) == b then [s[k - 1]] else [])
  }

  ghost predicate StablePermutation<T>(s: seq<T>, t: seq<T>, f: T -> int) {
    forall b :: Filter(s, f, b) == Filter(t, f, b)
  }

  /** Every row Filter keeps has the value asked for. */
  lemma FilterValues<T>(s: seq<T>, f: T -> int, b: int)
    ensures forall i :: 0 <= i < |Filter(s, f, b)| ==> f(Filter(s, f, b)[i]) == b
  {
    FilterToValues(s, f, b, |s|);
  }

  lemma {:induction false} FilterToValues<T>(s: seq<T>, f: T -> int, b: int, k: nat)
    requires k <= |s|
    ensures forall i :: 0 <= i < |FilterTo(s, f, b, k)| ==> f(FilterTo(s, f, b, k)[i]) == b
  {
    if k > 0 {
      FilterToValues(s, f, b, k - 1);
    }
  }

  /** Filtering a concatenation filters each part. */
  lemma FilterAppend<T>(s: seq<T>, t: seq<T>, f: T -> int, b: int)
    ensures Filter(s + t, f, b) == Filter(s, f, b) + Filter(t, f, b)
  {
    FilterToRight(s, t, f, b, |t|);
  }

  /** The first |s| rows of s + t filter as s does. */
  lemma {:induction false} FilterToLeft<T>(s: seq<T>, t: seq<T>, f: T -> int, b: int, k: nat)
    requires k <= |s|
    ensures FilterTo(s + t, f, b, k) == FilterTo(s, f, b, k)
  {
    if k > 0 {
      FilterToLeft(s, t, f, b, k - 1);
      assert (s + t)[k - 1] == s[k - 1];
    }
  }

  lemma {:induction false} FilterToRight<T>(s: seq<T>, t: seq<T>, f: T -> int, b: int, j: nat)
    requires j <= |t|
    ensures FilterTo(s + t, f, b, |s| + j) == Filter(s, f, b) + FilterTo(t, f, b, j)
  {
    if j == 0 {
      FilterToLeft(s, t, f, b, |s|);
    } else {
      FilterToRight(s, t, f, b, j - 1);
      assert (s + t)[|s| + j - 1] == t[j - 1];
    }
  }

  /** Filtering by one value twice keeps it; by another value, nothing. */
  lemma FilterFilter<T>(s: seq<T>, f: T -> int, b: int, c: int)
    ensures Filter(Filter(s, f, c), f, b) == if b == c then Filter(s, f, c) else []
  {
    FilterToFilter(s, f, b, c, |s|);
  }

  lemma {:induction false} FilterToFilter<T>(s: seq<T>, f: T -> int, b: int, c: int, k: nat)
    requires k <= |s|
    ensures Filter(FilterTo(s, f, c, k), f, b) == if b == c then FilterTo(s, f, c, k) else []
  {
    if k > 0 {
      var x := s[k - 1];
      var last := if f(x) == c then [x] else [];
      FilterToFilter(s, f, b, c, k - 1);
      FilterAppend(FilterTo(s, f, c, k - 1), last, f, b);
      assert Filter(last, f, b) == if f(x) == c && f(x) == b then [x] else [] by {
        if f(x) == c {
          assert FilterTo(last, f, b, 0) == [];
        }
      }
    }
  }

  /** A row not of value `b` is never kept; one of value `b` is kept as often as it occurs. */
  lemma FilterCount<T>(s: seq<T>, f: T -> int, b: int, x: T)
    ensures multiset(Filter(s, f, b))[x] == if f(x) == b then multiset(s)[x] else 0
  {
    FilterToCount(s, f, b, x, |s|);
    assert s[..|s|] == s;
  }

  lemma {:induction false} FilterToCount<T>(s: seq<T>, f: T -> int, b: int, x: T, k: nat)
    requires k <= |s|
    ensures multiset(FilterTo(s, f, b, k))[x] == if f(x) == b then multiset(s[..k])[x] else 0
  {
    if k > 0 {
      var y := s[k - 1];
      FilterToCount(s, f, b, x, k - 1);
      assert multiset(s[..k]) == multiset(s[..k - 1]) + multiset{y} by {
        assert s[..k] == s[..k - 1] + [y];
      }
      if f(y) == b {
        assert multiset(FilterTo(s, f, b, k)) == multiset(FilterTo(s, f, b, k - 1)) + multiset{y};
      } else {
        assert FilterTo(s, f, b, k) == FilterTo(s, f, b, k - 1);
      }
    }
  }

  /** A sequence with no row of value `b` filters to nothing. */
  lemma FilterNone<T>(s: seq<T>, f: T -> int, b: int)
    requires forall i :: 0 <= i < |s| ==> f(s[i]) != b
    ensures Filter(s, f, b) == []
  {
    FilterToNone(s, f, b, |s|);
  }

  lemma {:induction false} FilterToNone<T>(s: seq<T>, f: T -> int, b: int, k: nat)
    requires k <= |s|
    requires forall i :: 0 <= i < |s| ==> f(s[i]) != b
    ensures FilterTo(s, f, b, k) == []
  {
    if k > 0 {
      FilterToNone(s, f, b, k - 1);
    }
  }

  /** Filtering rows that all have value b keeps every one of them. */
  lemma {:induction false} FilterToAll<T>(s: seq<T>, f: T -> int, b: int, k: nat)
    requires k <= |s|
    requires forall i :: 0 <= i < |s| ==> f(s[i]) == b
    ensures FilterTo(s, f, b, k) == s[..k]
  {
    if k > 0 {
      FilterToAll(s, f, b, k - 1);
      assert s[..k] == s[..k - 1] + [s[k - 1]];
    }
  }

  /** Filtering rows that all have value b keeps the whole sequence. */
  lemma FilterAll<T>(s: seq<T>, f: T -> int, b: int)
    requires forall i :: 0 <= i < |s| ==> f(s[i]) == b
    ensures Filter(s, f, b) == s
  {
    FilterToAll(s, f, b, |s|);
    assert s[..|s|] == s;
  }

  /** A single row filters to itself when it has the value asked for, and to nothing otherwise. */
  lemma FilterSingle<T>(x: T, f: T -> int, b: int)
    ensures Filter([x], f, b) == if f(x) == b then [x] else []
  {
    assert FilterTo([x], f, b, 0) == [];
  }

  /** A row in front keeps its place in the filter exactly when it has the value asked for. */
  lemma FilterCons<T>(x: T, s: seq<T>, f: T -> int, b: int)
    ensures Filter([x] + s, f, b) == (if f(x) == b then [x] else []) + Filter(s, f, b)
  {
    FilterAppend([x], s, f, b);
    FilterSingle(x, f, b);
  }

  /**
   Rearranging the segment [lo, hi) of a sequence, stably, and keeping every
   row outside it in place is a stable rearrangement of the whole sequence.
   */
  lemma StableReplace<T>(x: seq<T>, lo: int, hi: int, m: seq<T>, f: T -> int)
    requires 0 <= lo <= hi <= |x|
    requires StablePermutation(x[lo..hi], m, f)
    ensures StablePermutation(x, x[..lo] + m + x[hi..], f)
    ensures multiset(x[..lo] + m + x[hi..]) == multiset(x)
  {
    var y := x[..lo] + m + x[hi..];
    assert x == x[..lo] + x[lo..hi] + x[hi..];
    forall b ensures Filter(x, f, b) == Filter(y, f, b) {
      FilterAppend(x[..lo] + x[lo..hi], x[hi..], f, b);
      FilterAppend(x[..lo], x[lo..hi], f, b);
      FilterAppend(x[..lo] + m, x[hi..], f, b);
      FilterAppend(x[..lo], m, f, b);
    }
    StablePermutationIsPermutation(x, y, f);
  }

  lemma StablePermutationIsPermutation<T>(s: seq<T>, t: seq<T>, f: T -> int)
    requires StablePermutation(s, t, f)
    ensures multiset(s) == multiset(t)
  {
    forall x ensures multiset(s)[x] == multiset(t)[x] {
      FilterCount(s, f, f(x), x);
      FilterCount(t, f, f(x), x);
      assert Filter(s, f, f(x)) == Filter(t, f, f(x));
    }
  }

  /** Two rearrangements that each keep every class in order keep it in order together. */
  lemma StableTrans<T>(s: seq<T>, t: seq<T>, u: seq<T>, f: T -> int)
    requires StablePermutation(s, t, f) && StablePermutation(t, u, f)
    ensures StablePermutation(s, u, f) && multiset(u) == multiset(s)
  {
    forall b ensures Filter(s, f, b) == Filter(u, f, b) {
      assert Filter(s, f, b) == Filter(t, f, b);
    }
    StablePermutationIsPermutation(s, u, f);
  }

  /** Filtering keeps an order: a sub-sequence of a sorted sequence is sorted. */
  lemma FilterSorted<T>(s: seq<T>, f: T -> int, b: int, g: T -> int)
    requires SortedBy(s, g)
    ensures SortedBy(Filter(s, f, b), g)
  {
    FilterToSorted(s, f, b, g, |s|);
  }

  lemma {:induction false} FilterToSorted<T>(s: seq<T>, f: T -> int, b: int, g: T -> int, k: nat)
    requires k <= |s| && SortedBy(s, g)
    ensures SortedBy(FilterTo(s, f, b, k), g)
  {
    if k > 0 {
      FilterToSorted(s, f, b, g, k - 1);
      FilterToBounded(s, f, b, g, k - 1, g(s[k - 1]));
    }
  }

  /** Whatever bounds every row of s[..k] under g bounds every row FilterTo keeps. */
  lemma {:induction false} FilterToBounded<T>(s: seq<T>, f: T -> int, b: int, g: T -> int, k: nat, hi: int)
    requires k <= |s|
    requires forall i :: 0 <= i < k ==> g(s[i]) <= hi
    ensures forall i :: 0 <= i < |FilterTo(s, f, b, k)| ==> g(FilterTo(s, f, b, k)[i]) <= hi
  {
    if k > 0 {
      FilterToBounded(s, f, b, g, k - 1, hi);
    }
  }

  /**
   Rows whose g-values agree with their f-values under a map h: if a
   rearrangement keeps every f-class in order, it keeps every g-class in order.
   */
  lemma StableCoarsen<T>(s: seq<T>, t: seq<T>, f: T -> int, g: T -> int, h: int -> int)
    requires forall x :: f(x) == h(g(x))
    requires StablePermutation(s, t, f)
    ensures StablePermutation(s, t, g)
  {
    forall k ensures Filter(s, g, k) == Filter(t, g, k) {
      FilterRefine(s, f, g, h(k), k);
      FilterRefine(t, f, g, h(k), k);
      assert Filter(s, f, h(k)) == Filter(t, f, h(k));
    }
  }

  /** When every row of g-value k has f-value c, filtering by c first loses none of them. */
  lemma FilterRefine<T>(s: seq<T>, f: T -> int, g: T -> int, c: int, k: int)
    requires forall x :: g(x) == k ==> f(x) == c
    ensures Filter(Filter(s, f, c), g, k) == Filter(s, g, k)
  {
    FilterToRefine(s, f, g, c, k, |s|);
  }

  lemma {:induction false} FilterToRefine<T>(s: seq<T>, f: T -> int, g: T -> int, c: int, k: int, n: nat)
    requires n <= |s|
    requires forall x :: g(x) == k ==> f(x) == c
    ensures Filter(FilterTo(s, f, c, n), g, k) == FilterTo(s, g, k, n)
  {
    if n > 0 {
      var x := s[n - 1];
      var last := if f(x) == c then [x] else [];
      FilterToRefine(s, f, g, c, k, n - 1);
      FilterAppend(FilterTo(s, f, c, n - 1), last, f, k);
      FilterAppend(FilterTo(s, f, c, n - 1), last, g, k);
      assert Filter(last, g, k) == if g(x) == k then [x] else [] by {
        if f(x) == c {
          assert FilterTo(last, g, k, 0) == [];
        }
      }
    }
  }

  /** The largest g-value among the first k rows; Python's max over them. */
  function MaxTo<T>(s: seq<T>, g: T -> int, k: nat): (r: int)
    requires 0 < k <= |s|
    ensures forall i :: 0 <= i < k ==> g(s[i]) <= r
    ensures exists i :: 0 <= i < k && g(s[i]) == r
  {
    if k == 1 then g(s[0])
    else if g(s[k - 1]) > MaxTo(s, g, k - 1) then g(s[k - 1])
    else MaxTo(s, g, k - 1)
  }

  /** The smallest g-value among the first k rows; Python's min over them. */
  function MinTo<T>(s: seq<T>, g: T -> int, k: nat): (r: int)
    requires 0 < k <= |s|
    ensures forall i :: 0 <= i < k ==> r <= g(s[i])
    ensures exists i :: 0 <= i < k && g(s[i]) == r
  {
    if k == 1 then g(s[0])
    else if g(s[k - 1]) < MinTo(s, g, k - 1) then g(s[k - 1])
    else MinTo(s, g, k - 1)
  }

  /**
   An array whose positions [lo, lo + |mid|) hold `mid` and whose other
   positions hold what `before` held is `before` with that range replaced.
   */
  lemma Assemble<T>(cur: seq<T>, before: seq<T>, lo: int, mid: seq<T>)
    requires |cur| == |before| && 0 <= lo && lo + |mid| <= |cur|
    requires forall p :: lo <= p < lo + |mid| ==> cur[p] == mid[p - lo]
    requires forall p :: 0 <= p < |cur| && !(lo <= p < lo + |mid|) ==> cur[p] == before[p]
    ensures cur == before[..lo] + mid + before[lo + |mid|..]
  {
  }
}

# Sorting routines of the benchmark, in Dafny

The benchmark script sorts the rows of a CSV file by one numeric column with
four hand-written in-place sorts: radix sort, Shell sort, counting sort and
timsort. This project models those four routines and their helpers
(`calc_min_run`, `insertion_sort`, `merge`, `helper_counting_sort`) and proves
what a sort promises: the array ends sorted by the key column and holds exactly
the rows it held. Where the algorithm is stable, the proof also shows that rows
with equal keys keep their input order.

A row is an element of an arbitrary type `T`. The sort column is a function
`key: T -> int`. A Python list that a routine updates in place is an `array<T>`
that the matching method modifies. The local lists `count` and `output` are
sequence values.

Modules:

- `Ordering` (ordering.dfy) holds the shared vocabulary:
  - `SortedBy` (sorted by key);
  - `Filter` (the rows of one key, in order);
  - `StablePermutation` (every key's rows appear in the same order), which implies multiset equality;
  - `Outcome`, the ValueError Python raises on an empty list.
- `Arith` (arith.dfy) holds the Euclidean-division facts used by the run length and the radix digits.
- `Insertion` (insertion.dfy) models `insertion_sort`. The function `InsertionSorted` specifies it.
- `TimSort` (timsort.dfy) models `calc_min_run`, `merge` and `timsort`.
  - The function `Merged` specifies `merge`.
  - `RunsSorted` (rows sorted within every block of a given width) specifies the run loop and the merge passes.
- `ShellSort` (shellsort.dfy) models `shell_sort`.
  - `Gap(i)` is Sedgewick's i-th increment.
  - `Shifted` specifies the inner `while` loop.
  - `GapSorted` (sorted along every chain of step gap) states what one pass achieves.
- `Buckets` (buckets.dfy) models the stable bucket placement that `helper_counting_sort` and `counting_sort` share: count, running sum, backward placement, copy back.
  - Both sorts run the same four loops and differ only in the bucket index.
  - The placement is specified by `Bucketed(s, f, m)`: buckets 0 .. m-1, each holding its rows in input order.
- `CountingSort` (counting.dfy) models `counting_sort`.
- `RadixSort` (radix.dfy) models `radix_sort` and `helper_counting_sort`.

## Model

| member | source | states |
|---|---|---|
| Insertion.InsertAt | benchmark.py:93-97 | when the rows from q on have larger keys than x and the row before q does not, x lands at q, the rows before q stay and those after move one place right |
| Insertion.InsertPermutation | benchmark.py:93-97 | one insertion loses and invents no row: the multiset is that of the prefix plus x |
| Insertion.InsertSorted | benchmark.py:93-97 | inserting a row into sorted rows leaves them sorted |
| Insertion.InsertStable | benchmark.py:94 | the strict `>` test means x never passes a row of equal key, so insertion is stable |
| Insertion.InsertionSortedSorted | benchmark.py:90-97 | insertion_sort leaves its range sorted by key |
| Insertion.InsertionSortedStable | benchmark.py:90-97 | insertion_sort is a stable permutation of its range |
| Insertion.InsertRow | benchmark.py:92-97 | one outer-loop round puts the insertion of arr[i] into left..i and changes nothing outside left..i |
| Insertion.InsertionSort | benchmark.py:90-97 | the rows at left..right become their insertion-sorted order and every other row stays; an empty range changes nothing |
| TimSort.CalcMinRun | benchmark.py:80-88 | the result is n when n < 32, lies in [16, 32] when n >= 32, and is n / 2^k rounded up, where k halvings bring n below 32 |
| TimSort.MergedPermutation | benchmark.py:99-127 | the merge holds exactly the rows of both runs |
| TimSort.MergedSorted | benchmark.py:110-127 | the merge of two sorted runs is sorted |
| TimSort.MergedFilter | benchmark.py:110-117 | for every key, the merge lists the left run's rows of that key before the right run's, each in its own order (ties go left through `<=`) |
| TimSort.MergedStable | benchmark.py:110-127 | merging a sorted left run with a right run is a stable permutation of the two side by side |
| TimSort.MergedFromIsMerged | benchmark.py:110-127 | what the merge loops still have to write after taking i and j rows is the merge of the rest of both runs |
| TimSort.CopyRun | benchmark.py:101-105 | the copy loops build exactly the rows of the run |
| TimSort.MergeHeads | benchmark.py:107-117 | the first loop stops with one run used up, and it has written the first i + j rows of the merge and nothing outside the merged range |
| TimSort.CopyTail | benchmark.py:119-127 | each tail loop copies the rest of its run behind what was written and nothing else |
| TimSort.MergeBack | benchmark.py:107-127 | the three loops write the merge of the copies over the merged range, leaving the rest of the array |
| TimSort.Merge | benchmark.py:99-127 | merge(arr, l, m, r) replaces arr[l..r] by the merge of arr[l..m] and arr[m+1..r] and changes nothing else |
| TimSort.RunsSortedWhole | benchmark.py:138 | once the run size reaches n, block-sorted means sorted |
| TimSort.SortRunStep | benchmark.py:133-135 | sorting the block at start keeps the earlier blocks sorted, keeps a stable permutation and leaves the rows after the block alone |
| TimSort.SortRun | benchmark.py:134-135 | one round of the run loop extends the sorted blocks by the block at start |
| TimSort.SortRuns | benchmark.py:133-135 | after the run loop every block of min_run rows is sorted and the array is a stable permutation of its input |
| TimSort.MergeStep | benchmark.py:140-143 | merging the two halves of block b gives sorted blocks of 2w up to its end, keeps the blocks of w after it, and is a stable permutation |
| TimSort.MergeSkip | benchmark.py:140-142 | when mid == right the last block is already a single sorted run, so skipping the merge is correct |
| TimSort.MergeBlock | benchmark.py:139-143 | one inner-loop round grows the prefix sorted in blocks of 2 * size by one block |
| TimSort.MergePass | benchmark.py:139-143 | a pass turns runs of size rows into runs of 2 * size rows, as a stable permutation |
| TimSort.TimSort | benchmark.py:129-144 | timsort raises ValueError exactly on an empty array; otherwise the array ends sorted and a stable permutation of its input |
| ShellSort.GapValues | benchmark.py:155-158 | the first increments are 1, 5, 19, 41, 109 |
| ShellSort.GapFromEven | benchmark.py:155-158 | closed forms of both branches: 9(q - p) + 1, 16q - 12p + 1 and 36q - 18p + 1 for p = 2^k, q = 2^2k |
| ShellSort.GapIncreasing | benchmark.py:155-158 | each increment is larger than the one before |
| ShellSort.GapMonotone | benchmark.py:155-158 | i < j if and only if Gap(i) < Gap(j) |
| ShellSort.GapAbove | benchmark.py:154-162 | Gap(i) >= i + 1, so the generating loop ends |
| ShellSort.GapsReversed | benchmark.py:163 | the collected increments, reversed, are exactly those not above n, strictly decreasing, each in [1, n], ending in 1 whenever n >= 1 |
| ShellSort.SedgewickGaps | benchmark.py:150-163 | the gap list holds exactly the increments not above n, largest first, strictly decreasing, all in [1, n], non-empty if and only if n >= 1, and its last entry is 1 |
| ShellSort.ShiftedPermutation | benchmark.py:168-175 | the inner loop moves rows and loses none: the result holds the rows of the array with temp in the hole |
| ShellSort.ShiftedFrame | benchmark.py:171-173 | the inner loop writes only at the hole and below it |
| ShellSort.HoleStart | benchmark.py:168-169 | taking out the row at i from rows gap-sorted before i leaves a hole at i |
| ShellSort.HoleStep | benchmark.py:171-173 | one shift moves the hole down by gap and keeps the chain order around it |
| ShellSort.HolePlace | benchmark.py:171-175 | when the loop stops, putting temp in the hole makes the rows up to i gap-sorted |
| ShellSort.ShiftedSorted | benchmark.py:168-175 | the inner loop, started from a hole at i, leaves the rows up to i sorted along every chain of step gap |
| ShellSort.GapInsert | benchmark.py:168-175 | the inner loop and the final write leave exactly Shifted of the old array |
| ShellSort.GapPass | benchmark.py:167-175 | after a pass the whole array is sorted along every chain of step gap and holds the rows it held |
| ShellSort.GapOneSorted | benchmark.py:166-175 | sorted along chains of step 1 is sorted, which is what the last gap, 1, leaves |
| ShellSort.ShellSort | benchmark.py:149-175 | shell_sort leaves the array sorted by key and holding its rows; an empty array stays as it was |
| Buckets.BucketedValues | benchmark.py:63-68 | every row placed by Bucketed has a bucket index in [0, m) |
| Buckets.BucketedFilter | benchmark.py:63-68 | the placement lists, for every bucket below m, the rows of that bucket in input order, and no other rows |
| Buckets.BucketedStable | benchmark.py:63-68 | when every index lies in [0, m), the placement is a stable permutation of the input |
| Buckets.BucketedSorted | benchmark.py:63-68 | the placement is ordered by bucket index |
| Buckets.BucketedLex | benchmark.py:63-68 | rows of one bucket keep their input order, so an input ordered by a second key stays ordered by it within each bucket |
| Buckets.BucketedAt | benchmark.py:58-66 | the q-th row of bucket b sits at the start of bucket b plus q |
| Buckets.CountBuckets | benchmark.py:54-56 | the first loop counts the rows of each bucket |
| Buckets.RunningSum | benchmark.py:58-60 | the running sum turns each count into the end position of its bucket |
| Buckets.RankAt | benchmark.py:63-67 | the row at position k is the Rank(k)-th row of its own bucket |
| Buckets.SlotInRange | benchmark.py:65-67 | the slot `count[index] - 1` of each row lies inside its bucket and within the output |
| Buckets.PlacedIsBucketed | benchmark.py:63-68 | the backward walk fills the output with exactly the bucketed rows |
| Buckets.PlaceBackward | benchmark.py:63-68 | the third loop produces the output Bucketed(s, f, m) |
| Buckets.CopyBack | benchmark.py:71-72 | the last loop copies the output into the array |
| Buckets.BucketPlace | benchmark.py:48-72 | the four loops rearrange the array into Bucketed of its old contents |
| CountingSort.IndexInRange | benchmark.py:184-198 | every index `key - min` lies in [0, max - min + 1) |
| CountingSort.CountingSortedSorted | benchmark.py:180-203 | counting sort leaves the rows sorted by key |
| CountingSort.CountingSortedStable | benchmark.py:197-200 | counting sort is a stable permutation of the rows |
| CountingSort.CountingSort | benchmark.py:180-203 | counting_sort raises ValueError, changing nothing, on an empty array; otherwise the array ends as CountingSorted of its input, sorted and a stable permutation |
| RadixSort.NumDigits | benchmark.py:37 | the digit count d of m is at least 1, m < 10^d, and 10^(d-1) <= m when d > 1 |
| RadixSort.DigitInRange | benchmark.py:55 | every index `int((key + offset) / exp) % 10` lies in [0, 10) |
| RadixSort.HelperCountingSort | benchmark.py:48-72 | one pass is the bucket placement by the digit of weight exp |
| RadixSort.RunPasses | benchmark.py:39-42 | the pass loop runs max_digits passes with exp = 1, 10, 100, ... |
| RadixSort.PassStable | benchmark.py:48-72 | one pass keeps rows of equal key in their order |
| RadixSort.PassesStable | benchmark.py:39-42 | any number of passes is a stable permutation of the input |
| RadixSort.DigitStep | benchmark.py:55 | ordering by the digit of weight e, then by the part below e, orders by the part below 10e |
| RadixSort.PassOrder | benchmark.py:39-42 | a pass over rows ordered by the part below e of the shifted key orders them by the part below 10e |
| RadixSort.PassesOrder | benchmark.py:39-42 | after d passes the rows are ordered by the part below 10^d of the shifted key |
| RadixSort.PassesSorted | benchmark.py:39-42 | when every shifted key has at most d digits, d passes sort by key |
| RadixSort.RadixSortedStable | benchmark.py:27-42 | radix_sort as written is a stable permutation of its input |
| RadixSort.RadixSortedNonNegative | benchmark.py:27-42 | radix_sort as written sorts every list with no negative key |
| RadixSort.RadixSortAsWritten | benchmark.py:27-46 | radix_sort as written: ValueError on an empty array; otherwise the passes over the digits of the largest absolute key, a stable permutation, sorted when no key is negative |
| RadixSort.RadixCounterexample | benchmark.py:30-42 | radix_sort as written leaves [9, -1] unsorted |
| RadixSort.RadixSortedFixedSorted | benchmark.py:27-42 | with as many passes as the largest shifted key has digits, radix sort sorts every list, negative keys included |
| RadixSort.RadixSortedFixedStable | benchmark.py:27-42 | the corrected radix sort is a stable permutation of its input |
| RadixSort.RadixSort | benchmark.py:27-42 | corrected radix_sort: ValueError on an empty array; otherwise the array ends sorted and a stable permutation of its input |

## Left out

- Reading and writing CSV files (benchmark.py:8-20), the timing driver (benchmark.py:208-219) and the script tail (benchmark.py:222-240) are left out. They are file I/O, the clock and printing.
- The sort column is the function `key: T -> int`. The model does not cover parsing a cell with `float(...)`, non-integer, infinite or NaN keys, or floating-point rounding.
- counting_sort's `int(max - min + 1)` and `int(key - min)` are exact for integer keys, so no truncation is modelled there.
- radix_sort's `math.floor(math.log10(max_num)) + 1` is modelled as the exact decimal digit count `NumDigits`. Rounding of `log10` for very large floats is not modelled.
- The `OverflowError` handler of radix_sort (benchmark.py:43-46) prints and re-raises. With integer keys no overflow occurs, so the handler is not modelled.
- An exception is modelled as the result `ValueError`. This covers Python's `max` of an empty list in radix_sort and counting_sort, and `range(0, 0, 0)` in timsort.
- calc_min_run's bit operations `r |= n & 1` and `n >>= 1` are modelled as `% 2` and `/ 2` on a non-negative n.
- The nested loops are split into helper methods. This does not change the order of operations:
  - timsort's run loop and merge pass;
  - merge's three loops;
  - shell_sort's inner loop;
  - the four loops of the bucket placement.
- The ghost `shifts` out-parameter of TimSort.CalcMinRun names the number of halvings. It exists only to state the result.
- ShellSort.ShellSort: the model proves that each pass leaves the array sorted along chains of its own gap, and that the last pass (gap 1) leaves it sorted. It does not prove that a later pass keeps the earlier gap-sortedness. The result does not depend on that theorem.
- RadixSort.RadixSortAsWritten: sortedness is stated only for lists with no negative key. The source as written does not sort every list; see Findings.

## Findings

| source | as written | input that shows it | evidently intended | confidence | as-written member | corrected member |
|---|---|---|---|---|---|---|
| benchmark.py:30-37 | the number of passes is the digit count of the largest absolute key before the offset, but the passes bucket the keys after adding the offset, which can have more digits | keys [9, -1]: the offset is 1, the shifted keys are 10 and 0, max_num is 9, so one pass runs on the units digits (0 and 0) and the list stays [9, -1] | take the digit count of the largest shifted key, max + offset | not executed | RadixSort.RadixSortAsWritten, RadixSort.RadixCounterexample | RadixSort.RadixSort, RadixSort.RadixSortedFixedSorted |

# Parallel merge sort: a verified model

The program sorts a vector of integers with top-down merge sort in two ways.
`merge_sort_st` recurses on the inclusive range `[l, r]`, splitting at
`m = l + (r - l) / 2` and merging the sorted halves with `merge`.
`merge_sort_mt` runs the same recursion, but at each level it may run the two
halves as concurrent tasks. It does so when the range has more than
`SEQUENTIAL_THRESHOLD` (1000) elements and the shared active-task counter is
below the platform's hardware thread count. Forking adds 2 to the counter,
waits for both tasks and subtracts 2 again. `main` sorts one copy of a random
vector with each strategy.

The model is written in Dafny in three modules.

- `Ordering` (`ordering.dfy`) holds what "sorted" and "stable" mean, and the `Identity` key of plain integers.
  - `SortedBy(s, key)` says `s` is non-decreasing by key.
  - `WithKey(s, key, k)` is the subsequence of elements whose key is `k`.
  - `SameKeyOrder(s, t, key)` says that subsequence is the same in `s` and
    `t` for every `k`. In other words, `s` is a stable rearrangement of `t`.
  - `SortedSameKeyOrderUnique` proves that a stable sort has exactly one
    outcome.
- `Merging` (`merge.dfy`) is `merge`.
  - `MergeFrom(left, right, key, i, j)` is a reference definition of what the
    three loops write once `i` elements of the left buffer and `j` of the
    right one are used. `MergeSeqs` is the whole merge.
  - `Merge` is the in-place merge. Its three loops are the methods
    `MergeFronts` (whose body is `FrontStep`) and `CopyRun`. They write into
    a sequence value, one position at a time.
- `MergeSort` (`merge_sort.dfy`) is `merge_sort_st` (`MergeSortSt`) and
  `merge_sort_mt` (`MergeSortMt`).
  - The fork decision is the predicate `ShouldFork`. It is evaluated on a
    counter reading supplied by the parameter `observe`.
  - `MtMatchesSt` proves the two strategies agree.
  - `CompareStrategies` is `main`'s use of them.

The vector is a `seq` value. Every operation takes it as a parameter and
returns the updated one. Elements have any type `T` with an integer `key`.
The program's own case is `int` with the `Identity` key. The generic form
makes stability observable: two equal integers cannot be told apart, but two
elements with the same key can.

Two tasks sort disjoint halves of one shared vector. The model runs both on
the same input snapshot `a`. It joins the results by taking positions up to
`m` from the left task and the rest from the right task. `JoinTasks` proves
this equals running the halves one after the other.

Each call's counter is an integer passed in and returned. The counter value a
call reads (`active_threads.load()`, an atomic load separate from the
`fetch_add` that follows it) is `observe(l, r, counter)`. This is an
arbitrary function, because other tasks running at the same time change the
shared counter before the `load()`. Every property of `MergeSortMt` holds for every
`observe`, and so for every sequence of forking decisions.

## Model

| member | source | states |
|---|---|---|
| Merging.MergeFrom | merge_sort_paralle.cpp:23-45 | Once `i` left and `j` right elements are used, the loops write exactly the remaining `(nl - i) + (nr - j)` elements. |
| Merging.MergeMultiset | merge_sort_paralle.cpp:23-45 | What the loops write from state `(i, j)` on is exactly the multiset of the remaining elements of both buffers. Nothing is lost or duplicated. |
| Merging.MergeSeqsMultiset | merge_sort_paralle.cpp:20-45 | The merged run is a permutation of the two runs copied into `left` and `right`. |
| Merging.MergeKeysAtLeast | merge_sort_paralle.cpp:24-45 | A lower bound on every remaining element of both buffers bounds every element written from then on. |
| Merging.MergeSorted | merge_sort_paralle.cpp:24-45 | If both buffers are sorted, what the loops write is sorted. The smaller front is taken at each step. |
| Merging.MergeStable | merge_sort_paralle.cpp:25-30 | For every key, the remaining left elements with that key are written first, in order, then the right ones. Ties go left (`<=`), and a right element goes first only when it is strictly smaller. |
| Merging.MergeSortsStably | merge_sort_paralle.cpp:16-46 | The merge of two sorted runs is sorted and is a stable rearrangement of their concatenation. |
| Merging.MergeOrderedFrom | merge_sort_paralle.cpp:24-39 | While no remaining left element exceeds the first right one, every comparison takes the left element. The output is the rest of `left` followed by `right`. |
| Merging.MergeOrderedRuns | merge_sort_paralle.cpp:16-46 | Merging runs whose concatenation is already sorted leaves them as they are. |
| Merging.TakeLeft | merge_sort_paralle.cpp:25-27 | When `left[i] <= right[j]`, `left[i]` is the next element of the merge. |
| Merging.TakeRight | merge_sort_paralle.cpp:28-30 | When `right[j] < left[i]`, `right[j]` is the next element of the merge. |
| Merging.FrontStep | merge_sort_paralle.cpp:24-32 | One iteration of the first loop writes the next element of the merge at `k = l + i + j`. It leaves every other position as it was and advances `i + j` by one. |
| Merging.MergeFronts | merge_sort_paralle.cpp:23-33 | The first loop ends with one buffer used up. Positions before `l` and from `k` on are unchanged. `arr[l..k)` followed by the rest of both buffers is the whole merge. |
| Merging.FrontsDone | merge_sort_paralle.cpp:24-45 | After the first loop, the written part followed by the two remainders is the whole merge. At most one remainder is non-empty. |
| Merging.CopyRun | merge_sort_paralle.cpp:35-45 | A copy loop appends `src[from..]` to what is written, ends at `k + (n - from)` and changes nothing outside. |
| Merging.MergedRange | merge_sort_paralle.cpp:16-46 | A range holding the merge of its two halves is a permutation of them. If the halves were sorted, it is sorted and stable. |
| Merging.Merge | merge_sort_paralle.cpp:16-46 | `merge` writes exactly `arr[l..r]` and leaves the rest unchanged. The range becomes the reference merge of `arr[l..m]` and `arr[m+1..r]` and keeps its multiset. If both runs were sorted, the range is sorted and stable. |
| MergeSort.Mid | merge_sort_paralle.cpp:88 | For `l < r`, `l <= m < r`, so both halves are non-empty and the recursion shrinks. The left half has the extra element when the length is odd. |
| MergeSort.SortedRangeStays | merge_sort_paralle.cpp:86-97 | A range that is already sorted, such as a single element, is correctly sorted by leaving it alone. |
| MergeSort.SortsRangeUnique | merge_sort_paralle.cpp:86-97 | Sorting a range stably has exactly one outcome. |
| MergeSort.SortedInputUnchanged | merge_sort_paralle.cpp:86-97 | Sorting an already sorted range changes nothing. |
| MergeSort.SortIdempotent | merge_sort_paralle.cpp:86-97 | Sorting a range twice gives what sorting it once gives. |
| MergeSort.ComposeHalves | merge_sort_paralle.cpp:91-95 | Sorting `[l, m]`, then `[m+1, r]`, then merging, sorts `[l, r]` stably and leaves the rest alone. |
| MergeSort.MergeSortSt | merge_sort_paralle.cpp:86-97 | `l >= r` is a no-op. For `0 <= l <= r < size`, the range ends sorted, a stable permutation of its contents, with everything outside it untouched. |
| MergeSort.ShouldFork | merge_sort_paralle.cpp:55 | A call forks only when the range has more than `threshold` elements and the counter reading, converted to unsigned for the comparison, is below `hardware_concurrency()`. So a small range, a negative reading or a platform reporting zero threads never forks. |
| MergeSort.JoinTasks | merge_sort_paralle.cpp:59-70 | Two tasks sorting the disjoint halves from the same starting vector give, once joined, what sorting the halves one after the other gives. |
| MergeSort.MergeSortMt | merge_sort_paralle.cpp:49-83 | Same postcondition as `merge_sort_st`, whatever the counter readings. The counter ends where it started: +2 before forking, -2 after both joins. |
| MergeSort.MtMatchesSt | merge_sort_paralle.cpp:49-97 | The forking sort leaves the vector exactly as the single-threaded sort does, for every threshold, thread count and counter reading, and returns the counter to its entry value. |
| MergeSort.SortedIntsUnique | merge_sort_paralle.cpp:86-97 | For plain integers, being sorted and being a permutation fix the outcome. |
| MergeSort.CompareStrategies | merge_sort_paralle.cpp:117-127 | Sorting copies of the same vector over `[0, size - 1]` with the counter at 0 gives the same sorted permutation both ways, and the counter ends at 0. |
| MergeSort.SortExample | merge_sort_paralle.cpp:49-97 | With the threshold lowered to 2, both strategies sort `[5, 3, 8, 1, 9, 2]` into `[1, 2, 3, 5, 8, 9]`, and the counter ends at 0. |
| Ordering.SortedSameKeyOrderUnique | merge_sort_paralle.cpp:86-97 | Two sorted sequences with the same per-key order are equal. This is why both strategies agree. |

## Left out

- Threads, `std::async` and `std::future::get`: forking is modelled by running both halves on the same snapshot and joining the results (lines 59-70). The vector is shared, but the tasks touch disjoint ranges, so nothing is lost.
- `std::atomic` operations: the counter is an integer threaded through the calls. The atomic `load()` at line 55 and the `fetch_add` at line 56 are separate operations, and other tasks running at the same time change the counter, so the value the comparison at line 55 reads is the `observe` parameter.
- `std::thread::hardware_concurrency()`: a platform query. It is the `hardwareConcurrency` field of `Config`.
- The comparison at line 55 is between a signed `int` and an `unsigned`. `ShouldFork` models it as `0 <= observed < hardwareConcurrency`, so a negative reading never forks.
- Exceptions from allocating the `left`/`right` buffers or from starting a task are not modelled. No scope guard releases the two slots when `get()` at lines 69-70 rethrows, so the `fetch_sub` at line 72 would be skipped and the counter would not return to its entry value.
- `generate_random_array`, `rand`, `srand` and `time` (lines 99-110): random input. `CompareStrategies` takes any vector.
- `main`'s timing with `std::chrono` and its console output (lines 119-133): clocks, floating point and I/O.
- Integer width: indices, the counter and `r - l + 1` are unbounded integers. The program uses 32-bit `int`, which cannot overflow for vectors of fewer than 2^31 elements.
- The `size_t` expression `arr.size() - 1` (lines 121, 127) is modelled as `|arr| - 1`. For an empty vector the program converts the wrapped value to `int -1`, and both sorts then see an empty range, as in the model.
- Element type: the program sorts `int` with `<=`. The model sorts any type by an integer key. `CompareStrategies` and `SortExample` instantiate it with `int` and the `Identity` key.

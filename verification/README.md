# Verified model of boost.asynchronous algorithms

boost.asynchronous builds its algorithms from fork-join tasks: a task cuts its range, posts subtasks and a
callback that joins their results. This project models the algorithms whose correctness is decided by their own
code and proves it for all inputs, for every cutoff with which the recursion ends, and for all orders in which the
tasks can run.

| module | what it models |
|---|---|
| `PartitionProtocol`, `PartitionInvariant`, `PartitionSteps`, `PartitionRuns`, `PartitionProgress`, `PartitionFinish`, `ParallelPartition` | the concurrent in-place partition: a growing tree of workers that claim blocks of one array through atomic counters, as a transition system with one atomic access per step; then the final callback, on the array |
| `PartitionLimits`, `PartitionTooLong`, `PartitionLeftover` | what becomes of the partition when a claim does not fit the `int` it is stored in, and exactly when that can happen |
| `KmpTable`, `KmpMatcher`, `ParallelKmp` | Knuth-Morris-Pratt: failure table, matcher, overlapping chunks |
| `ForkJoin` | jobs that write to a shared output, and every interleaving of their writes |
| `ParallelMerge`, `ParallelSort`, `SortRuns`, `SortReads` | the divide-and-conquer merge, and the merge sort that moves data between the range and a buffer: as methods, as jobs with all their interleavings, and as tasks that read the memory as they find it |
| `Median`, `PartialSort` | the pivot and the budgeted partial sort |
| `Grouping`, `GroupBy`, `FindAll`, `ParallelScan`, `Flattening` | grouping, grouped transform, filtering, the two-phase scan, and flattening as the inverse |
| `CopyIf`, `PartitionCopy` | the two-phase copies |
| `AnyOf`, `AllOf` | the completion protocols, one shared access per step |
| `IsPartitioned` | the three-state summary and its join |
| `Cutoff`, `Expected`, `Ordering`, `Filtering`, `Tally` | shared definitions |

Two kinds of statement recur. Where tasks share mutable state that others read (partition, any_of, all_of), a run is
any schedule of atomic steps and an invariant is proved for every reachable state. Where tasks only write to
places of their own (merge, sort, group_by, scan, flatten, copy_if, partition_copy), a run is any interleaving of their writes: the
places are proved disjoint, so `ForkJoin.EveryRunPatches` gives one result for all runs. In the merge sort a task also reads
what its subtasks wrote; there tasks that read the memory at the moment they run, while others write, are proved to make exactly
the writes of such a run (`SortReads.ReadsAsPlanned`). Beside it, the recursive code is
written as a method on arrays with its two subtasks in either order and proved to leave the same result.

## What the code does that its documentation does not say

- `parallel_partial_sort` means to sort the front directly when the pivot is close enough (parallel_partial_sort.hpp:97-98),
  but subtracts the wrong way round; as a `size_t` the difference is larger than any fifth of a size, so that branch is never
  taken (`PartialSort.NeverCloseEnough`). Only the budget ends the recursion: every call hands more than four times the range to
  `parallel_partition` and then sorts what is left of it in full (`PartialSort.ParallelPartialSort`). The result is right
  whichever branch is taken, and that is proved too.
- `parallel_partial_sort` with `middle == beg` can reach an empty range, where a task posts itself again for ever, and before
  each time `median_of_medians` reads the first element, which is not there (parallel_partition.hpp:54-55). The budget
  shrinks in every call exactly when `middle > beg` (`PartialSort.BudgetShrinks`, with a family of such inputs in
  `PartialSort.EquivalentElementsStall`).
- With a cutoff below 1 `find_cutoff` never returns the end of a nonempty range, so recursions that rely on it alone never
  end on nonempty ranges: they end exactly for cutoffs of at least 1 (`Cutoff.PositiveCutoff`). `parallel_kmp` also ends for smaller cutoffs when the
  needle has two or more elements and iterators are random access (`ParallelKmp.EndsExactly`); `parallel_merge` and
  `parallel_grouped_transform` end for every cutoff.
- `parallel_kmp` copies the initial functor into every subtask; with a functor that collects indices the parallel result is the
  sequential one exactly when it starts empty (`ParallelKmp.ListMergeable`). Otherwise its first entries are in the result once for
  every leaf of the recursion (`ParallelKmp.ListSearch`).
- `all_of` sets one exception for each failing continuation, so more than one when several fail, and never completes for an
  empty vector (`AllOf.EveryRunCompletes`).
- `any_of` leaves its flag default-initialised. The model takes the initial flag as a parameter: with the flag set, no value
  is ever set (`AnyOf.EveryRunCompletes`).
- `m_size` has 64 bits but a claim is stored in an `int`. With B the block size and T the initial number of threads, no
  schedule ever loses anything in such a conversion exactly when n < 2^31 and T * B - ((n - 1) % B + 1) <= 2^31
  (`PartitionLimits.FitsExactly`, `PartitionLimits.FitsInNumbers`). Up to 1000 threads always fit, and 1001 do not for the
  longest range (`PartitionLimits.ThousandIsTheLimit`). Otherwise some schedule lets `m_size` fall below -2^31, where the
  wrapped value is taken for a whole block although everything is claimed (`PartitionLimits.ClaimsTwice`); a worker can then
  read past the end of the range (`PartitionLimits.ReadsPastTheEnd`, `PartitionLimits.SafeExactly`). From 2^31 elements
  on claims are read as negative numbers: as long as every worker reads one of those, nothing is partitioned and position 0 is
  returned (`PartitionTooLong.NothingIsPartitioned`), and otherwise too at least one block is never claimed
  (`PartitionLeftover.SomeBlockIsLeft`).
- The scan algorithms reduce every block from a default-constructed value, so they agree with the sequential scan for all
  inputs exactly when that value is neutral for the operation (`ParallelScan.AgreesExactly`), and the total they return does
  not include the initial value.

## Model

All paths are relative to the repository; `T`, predicates and comparators are arbitrary.

| member | source | states |
|---|---|---|
| Cutoff.PositiveCutoff | boost/asynchronous/algorithm/detail/safe_advance.hpp:50-85 | every nonempty range is cut into two smaller ones, or is a leaf, exactly when the cutoff is at least 1, for every kind of iterator; otherwise no nonempty range is a leaf |
| Cutoff.RandomAccessCut | boost/asynchronous/algorithm/detail/safe_advance.hpp:50-57 | with random access a range is a leaf exactly when it has at most n elements, and is cut in the middle otherwise |
| Cutoff.SequentialCut | boost/asynchronous/algorithm/detail/safe_advance.hpp:58-64 | with other iterators the first part has n elements or all there are, and none for n <= 0 |
| Cutoff.IntegralCut | boost/asynchronous/algorithm/detail/safe_advance.hpp:71-87 | the same as random access for integers, with a cutoff of 1 taken for 2 |
| Cutoff.AdvanceStops | boost/asynchronous/algorithm/detail/safe_advance.hpp:20-32 | the nearer one of the n-th next position and the end |
| Cutoff.AdvanceByStep | boost/asynchronous/algorithm/detail/safe_advance.hpp:33-40 | the loop for input iterators gets to the same place, and does not move for a negative n |
| Cutoff.LeavesTile | boost/asynchronous/algorithm/detail/safe_advance.hpp:50-87 | the leaves of a whole recursion cover the range, and none has more elements than the cutoff |
| Cutoff.LeavesAreHalfFull | boost/asynchronous/algorithm/detail/safe_advance.hpp:50-57 | with random access no leaf of a range that is cut has less than half the cutoff |
| Cutoff.LeavesAreFull | boost/asynchronous/algorithm/detail/safe_advance.hpp:58-64 | with other iterators every leaf but the last has exactly as many elements as the cutoff |
| PartitionSteps.Safety | boost/asynchronous/algorithm/parallel_partition.hpp:214-247 | in every reachable state the elements that the next step of any task reads or writes lie inside the range |
| PartitionSteps.SizeFits | boost/asynchronous/algorithm/parallel_partition.hpp:194-195 | under the exact bound, whatever the workers have already subtracted, no value of m_size, m_lmove or m_rmove loses anything when it is stored in an int |
| PartitionSteps.PlaceKeepsCounts | boost/asynchronous/algorithm/parallel_partition.hpp:198-212 | taking a claimed block from either end keeps the two ends apart and the accounts of claimed, in-flight and true elements |
| PartitionSteps.PlaceKeepsOwned | boost/asynchronous/algorithm/parallel_partition.hpp:198-212 | a newly placed block was owned by nobody; afterwards every claimed position has at most one owner |
| PartitionSteps.ExchangeKeeps | boost/asynchronous/algorithm/parallel_partition.hpp:231-232 | exchanging a false element of one's left block with a true one of one's right block keeps the whole invariant |
| PartitionSteps.SplitKeeps | boost/asynchronous/algorithm/parallel_partition.hpp:92-105 | posting two subtasks keeps the invariant; each split uses up one token of m_open_threads |
| PartitionSteps.JoinKeeps | boost/asynchronous/algorithm/parallel_partition.hpp:111-119 | splicing the rest lists of two finished subtasks keeps the invariant; m_rtrue, which it does not touch, still accounts for all true elements of finished blocks |
| PartitionSteps.MergeKeeps | boost/asynchronous/algorithm/parallel_partition.hpp:135-154 | every step of neutralising left rests against right rests keeps the invariant |
| PartitionSteps.PairKeeps | boost/asynchronous/algorithm/parallel_partition.hpp:120-134 | refilling a side from its list, or returning what is left, keeps the invariant; a returned pair has an empty list |
| PartitionSteps.StepKeeps | boost/asynchronous/algorithm/parallel_partition.hpp:87-252 | main invariant: whichever task runs next, unless a conversion to int loses something in that step, 0 <= lmove <= rmove <= n, the claim equation, unique ownership, settled positions, the count of true elements, the token and size accounts and the task tree are kept |
| PartitionRuns.StartOk | boost/asynchronous/algorithm/parallel_partition.hpp:258-270 | the initial shared data satisfies the invariant for the number of threads that the constructor settles on |
| PartitionRuns.StartCounters | boost/asynchronous/algorithm/parallel_partition.hpp:258-270 | as many tokens as threads were asked for, from 10000 elements on and if there are as many elements, otherwise one; blocks of a thousandth of the range, but at least 1000 |
| PartitionRuns.UsualSizesFit | boost/asynchronous/algorithm/parallel_partition.hpp:260-270 | no claim is truncated for any range below 2^31 elements with at most 1000 threads |
| PartitionRuns.RunKeeps | boost/asynchronous/algorithm/parallel_partition.hpp:87-252 | when the range and the threads fit, the invariant holds after every schedule of steps, and the elements are a permutation of the input |
| PartitionRuns.OwnersAreUnique | boost/asynchronous/algorithm/parallel_partition.hpp:192-212 | no position is owned by two tasks, on either side |
| PartitionRuns.StepIsLocal | boost/asynchronous/algorithm/parallel_partition.hpp:214-247 | no data race: a step neither depends on nor changes elements outside the blocks its task owns |
| PartitionRuns.NeverStuck | boost/asynchronous/algorithm/parallel_partition.hpp:104-172 | no deadlock: until the root task is done, some task can run |
| PartitionRuns.FinishedState | boost/asynchronous/algorithm/parallel_partition.hpp:192-252 | when the root task is done the two ends have met, m_rtrue is the number of true elements, and its rest lists cover exactly the unsettled positions, one list being empty |
| PartitionProgress.StepProgress | boost/asynchronous/algorithm/parallel_partition.hpp:87-252 | every step of any task decreases one measure, so no schedule goes on for ever |
| PartitionProgress.MeasureBounded | boost/asynchronous/algorithm/parallel_partition.hpp:87-252 | that measure is bounded below in every reachable state |
| PartitionLimits.FitsInNumbers | boost/asynchronous/algorithm/parallel_partition.hpp:258-270 | the condition is one that a caller can compute from the length and the number of threads |
| PartitionLimits.ThousandIsTheLimit | boost/asynchronous/algorithm/parallel_partition.hpp:258-270 | 1000 threads fit the longest range below 2^31 elements, 1001 do not |
| PartitionLimits.AllGathered | boost/asynchronous/algorithm/parallel_partition.hpp:92-105 | when all workers stand before their first claim there is one more of them than there were tokens |
| PartitionLimits.TooManyThreads | boost/asynchronous/algorithm/parallel_partition.hpp:192-195 | when the condition fails below 2^31 elements, a state is reachable in which m_size is below -2^31 and a worker is about to claim |
| PartitionLimits.TooLong | boost/asynchronous/algorithm/parallel_partition.hpp:194-195 | from 2^31 elements on a state is reachable in which the first claim does not fit an int |
| PartitionLimits.FitsExactly | boost/asynchronous/algorithm/parallel_partition.hpp:192-212 | no schedule makes any conversion to int lose anything exactly when the condition holds |
| PartitionLimits.ClaimsTwice | boost/asynchronous/algorithm/parallel_partition.hpp:194-212 | otherwise, below 2^31 elements, some schedule makes the two ends overlap by a whole block |
| PartitionLimits.ClaimsOnceExactly | boost/asynchronous/algorithm/parallel_partition.hpp:192-212 | below 2^31 elements, no schedule lets the two ends cross exactly when the condition holds |
| PartitionLimits.ReadsPastTheEnd | boost/asynchronous/algorithm/parallel_partition.hpp:194-221 | otherwise, below 2^31 elements that are all true, some schedule makes a worker read the element after the last one |
| PartitionLimits.SafeExactly | boost/asynchronous/algorithm/parallel_partition.hpp:192-252 | below 2^31 elements, no predicate and no schedule make any task access an element outside the range exactly when the condition holds |
| PartitionTooLong.SizeTooLarge | boost/asynchronous/algorithm/parallel_partition.hpp:194-195 | with 2^31 + 1000 * threads elements or more, every claim of every worker reads a value of at least 2^31 |
| PartitionTooLong.NothingIsPartitioned | boost/asynchronous/algorithm/parallel_partition.hpp:192-252 | then, below 2^32 elements and for every schedule, no element is moved or claimed, the callback gets empty rests and a count of 0, and position 0 is right only when no element is true |
| PartitionLeftover.ReadTakes | boost/asynchronous/algorithm/parallel_partition.hpp:194-196 | a worker that reads a value less than a block above 2^31 takes nothing; below that a worker takes what is left, up to a block; from -2^31 to 0 it takes nothing |
| PartitionLeftover.SomeBlockIsLeft | boost/asynchronous/algorithm/parallel_partition.hpp:192-252 | from 2^31 elements on, unless m_size can fall below -2^31: in every run that comes to its end without leaving the range, the two ends are at least a block apart and nobody has claimed what lies between |
| PartitionLeftover.UsualThreadsStayAbove | boost/asynchronous/algorithm/parallel_partition.hpp:258-270 | up to 1000 threads m_size never falls below -2^31, for every length |
| PartitionFinish.ClipMeaning | boost/asynchronous/algorithm/parallel_partition.hpp:324-341 | clipping rests at the split keeps exactly their positions at or above it on the right, and below it on the left |
| PartitionFinish.ClippedRests | boost/asynchronous/algorithm/parallel_partition.hpp:319-341 | after clipping and adding the stretch between the ends' meeting point and the split, every misplaced element lies in a rest of its side |
| PartitionFinish.Neutralise | boost/asynchronous/algorithm/parallel_partition.hpp:359-365 | the inner loop permutes the array and leaves misplaced elements only in what remains of the two rests, one of which it uses up |
| PartitionFinish.DrainRests | boost/asynchronous/algorithm/parallel_partition.hpp:343-366 | the outer loop ends with one side used up and the same claim about misplaced elements |
| PartitionFinish.NothingOutstanding | boost/asynchronous/algorithm/parallel_partition.hpp:343-368 | as many false elements are misplaced on the left as true ones on the right, so when one side is used up, so is the other |
| PartitionFinish.FinishPartition | boost/asynchronous/algorithm/parallel_partition.hpp:315-368 | the final callback partitions the array at m_rtrue and permutes it |
| ParallelPartition.Partition | boost/asynchronous/algorithm/parallel_partition.hpp:292-396 | total correctness under every scheduler: all true elements before all false ones, a permutation of the input, and the result is the number of true elements |
| KmpTable.StrongInherits | boost/asynchronous/algorithm/parallel_kmp.hpp:54-57 | when the two elements agree, copying the candidate's entry is exact and the candidate grows by one |
| KmpTable.FallBack | boost/asynchronous/algorithm/parallel_kmp.hpp:61-62 | falling back through the strong table skips only borders that cannot be extended |
| KmpTable.ShortenCandidate | boost/asynchronous/algorithm/parallel_kmp.hpp:60-63 | the do-while ends with the longest border of the next prefix, with at most one comparison per position given up |
| KmpTable.BuildFailureFunction | boost/asynchronous/algorithm/parallel_kmp.hpp:45-68 | every entry is the longest proper border followed by a different element, or -1; the last one is the longest border of the needle; at most 2m comparisons. An empty needle gives the one-entry table 0 |
| KmpMatcher.AfterMismatch | boost/asynchronous/algorithm/parallel_kmp.hpp:101-111 | a shift after a mismatch passes over no occurrence, including the case -1 |
| KmpMatcher.AfterMatch | boost/asynchronous/algorithm/parallel_kmp.hpp:94-99 | a shift after a full match passes over no occurrence but the one reported, overlapping ones included |
| KmpMatcher.OccurrencesMeaning | boost/asynchronous/algorithm/parallel_kmp.hpp:82-113 | the list of occurrences holds exactly the positions at which the needle occurs, in strictly increasing order |
| KmpMatcher.Match | boost/asynchronous/algorithm/parallel_kmp.hpp:82-113 | the functor is called with exactly that list, and there are at most twice as many comparisons as elements in the chunk |
| ParallelKmp.ChunksCover | boost/asynchronous/algorithm/parallel_kmp.hpp:147-163 | two chunks that overlap by needle size minus one contain every occurrence exactly once, with its global index, in order |
| ParallelKmp.EndsExactly | boost/asynchronous/algorithm/parallel_kmp.hpp:147-183 | both subtasks of every task search a shorter chunk exactly when the cutoff is at least 1, or the needle has two elements and access is random |
| ParallelKmp.Search | boost/asynchronous/algorithm/parallel_kmp.hpp:135-190 | whichever subtask runs first, a leaf reports all occurrences of its chunk to the functor it was given, whatever functor that is; with one that can be merged every task does |
| ParallelKmp.MergeableSearch | boost/asynchronous/algorithm/parallel_kmp.hpp:147-183 | merging the reports of all leaves gives the report of all occurrences in order |
| ParallelKmp.Kmp | boost/asynchronous/algorithm/parallel_kmp.hpp:204-217 | the chunked search gives what one matcher over the whole haystack gives: for every functor when the haystack is one leaf, and for functors that can be merged with every cutoff for which it ends |
| ParallelKmp.ListMergeable | boost/asynchronous/algorithm/parallel_kmp.hpp:167-182 | merging reports that all started from a copy of the initial functor is right for an index list exactly when it starts empty |
| ParallelKmp.KmpIndices | boost/asynchronous/algorithm/parallel_kmp.hpp:204-217 | the result holds exactly the positions of the needle in the haystack, strictly increasing |
| ParallelKmp.ListSearch | boost/asynchronous/algorithm/parallel_kmp.hpp:147-183 | with an index list that starts with any entries, the result has every occurrence once and those entries once for every leaf |
| ParallelKmp.KmpCollect | boost/asynchronous/algorithm/parallel_kmp.hpp:204-217 | the same of the whole search; with a single leaf the occurrences follow the entries in order |
| ForkJoin.EveryRunAgrees | boost/asynchronous/algorithm/parallel_merge.hpp:83-104 | all interleavings of subtasks that write to different places leave the same output as running one after the other |
| ForkJoin.InOrderIsRun | boost/asynchronous/algorithm/parallel_merge.hpp:83-104 | running one subtask after the other is one of the interleavings |
| ForkJoin.EveryRunPatches | boost/asynchronous/algorithm/parallel_merge.hpp:83-104 | the output of every interleaving is the input with exactly the written places replaced |
| ParallelMerge.LowerBound | boost/asynchronous/algorithm/parallel_merge.hpp:79 | the first position that is not less than the pivot |
| ParallelMerge.PivotSeparates | boost/asynchronous/algorithm/parallel_merge.hpp:78-82 | the middle element separates what the two subtasks merge |
| ParallelMerge.PivotPlaced | boost/asynchronous/algorithm/parallel_merge.hpp:78-82 | the middle element of the longer range is stored at its final place: after half of its own range and the elements of the other one that are less |
| ParallelMerge.MergedPermutes | boost/asynchronous/algorithm/parallel_merge.hpp:35-105 | what the task tree writes is a permutation of both inputs, for every cutoff |
| ParallelMerge.MergedSorted | boost/asynchronous/algorithm/parallel_merge.hpp:35-105 | and it is sorted, also when the two ranges are exchanged |
| ParallelMerge.SmallMergeStable | boost/asynchronous/algorithm/parallel_merge.hpp:43-45 | up to the cutoff equivalent elements keep their order, those of the first range first |
| ParallelMerge.CutMergeIsNotStable | boost/asynchronous/algorithm/parallel_merge.hpp:56-67 | a longer second range is exchanged with the first, so its equivalent elements come first |
| ParallelMerge.SameLengthKeepsOrder | boost/asynchronous/algorithm/parallel_merge.hpp:50-58 | ranges of the same length are not exchanged |
| ParallelMerge.PlanContent | boost/asynchronous/algorithm/parallel_merge.hpp:78-103 | the pivot store and both subtasks write to different places, together exactly length1 + length2 consecutive ones |
| ParallelMerge.EveryMergeSorts | boost/asynchronous/algorithm/parallel_merge.hpp:35-131 | for every cutoff and every interleaving, exactly the reserved slots hold a sorted permutation of both inputs |
| ParallelMerge.Merge | boost/asynchronous/algorithm/parallel_merge.hpp:35-74 | the recursion on an array ends for every cutoff and leaves that result for either order of the subtasks |
| ParallelMerge.Balance | boost/asynchronous/algorithm/parallel_merge.hpp:50-67 | each subtask gets at most three quarters of its parent's elements |
| ParallelMerge.DepthIsLogarithmic | boost/asynchronous/algorithm/parallel_merge.hpp:78-103 | (4/3)^(depth-1) is at most the number of elements |
| ParallelSort.SortLeaf | boost/asynchronous/algorithm/parallel_sort.hpp:72-83 | small ranges are sorted: reversed when they are sorted the other way round, left as they are when they are sorted; nothing else changes |
| ParallelSort.LevelMerges | boost/asynchronous/algorithm/parallel_sort.hpp:86-143 | merging the two halves back from the other side leaves the level's result where its parent expects it |
| ParallelSort.SortLevel | boost/asynchronous/algorithm/parallel_sort.hpp:61-178 | even levels leave the sorted permutation in the range, odd ones in the buffer, exactly the value that the tasks of all interleavings leave too, and neither touches anything outside its part |
| ParallelSort.LevelValueSorts | boost/asynchronous/algorithm/parallel_sort.hpp:61-178 | what a level leaves on its side is the sorted permutation of its range |
| SortRuns.EveryMergeFindsHalves | boost/asynchronous/algorithm/parallel_sort.hpp:86-143 | however the tasks of two sibling levels interleave, the merge that follows finds both sorted halves |
| SortRuns.EverySortRunSorts | boost/asynchronous/algorithm/parallel_sort.hpp:61-178 | for every interleaving of the tasks of all levels the level's side holds the sorted permutation, and nothing outside the range and the buffer changes |
| SortReads.MergeFindsHalves | boost/asynchronous/algorithm/parallel_sort.hpp:86-143 | at every level, whatever the tasks of both halves and all other tasks write meanwhile, the memory holds both sorted halves when the merge starts |
| SortReads.SourceStays | boost/asynchronous/algorithm/parallel_sort.hpp:130-143 | the halves stay there until the merge is over, so the moment at which it reads an element does not matter |
| SortReads.SortsInside | boost/asynchronous/algorithm/parallel_sort.hpp:61-178 | whatever they read, the tasks of a level write only to its part of the range and its part of the buffer |
| SortReads.ReadsAsPlanned | boost/asynchronous/algorithm/parallel_sort.hpp:61-178 | among any other writers elsewhere, the runs of tasks that read the memory as they find it are exactly the runs with the planned values |
| SortReads.EveryReadingSortSorts | boost/asynchronous/algorithm/parallel_sort.hpp:61-178 | so every level leaves the sorted permutation of its range on its side and writes nowhere else, whatever other tasks do elsewhere |
| ParallelSort.IsSortedPass | boost/asynchronous/algorithm/parallel_is_sorted.hpp:33-75 | with the comparison across each cut and the early answer, the result is true exactly when all neighbours are in order |
| ParallelSort.ReverseLeaf | boost/asynchronous/algorithm/parallel_reverse.hpp:45-54 | the loop exchanges each element of its part with its counterpart and no other |
| ParallelSort.MirroredReverses | boost/asynchronous/algorithm/parallel_reverse.hpp:94-110 | exchanging every element of the first half with its counterpart reverses the range, for even and odd lengths |
| ParallelSort.ReversePass | boost/asynchronous/algorithm/parallel_reverse.hpp:40-110 | the tasks together reverse the range, in either order, and touch nothing else |
| ParallelSort.Sort | boost/asynchronous/algorithm/parallel_sort.hpp:182-345 | the range ends up a sorted permutation and the rest of the array is unchanged; a sorted range above the cutoff is left as it is, a reverse sorted one is reversed |
| Median.OrderThreeSorts | boost/asynchronous/algorithm/parallel_partition.hpp:34-48 | the three conditional exchanges put three elements in order |
| Median.OrderThreeMedian | boost/asynchronous/algorithm/parallel_partition.hpp:34-48 | after the three conditional exchanges the middle element has two elements not above and two not below it |
| Median.MedianOfThree | boost/asynchronous/algorithm/parallel_partition.hpp:34-48 | the exchanges in place |
| Median.Samples | boost/asynchronous/algorithm/parallel_partition.hpp:64-71 | the nine sampled positions are distinct and spread over the range: the first five an eighth of the length apart, the others their mirror images |
| Median.MedianOfMedians | boost/asynchronous/algorithm/parallel_partition.hpp:50-78 | the pivot is the median of the medians of the three triples of samples (from 16 elements on), of the first, middle and last element (from 3), or the first element; at least 4 (2, 1) elements are not above and not below it |
| Median.PartitionShrinks | boost/asynchronous/algorithm/parallel_partition.hpp:50-78 | a strict partition by such a pivot leaves a first part shorter by at least that many |
| PartialSort.ToleranceIsFifth | boost/asynchronous/algorithm/parallel_partial_sort.hpp:97-98 | the tolerance is a fifth of the original size as long as twenty times that size fits a size_t |
| PartialSort.NeverCloseEnough | boost/asynchronous/algorithm/parallel_partial_sort.hpp:97-98 | the branch for a pivot close to the middle is never taken for ranges below 2^63 elements |
| PartialSort.NarrowsExactly | boost/asynchronous/algorithm/parallel_partial_sort.hpp:116-140 | the next call gets the part before the split exactly when the whole front lies in it, else the whole range again, and pays for what it gets |
| PartialSort.BudgetShrinks | boost/asynchronous/algorithm/parallel_partial_sort.hpp:116-140 | every further call uses some of the budget and keeps the middle inside exactly when middle > beg |
| PartialSort.EquivalentElementsStall | boost/asynchronous/algorithm/parallel_partial_sort.hpp:116-121 | with middle == beg and equivalent elements the first partition leaves nothing in front and every later call gets the empty range with the same budget |
| PartialSort.UsualRangesFit | boost/asynchronous/algorithm/parallel_partial_sort.hpp:86-88 | up to 1000 threads, every range a task may hand to parallel_partition fits |
| PartialSort.PartitionRange | boost/asynchronous/algorithm/parallel_partial_sort.hpp:79-88 | parallel_partition by the pivot splits the subrange and touches nothing else |
| PartialSort.FrontSuffices | boost/asynchronous/algorithm/parallel_partial_sort.hpp:97-121 | solving the part before the split solves the whole range |
| PartialSort.PartialSortTask | boost/asynchronous/algorithm/parallel_partial_sort.hpp:40-169 | a task ends with the smallest elements sorted in front whichever branches it takes, and what it still hands to parallel_partition is bounded by the remaining budget, which it uses up |
| PartialSort.ParallelPartialSort | boost/asynchronous/algorithm/parallel_partial_sort.hpp:183-197 | the smallest middle - beg elements end up sorted in front, the range is permuted, and more than four and at most five times its length is handed to parallel_partition |
| FindAll.EraseIf | boost/asynchronous/algorithm/parallel_find_all.hpp:61-64 | erasing in place keeps exactly the wanted elements in order |
| FindAll.ParallelFindAll | boost/asynchronous/algorithm/parallel_find_all.hpp:79-121 | the appended results of the leaves are the sequential filter, for every cut |
| Grouping.GroupsAreMaximal | boost/asynchronous/algorithm/parallel_group_by.hpp:27-34 | the groups of a sorted sequence are nonempty, equivalent inside and strictly increasing from one to the next |
| Grouping.FlattenGroups | boost/asynchronous/algorithm/parallel_group_by.hpp:33-34 | flattening the groups gives back the sequence |
| Grouping.GroupingIsUnique | boost/asynchronous/algorithm/parallel_group_by.hpp:33-34 | a list of groups with those properties is what grouping its concatenation gives |
| Grouping.RoundTrips | boost/asynchronous/algorithm/parallel_group_by.hpp:33-34 | a list is such a grouping exactly when its concatenation is sorted and grouping that gives the list back |
| Grouping.GroupsSplit | boost/asynchronous/algorithm/parallel_grouped_transform.hpp:34-37 | cutting between two groups lets both parts be grouped on their own |
| GroupBy.GroupEndSeparates | boost/asynchronous/algorithm/parallel_grouped_transform.hpp:85-89 | the cut is moved forward to the end of the group it was in and no further, to a place with no group on both sides |
| GroupBy.PlanGroups | boost/asynchronous/algorithm/parallel_grouped_transform.hpp:85-126 | every task stays within its reserved slots, tasks never write to the same slot, and the nonempty slots are its groups |
| GroupBy.EveryRunGroups | boost/asynchronous/algorithm/parallel_grouped_transform.hpp:80-133 | for every cutoff and interleaving, filtering out the empty slots leaves exactly the groups |
| GroupBy.GroupLeaf | boost/asynchronous/algorithm/parallel_group_by.hpp:43-51 | the loop writes the groups of its block to consecutive slots, no more than the block has elements |
| GroupBy.GroupedTransform | boost/asynchronous/algorithm/parallel_grouped_transform.hpp:80-133 | the recursion ends for every cutoff and fills only its reserved slots, in either order; it returns their end |
| GroupBy.ParallelGroupBy | boost/asynchronous/algorithm/parallel_group_by.hpp:90-119 | the result is the maximal runs in order, and concatenated it is the input |
| Flattening.OffsetsTile | boost/asynchronous/algorithm/parallel_flatten.hpp:60-73 | the prefix sums make consecutive containers take up consecutive places |
| Flattening.MovePlanContent | boost/asynchronous/algorithm/parallel_flatten.hpp:81-96 | moves of different containers go to different places, together the concatenation |
| Flattening.EveryRunFlattens | boost/asynchronous/algorithm/parallel_flatten.hpp:58-108 | in whatever order the moves take effect, the result is the concatenation |
| ParallelScan.ReducedBlock | boost/asynchronous/algorithm/parallel_scan.hpp:52-82 | a block reduced from a neutral default value can be combined with any value before it |
| ParallelScan.DescribesFold | boost/asynchronous/algorithm/parallel_scan.hpp:39-103 | every node of the first pass holds the reduction of its range |
| ParallelScan.ScanPlanContent | boost/asynchronous/algorithm/parallel_scan.hpp:145-215 | the leaves of the second pass write to disjoint places, starting from the right values |
| ParallelScan.EveryRunScans | boost/asynchronous/algorithm/parallel_scan.hpp:145-215 | every interleaving of the second pass leaves the sequential exclusive scan |
| ParallelScan.AgreesExactly | boost/asynchronous/algorithm/parallel_scan.hpp:52-82 | for an associative operation the starting values are right for all inputs exactly when the default value is neutral |
| ParallelScan.ScanLeaf | boost/asynchronous/algorithm/parallel_transform_exclusive_scan.hpp:36-43 | the loop writes the exclusive scan of its block |
| ParallelScan.ParallelExclusiveScan | boost/asynchronous/algorithm/parallel_transform_exclusive_scan.hpp:27-47 | both passes leave the sequential exclusive scan and return the reduction of the whole range |
| Flattening.ScanSizes | boost/asynchronous/algorithm/parallel_flatten.hpp:60-73 | the parallel scan over the sizes gives the sums of the sizes before each container, and the total |
| Flattening.ParallelFlatten | boost/asynchronous/algorithm/parallel_flatten.hpp:37-108 | the array that is returned is the concatenation |
| Flattening.GroupThenFlatten | boost/asynchronous/algorithm/parallel_group_by.hpp:33-34 | what parallel_flatten makes of the result of parallel_group_by is the range itself |
| Flattening.FlattenThenGroup | boost/asynchronous/algorithm/parallel_group_by.hpp:33-34 | what parallel_group_by makes of the result of parallel_flatten is the containers themselves exactly when they are groups in order |
| CopyIf.DescribesCount | boost/asynchronous/algorithm/parallel_copy_if.hpp:60-101 | the count at every node of the first pass is the number of elements its range will copy |
| CopyIf.CopyPlanContent | boost/asynchronous/algorithm/parallel_copy_if.hpp:143-199 | the leaves of the second pass write to disjoint places that tile the output |
| CopyIf.EveryRunCopies | boost/asynchronous/algorithm/parallel_copy_if.hpp:143-282 | every interleaving of the second pass leaves the sequential filter |
| CopyIf.CountLeaf | boost/asynchronous/algorithm/parallel_copy_if.hpp:57-77 | the leaf loop counts the wanted elements and clears the flags of the others |
| CopyIf.Part1 | boost/asynchronous/algorithm/parallel_copy_if.hpp:52-112 | the first pass builds the tree that the second one follows |
| CopyIf.CopyLeaf | boost/asynchronous/algorithm/parallel_copy_if.hpp:150-163 | the leaf loop writes the flagged elements one after the other |
| CopyIf.ParallelCopyIf | boost/asynchronous/algorithm/parallel_copy_if.hpp:233-282 | the output is the filtered input at the given place, nothing else changes, and the end of it is returned |
| PartitionCopy.DescribesCounts | boost/asynchronous/algorithm/parallel_partition_copy.hpp:52-93 | both counts at every node are those of the elements its range will copy |
| PartitionCopy.CopyPlanContent | boost/asynchronous/algorithm/parallel_partition_copy.hpp:139-207 | all leaves write to different places of both outputs, together both filtered sequences |
| PartitionCopy.EveryRunCopies | boost/asynchronous/algorithm/parallel_partition_copy.hpp:139-207 | every interleaving leaves both filtered sequences in order |
| PartitionCopy.Part2 | boost/asynchronous/algorithm/parallel_partition_copy.hpp:139-207 | the second pass fills both outputs and returns both ends, although it keeps only the right subtask's result |
| PartitionCopy.ParallelPartitionCopy | boost/asynchronous/algorithm/parallel_partition_copy.hpp:244-285 | both filtered sequences, both ends, and every element in one of them |
| AnyOf.LastFailure | boost/asynchronous/algorithm/any_of.hpp:165-170 | when the counter reaches zero every callback has failed and stored its exception |
| AnyOf.StepKeeps | boost/asynchronous/algorithm/any_of.hpp:131-225 | every atomic step keeps the invariant: only the winner of the flag writes the result, and publishes it complete |
| AnyOf.RunKeeps | boost/asynchronous/algorithm/any_of.hpp:144-225 | over every run the invariant holds and the flag goes to the first success |
| AnyOf.AtMostOnce | boost/asynchronous/algorithm/any_of.hpp:204-225 | in every reachable state at most one value or exception has been set |
| AnyOf.EveryRunCompletes | boost/asynchronous/algorithm/any_of.hpp:131-262 | after every complete interleaving: the index and the value that the first success returned, once, iff some callback succeeds and the flag was clear; one exception with the error of each of the n iff all fail |
| AnyOf.Execute | boost/asynchronous/algorithm/any_of.hpp:256-262 | under any scheduler the callbacks come to an end, and that value or exception has been set once, or none if the flag was set and some callback succeeds |
| AllOf.LastSuccess | boost/asynchronous/algorithm/all_of.hpp:112-119 | when the counter reaches zero every callback has succeeded and its slot is filled |
| AllOf.StepKeeps | boost/asynchronous/algorithm/all_of.hpp:104-155 | every atomic step keeps the invariant on slots, counter, published values and raised exceptions |
| AllOf.ValueMeansSuccess | boost/asynchronous/algorithm/all_of.hpp:104-155 | in every reachable state a value has been set at most once, and only with all callbacks successful and what each of them returned in its slot |
| AllOf.ErrorsInOrder | boost/asynchronous/algorithm/all_of.hpp:121-124 | in every reachable state the exceptions set are those of the callbacks that have failed, in that order |
| AllOf.EveryRunCompletes | boost/asynchronous/algorithm/all_of.hpp:104-246 | after every complete interleaving: one value, with what each callback returned or a wrapper, iff all of at least one callbacks succeed; one exception for each failure, in the order in which they fail; nothing iff there is no callback |
| AllOf.Execute | boost/asynchronous/algorithm/all_of.hpp:183-246 | under any scheduler the callbacks come to an end with exactly those calls made |
| IsPartitioned.JoinIsHomomorphic | boost/asynchronous/algorithm/parallel_is_partitioned.hpp:80-101 | joining the summaries of two neighbouring blocks gives the summary of both together |
| IsPartitioned.AnyCuts | boost/asynchronous/algorithm/parallel_is_partitioned.hpp:70-102 | any tree of cuts gives the summary of the whole range |
| IsPartitioned.InOrderMeansPartitioned | boost/asynchronous/algorithm/parallel_is_partitioned.hpp:148-151 | no true element follows a false one exactly when some position splits the range |
| IsPartitioned.ScanBlock | boost/asynchronous/algorithm/parallel_is_partitioned.hpp:49-69 | the scan with its early return computes the summary of a block |
| IsPartitioned.ParallelIsPartitioned | boost/asynchronous/algorithm/parallel_is_partitioned.hpp:136-170 | the answer is true exactly when some position splits the range into a true and a false part |

## Left out

- ParallelPartition.Partition: requires `Fits`, which is exactly the condition under which no schedule loses anything in a conversion to `int` (`PartitionLimits.FitsExactly`); what happens outside it is in `PartitionLimits.ClaimsTwice`, `PartitionLimits.SafeExactly`, `PartitionTooLong.NothingIsPartitioned` and `PartitionLeftover.SomeBlockIsLeft`.
- PartitionTooLong.NothingIsPartitioned: is about lengths at which every worker reads a negative number. Between 2^31 and 2^31 + 1000 * threads elements, and from 2^32 on, some workers can read a claim that fits; of those runs only `PartitionLeftover.SomeBlockIsLeft` is stated, not what the final callback makes of them.
- PartitionLeftover.SomeBlockIsLeft: is about runs that stay inside the range, because a step outside it has no meaning; block starts of 2^31 and more do not fit an `int` either.
- PartialSort.ParallelPartialSort: requires `middle > beg`, because with `middle == beg` the code need not end (`PartialSort.BudgetShrinks`), a cutoff of at least 1, and `Fits` for every length from `middle - beg` to that of the range, because each of them may be handed to the partition.
- PartialSort.PartitionRange: partitions a copy of the subrange and writes it back, because the partition model works on a whole array; the source partitions the subrange itself.
- PartitionProtocol.Step: while workers run, the array and the counters are one value that steps replace, because tasks interleave inside every method of the source; `ParallelPartition.Partition` starts from an array and leaves its result in it.
- AnyOf.Step: the shared counter object is a value that steps replace, for the same reason.
- AllOf.Step: likewise.
- FindAll.ParallelFindAll: requires a cutoff of at least 1, because with any other one the code does not end on nonempty ranges (`Cutoff.PositiveCutoff`).
- CopyIf.ParallelCopyIf: requires a cutoff of at least 1 for the same reason.
- PartitionCopy.ParallelPartitionCopy: requires a cutoff of at least 1 for the same reason, and two different output arrays.
- Flattening.ParallelFlatten: requires cutoffs of at least 1 for the same reason.
- ParallelSort.Sort: `std::sort` is an insertion sort, `std::is_sorted` and `std::reverse` on small ranges are functions; the construction and destruction of the buffer and the high-bandwidth memory option are not part of this model. The method runs the two subtasks of a level in either order; all interleavings of the levels are in `SortRuns.EverySortRunSorts` and `SortReads.EveryReadingSortSorts`. A cutoff of at least 1 is required as above.
- ParallelMerge.Merge: the output does not overlap the inputs, and the method runs subtasks in either order; all interleavings are in `ParallelMerge.EveryMergeSorts`.
- ParallelKmp.Kmp: for a functor that cannot be merged (`ParallelKmp.Mergeable`) and a haystack that is cut, the result is said only through the tree of merges (`ParallelKmp.Searched`) and for lists (`ParallelKmp.ListSearch`); integer widths of indices are not modelled.
- GroupBy.GroupEnd: `upper_bound(middle, last, *middle)` with `middle == last` returns `last` without reading the element that is not there.
- GroupBy.ParallelGroupBy: requires a cutoff of at least 1 for its filtering step; moved-from input elements are not tracked; the output holds the elements themselves.
- ParallelScan.ParallelExclusiveScan: the transformation of the elements is applied beforehand; the inclusive scan and partial sum, which share the two passes, are not part of this model.
- PartitionCopy.EveryRunCopies: both outputs are regions of one memory that do not overlap.
- IsPartitioned.ParallelIsPartitioned: requires a nonempty range, because the code reads the first element before it looks at the end, and a cutoff of at least 1 as above.
- Exceptions thrown by predicates, comparators and assignments; they are taken as total and pure. Failing subtasks are modelled in `AnyOf` and `AllOf` only.
- Weak memory: steps on atomic counters are sequentially consistent, which is the default order the source uses.
- Stability of `parallel_merge` above the cutoff: not kept by the code, because it exchanges the two ranges (`ParallelMerge.CutMergeIsNotStable`); which merges that are cut happen to be stable is not stated.
- Schedulers, queues, thread pools, proxies, continuations as such, serialisation, task names, priorities.
- Overloads for moved ranges, ranges by reference and continuations: adapters around the iterator versions.
- `parallel_nth_element`, `parallel_find_end`, `parallel_lexicographical_compare`: their joins do not give the sequential result in all cases.
- count, equal, mismatch, copy, move, fill, generate, for_each and similar: simple joins whose results follow from one step.

# Verified models of the DAAL CPU kernels

Each module models one kernel of `cpp/daal` in the form the kernel has there (arrays changed in place, explicit
stacks, linked chains, mutable objects) and proves what the kernel is for. Parallel loops run their blocks in an
arbitrary order, given as a schedule; external kernels (`parallel_sort`, `xxgemm`, the random generator) are plain
contracts or parameters. Floating-point values are reals, except in the finiteness checker, which works on bits.

| module | kernel |
|---|---|
| Orders, Segments, Arith, Multisets, Filters, Blocks, Layout, Options | strict weak orders, rearrangements of a segment, products and powers, multisets and sums, filtered sequences, block schedules, flat row-major cells, optional values |
| Heap | max-heap kernels |
| Sampling, Partition, IntroSort | choosing a pivot, three-way partition and introsort |
| FallbackInput | inputs that the introsort leaves unsorted |
| QuickSort | the explicit-stack quicksort over parallel arrays |
| RocAuc | the area under the ROC curve from midranks |
| Bits, Shuffle | rejection sampling under a smeared mask, and the shuffle |
| TrainTestSplit | gathering train and test rows, by column or by row |
| Finiteness | the sum shortcut and the lane-wise mask check |
| Blas | the blocked matrix product with two output layouts |
| Distances | squared Euclidean distances through norms and a product |
| HashTable | the chained hash table with an inline head cell |
| RefCounting, SharedPtr | the reference-counted pointer: interleaved atomic actions, and the class whose methods perform them |

## Where the code differs from what is expected of it

The models follow the code. Each of these is a proved statement.

- `sortMaxHeap` never touches the last slot of its range: [3, 1, 2] becomes [1, 3, 2]. The range ends up sorted if and
  only if that slot held an element not smaller than the root (`Heap.SortMaxHeap`, `Heap.SortMaxHeapFails`). The
  loop that was meant is `Heap.SortMaxHeapIntended`.
- `introSort` inherits this through its heap fallback. It sorts every input of length n if and only if n <= 68 or
  n == 72: at these lengths the sampled pivots shorten the range fast enough for the depth limit
  (`IntroSort.LimitSufficesIff`, `IntroSort.EnoughLevels`, `IntroSort.IntroSort`), and at every other length there is an
  input that the method leaves unsorted (`FallbackInput.FailingInputStaysUnsorted`, `FallbackInput.SortFailingInput`).
  At every length, a run in which no partition leaves more than three quarters of its range on a side sorts, and a
  range that is sorted already is such an input (`IntroSort.BalancedNoFallback`, `IntroSort.SortedHalves`).
  Run by run, the result is sorted if and only if every heap the fallback builds has a maximum in its last slot, and
  with all elements different if and only if no fallback is entered.
- The side test of `internalIntroSort` (line 713) compares a nonnegative with a nonpositive difference, so it is never
  true and the right part is always the one recursed into. The depth limit still bounds the work.
- `(l + ir) >> 1` in `qSort` fits an `int` in every run over n rows if and only if n <= 2^30 + 4: beyond that there is
  an input of every length whose second midpoint overflows (`QuickSort.MidpointsFitIff`). The model ends there, and
  reports it exactly when it happens; every other run of any length that an `int` can index sorts (`QuickSort.QSort`).
  The stack depth is fine for all those lengths (`QuickSort.StackSuffices`).
- Over arbitrary words, the 2n + 32 that `generateShuffledIndicesImpl` draws always do if and only if n <= 2
  (`Shuffle.BufferSufficesIff`; whether the generator can produce the words used for n >= 3 is not part of the model).
  If they run out the code reads past its buffer. The model stops there, and says exactly when it does
  (`Shuffle.GenerateShuffledIndices`).
- The block-wise finiteness check does not always read every element: in the scalar tail of a block it stops at the
  first offending one. No element is read twice, and all are read if and only if no tail holds an offending element
  before its last position, so a positive answer has seen everything (`Finiteness.CheckFinitenessInBlocks`,
  `Finiteness.InfinityEndsReading`).
- The row-wise split reads the whole table as the type of column 0; the two paths agree if and only if every gathered
  cell reads alike through its own type and through that one (`TrainTestSplit.PathsAgree`), and rows are conserved if
  and only if every cell survives the type it is read through (`TrainTestSplit.SplitConservesRowsIff`). A row (1, 0.5)
  behind an integer column 0 is lost (`TrainTestSplit.RowStorageLosesCell`).
- `HashTable::insert` does not look at the key of the head cell. It refines adding to a map if and only if the key is
  not in that cell (`HashTable.InsertRefines`, `HashTable.ReinsertAtHeadFails`). Otherwise no lookup changes, and the
  new value shows once the key is erased (`HashTable.ReinsertShowsAfterErase`).
- The ROC score takes the sum of the labels for the number of positives. With both classes present it counts pairs,
  whatever the values, if and only if the labels sum to the number of ones, as 0/1 labels do; labels 1 and -1 in equal
  number give no score (`RocAuc.ScoreCountsPairsIff`, `RocAuc.SignedLabelsHaveNoScore`).
- `SharedPtr` documents that an alias that goes last destroys the object originally managed. The deleter gets the owned
  pointer of the last handle, so this holds if and only if every holder owns that pointer
  (`RefCounting.ManagedIsDeletedIff`, `RefCounting.AliasStartIsDeleted`). Assignment from another type does nothing
  when the source points to where the target's memory starts (`RefCounting.AssignFromCopiesIff`), and taking over a raw
  pointer that is already the handle's start makes it the owner only if it was the owner before
  (`RefCounting.ResetOwnsIff`, `RefCounting.ResetMayKeepAlias`, `RefCounting.ResetMayNotOwn`). Then it does not let go
  of its block either; with a null start this happens to `reset(NULL)` (`RefCounting.ResetReleasesIff`,
  `RefCounting.ResetMayNotRelease`).

## Model

| member | source | states |
|---|---|---|
| Heap.RootIsMaximum | cpp/daal/src/algorithms/service_heap.h:78-87 | the root that popMaxHeap takes away is a maximum of the heap |
| Heap.SiftStep | cpp/daal/src/algorithms/service_heap.h:55-76 | moving the larger child up leaves the order broken only below the new hole |
| Heap.SiftRound | cpp/daal/src/algorithms/service_heap.h:60-75 | one round permutes the range and either finishes the heap order or moves the hole down |
| Heap.InternalAdjustMaxHeap | cpp/daal/src/algorithms/service_heap.h:54-76 | permutes the range, extends the heap order from start + 1 to start, and leaves exactly the elements after one sift-down |
| Heap.PopMaxHeap | cpp/daal/src/algorithms/service_heap.h:79-87 | the old root ends in the last slot and the rest is a heap again |
| Heap.HeapifiedIsHeap | cpp/daal/src/algorithms/service_heap.h:90-98 | sinking the elements from the middle to the front makes any sequence a max-heap of the same elements |
| Heap.MakeMaxHeap | cpp/daal/src/algorithms/service_heap.h:90-98 | permutes any range into a max-heap, and leaves exactly that heap |
| Heap.TailGrows | cpp/daal/src/algorithms/service_heap.h:101-107 | a popped maximum extends the sorted tail |
| Heap.SortMaxHeap | cpp/daal/src/algorithms/service_heap.h:101-107 | all but the last slot is permuted and sorted, the last slot is unchanged, and the range is sorted iff that slot was not less than the root |
| Heap.SortedButLastIff | cpp/daal/src/algorithms/service_heap.h:101-107 | the condition under which leaving the last slot alone still sorts |
| Heap.SortMaxHeapFails | cpp/daal/src/algorithms/service_heap.h:101-107 | [3, 1, 2] is a heap and can only become [1, 3, 2] |
| Heap.SortMaxHeapIntended | cpp/daal/src/algorithms/service_heap.h:101-107 | the intended loop, decrementing after the pop, sorts the whole range |
| Sampling.Median3Ordered | cpp/daal/src/algorithms/service_sort.h:586-602 | the three exchanges put any three elements in order |
| Sampling.MedianOf3 | cpp/daal/src/algorithms/service_sort.h:586-602 | the in-place exchanges produce that order |
| Sampling.SamplePivot | cpp/daal/src/algorithms/service_sort.h:608-620 | performs exactly the exchanges that put the three or nine samples in order, in bounds |
| Sampling.NineLow | cpp/daal/src/algorithms/service_sort.h:609-616 | four elements are not greater than the pseudo-median of nine |
| Sampling.NineHigh | cpp/daal/src/algorithms/service_sort.h:609-616 | and four are not less |
| Sampling.SampledRank | cpp/daal/src/algorithms/service_sort.h:608-620 | the rank that sampling secures: two elements, four above length 41, on each side of the pivot, itself included |
| Sampling.CalmSampling | cpp/daal/src/algorithms/service_sort.h:608-620 | samples already in order are left alone |
| Sampling.SortedSampling | cpp/daal/src/algorithms/service_sort.h:608-620 | sampling leaves a sorted range alone |
| Partition.GrowBlock | cpp/daal/src/algorithms/service_sort.h:622-632 | the block around the middle holds only equivalents of the pivot |
| Partition.ScanRight | cpp/daal/src/algorithms/service_sort.h:639-653 | collects equivalents and passes greater elements, stopping at a smaller one or at the end |
| Partition.ScanLeft | cpp/daal/src/algorithms/service_sort.h:655-668 | the mirror image |
| Partition.RotateRight | cpp/daal/src/algorithms/service_sort.h:675-685 | with no room on the left the pivot block rotates right and the scan invariant survives |
| Partition.RotateLeft | cpp/daal/src/algorithms/service_sort.h:686-693 | with no room on the right the block rotates left |
| Partition.PlaceMisplaced | cpp/daal/src/algorithms/service_sort.h:675-698 | each of the three cases uses up an unscanned element and keeps the scan invariant |
| Partition.KeptRotateLeft | cpp/daal/src/algorithms/service_sort.h:686-693 | rotating left keeps the greater elements in their order |
| Partition.SidesBounded | cpp/daal/src/algorithms/service_sort.h:604-700 | the pivot's rank bounds both sides of the partition |
| Partition.Sweep | cpp/daal/src/algorithms/service_sort.h:634-699 | the main loop ends with nothing unscanned, and keeps the order of the greater elements when none is misplaced |
| Partition.ScanComplete | cpp/daal/src/algorithms/service_sort.h:670-673 | a finished scan is strictly less, equivalent, strictly greater around a nonempty block |
| Partition.SortedInPlace | cpp/daal/src/algorithms/service_sort.h:622-632 | in a sorted range the block around the middle takes all its equivalents, and nothing outside is misplaced |
| Partition.Partition3 | cpp/daal/src/algorithms/service_sort.h:604-700 | terminates, permutes the range and partitions it three ways, for every strict weak order; neither side is longer than the pivot's rank allows; greater elements keep their order when the samples are in order and nothing right of the middle is misplaced; a sorted range stays as it is, with its middle in the block |
| IntroSort.InsertionSort | cpp/daal/src/algorithms/service_sort.h:732-756 | permutes and sorts the range |
| IntroSort.MoveBackwardUnguarded | cpp/daal/src/algorithms/service_sort.h:748-752 | the scan without a bound test never passes the first element and stops at the place of the value |
| IntroSort.InsertNext | cpp/daal/src/algorithms/service_sort.h:733-755 | one round inserts the element at its place |
| IntroSort.HeapFallback | cpp/daal/src/algorithms/service_sort.h:726-730 | leaves the heap of its range sorted up to the last slot, hence sorted iff that very heap has a maximum there |
| IntroSort.LevelsLogarithmic | cpp/daal/src/algorithms/service_sort.h:711-712 | the depth limit allows logarithmically many levels: (4/3)^(levels - 1) <= limit |
| IntroSort.LevelsMonotone | cpp/daal/src/algorithms/service_sort.h:711-712 | a larger limit allows no fewer levels |
| IntroSort.ShrinkIsThreeQuarters | cpp/daal/src/algorithms/service_sort.h:711-712 | a level leaves three quarters of the limit, less at most 5/4 for rounding |
| IntroSort.LevelsGrow | cpp/daal/src/algorithms/service_sort.h:711-712 | a limit of 2d + 4 allows at least two more levels than d |
| IntroSort.EnoughLevels | cpp/daal/src/algorithms/service_sort.h:703-730 | a range whose length needs no more levels than the limit allows never reaches the fallback |
| IntroSort.LimitSufficesIff | cpp/daal/src/algorithms/service_sort.h:759-763 | a limit of the length itself allows the levels needed iff n <= 68 or n == 72 |
| IntroSort.SortedThree | cpp/daal/src/algorithms/service_sort.h:709-722 | with both sides of a partition rearranged, the whole is sorted iff both sides are |
| IntroSort.RunPermutes | cpp/daal/src/algorithms/service_sort.h:702-757 | every run permutes its range |
| IntroSort.RunSortsIff | cpp/daal/src/algorithms/service_sort.h:702-757 | a run sorts its range iff every heap of its fallbacks has a maximum in its last slot |
| IntroSort.NoFallbackFits | cpp/daal/src/algorithms/service_sort.h:702-757 | in particular when no fallback is entered |
| IntroSort.DifferentSortedIff | cpp/daal/src/algorithms/service_sort.h:702-757 | with all elements different, only when no fallback is entered |
| IntroSort.RunWork | cpp/daal/src/algorithms/service_sort.h:703-724 | the lengths of all ranges partitioned in a run sum to at most the length times the levels of the limit |
| IntroSort.LevelWork | cpp/daal/src/algorithms/service_sort.h:703-724 | one level's length and the work of its disjoint parts stay within length times levels |
| IntroSort.BalancedNoFallback | cpp/daal/src/algorithms/service_sort.h:703-730 | at every length, a run that starts with its length as limit and never leaves more than three quarters of a range, less rounding, on a side, enters no fallback |
| IntroSort.HalvesAreBalanced | cpp/daal/src/algorithms/service_sort.h:703-724 | runs that leave at most half on each side are such runs |
| IntroSort.SortedHalves | cpp/daal/src/algorithms/service_sort.h:703-724 | every run on a sorted range leaves at most half on each side, at every level |
| IntroSort.PartitionIsLevel | cpp/daal/src/algorithms/service_sort.h:709 | what the partition promises of the array is a level of the run |
| IntroSort.ChainCloses | cpp/daal/src/algorithms/service_sort.h:706-724 | the levels of the loop, each with its recursive run, and the run on what is left make up one run on the whole range |
| IntroSort.InternalIntroSort | cpp/daal/src/algorithms/service_sort.h:702-757 | replaces the range by the output of a run on it: length and limit decide every branch, every level is a partition, every fallback sorts the heap of its range up to the last slot |
| IntroSort.IntroSort | cpp/daal/src/algorithms/service_sort.h:759-763 | performs such a run with the length as limit; permutes; sorted iff every fallback heap fits; always sorted for n <= 68 and n == 72, whenever the run stays balanced, and when the range was sorted already; total partitioning work at most n times K(n) |
| FallbackInput.PlantedCalm | cpp/daal/src/algorithms/service_sort.h:608-620 | the bad input's samples are in order and nothing right of its middle is misplaced |
| FallbackInput.PlantedGreater | cpp/daal/src/algorithms/service_sort.h:604-700 | its greater elements are the next, shorter bad input |
| FallbackInput.FallbackEntered | cpp/daal/src/algorithms/service_sort.h:726-730 | every run on a bad input uses up the depth limit and enters the fallback |
| FallbackInput.FailingInputStaysUnsorted | cpp/daal/src/algorithms/service_sort.h:759-763 | at every other length there is an input of different elements that every run leaves unsorted |
| FallbackInput.SortFailingInput | cpp/daal/src/algorithms/service_sort.h:759-763 | the introsort leaves that input unsorted |
| QuickSort.InsertionSort | cpp/daal/src/algorithms/service_sort.h:455-477 | rows of a short segment are permuted and sorted by key |
| QuickSort.InsertRow | cpp/daal/src/algorithms/service_sort.h:457-477 | one round moves a whole row down to its place |
| QuickSort.RowsAt | cpp/daal/src/algorithms/service_sort.h:459-475 | a row is the three elements at one position |
| QuickSort.MedianToFront | cpp/daal/src/algorithms/service_sort.h:489-510 | leaves sentinels x[l] <= x[l + 1] <= x[ir], the middle one being the median of the keys at l, (l + ir) / 2 and ir |
| QuickSort.ScanUp | cpp/daal/src/algorithms/service_sort.h:518-519 | the scan without a bound test stops at the first key not smaller, inside the segment |
| QuickSort.ScanDown | cpp/daal/src/algorithms/service_sort.h:520-521 | the mirror image |
| QuickSort.ScanBoth | cpp/daal/src/algorithms/service_sort.h:516-525 | both scans of every round stay in [l, ir] |
| QuickSort.PartitionRows | cpp/daal/src/algorithms/service_sort.h:511-536 | permutes the rows; keys before i do not exceed keys from j on, and rows j to i - 1 hold the pivot key |
| QuickSort.RearrangeLast | cpp/daal/src/algorithms/service_sort.h:453-552 | working on the current segment keeps everything outside the pending segments in order |
| QuickSort.SplitLast | cpp/daal/src/algorithms/service_sort.h:537-550 | replacing a partitioned segment by its two sides keeps it so |
| QuickSort.HalvingSplit | cpp/daal/src/algorithms/service_sort.h:539-550 | stacking the larger side keeps the stacked sizes halving |
| QuickSort.DepthBound | cpp/daal/src/algorithms/service_sort.h:537-550 | a segment that gets partitioned has at most log2(n) - 3 segments stacked below it |
| QuickSort.StackSuffices | cpp/daal/src/algorithms/service_sort.h:448-449 | for every n an int can index, 2 (log2(n) - 2) <= 56 of the 128 slots suffice |
| QuickSort.OverflowSplits | cpp/daal/src/algorithms/service_sort.h:489-550 | on the identity with the keys at (n - 1) / 2 and n - 9 exchanged, every first partition leaves the last eight rows to be partitioned next |
| QuickSort.RunWorks | cpp/daal/src/algorithms/service_sort.h:453-552 | every run keeps the rows, the order outside the pending segments, their disjointness and their halving sizes |
| QuickSort.OverflowRun | cpp/daal/src/algorithms/service_sort.h:489 | beyond n = 2^30 + 4 a run on that input reaches a segment whose midpoint overflows |
| QuickSort.MidpointsFitIff | cpp/daal/src/algorithms/service_sort.h:489 | l + ir fits an int in all runs over n rows iff n <= 2^30 + 4 |
| QuickSort.TopOfStack | cpp/daal/src/algorithms/service_sort.h:484-485 | segment bounds survive being stored in the data type, given that row indices do |
| QuickSort.QSortOn | cpp/daal/src/algorithms/service_sort.h:441-553 | performs a run of the main loop and reports an overflow iff that run ends at a segment [l, ir] with ir - l >= 7 and l + ir > INT_MAX, never for n <= 2^30 + 4; otherwise keys end nondecreasing; the multiset of (x, w, z) rows is kept; on any stack of 2 (log2(n) - 2) slots, none below n = 8 |
| QuickSort.QSort | cpp/daal/src/algorithms/service_sort.h:441-553 | the same on the 128 slots the kernel reserves |
| RocAuc.PairsAmongThemselves | cpp/daal/src/data_management/roc_auc_score.cpp:111-112 | counted against itself, a list wins half of all its pairs |
| RocAuc.MidRankSumSplits | cpp/daal/src/data_management/roc_auc_score.cpp:93-112 | a sum of midranks is a sum of pair counts against both classes |
| RocAuc.RankSumCountsPairs | cpp/daal/src/data_management/roc_auc_score.cpp:112 | the positive midrank sum minus n(n+1)/2 is the number of pairs won plus half the tied ones |
| RocAuc.BlockRank | cpp/daal/src/data_management/roc_auc_score.cpp:83-88 | the rank formula of a tie block gives the midrank of its value, whatever order the sort gave the ties |
| RocAuc.FillPredict | cpp/daal/src/data_management/roc_auc_score.cpp:54-64 | the blocks, in any order, fill every (value, index) entry |
| RocAuc.ParallelSort | cpp/daal/src/data_management/roc_auc_score.cpp:66 | the contract of the parallel sort: any sorted rearrangement |
| RocAuc.TieBlockEnd | cpp/daal/src/data_management/roc_auc_score.cpp:76-80 | finds a maximal run of equal values |
| RocAuc.ComputeRanks | cpp/daal/src/data_management/roc_auc_score.cpp:68-91 | every element gets its midrank, at its original index |
| RocAuc.SumPositives | cpp/daal/src/data_management/roc_auc_score.cpp:93-110 | the positives and the sum of their ranks |
| RocAuc.CountsByPosition | cpp/daal/src/data_management/roc_auc_score.cpp:93-112 | the counts on score lists are numbers of positions and of pairs of positions |
| RocAuc.LabelSumAppend | cpp/daal/src/data_management/roc_auc_score.cpp:104 | the label sum counts every label with its value |
| RocAuc.ScoreMeaning | cpp/daal/src/data_management/roc_auc_score.cpp:111-112 | with the ranks correct, for any labels the score times S (n - S), S the label sum, is the pair count plus the correction T(ones) - T(S) with T(k) = k (k + 1) / 2; there is none iff S is 0 or n |
| RocAuc.ScoreCountsPairsIff | cpp/daal/src/data_management/roc_auc_score.cpp:93-112 | with both classes present the score counts pairs, whatever the values, iff the labels sum to the number of ones |
| RocAuc.SignedLabelsHaveNoScore | cpp/daal/src/data_management/roc_auc_score.cpp:111-112 | labels 1 and -1 give no score although both classes are present |
| RocAuc.RocAucScore | cpp/daal/src/data_management/roc_auc_score.cpp:39-114 | for any labels the score is what ScoreMeaning says; for 0/1 labels with both classes present, score times nPos times nNeg is the number of pairs (i, j) of a positive and a negative position with values[j] < values[i], plus half of those with equal values |
| Bits.SmearByDoubles | cpp/daal/src/data_management/train_test_split.cpp:51-55 | or-ing with a shift doubles the run of ones below the top bit |
| Bits.SmearIsLeastMask | cpp/daal/src/data_management/train_test_split.cpp:50-55 | the smeared mask is the least 2^k - 1 that is at least i |
| Bits.LowCounts | cpp/daal/src/data_management/train_test_split.cpp:57-62 | among q 2^k words each value of the low k bits occurs q times |
| Shuffle.AcceptedUniformly | cpp/daal/src/data_management/train_test_split.cpp:50-64 | each j in 0..i has exactly 2^(32 - k) accepted 32-bit words |
| Shuffle.MaskedIsRemainder | cpp/daal/src/data_management/train_test_split.cpp:50-62 | the masked word is its remainder by the least power of two above i |
| Shuffle.NextAcceptedIsFirst | cpp/daal/src/data_management/train_test_split.cpp:57-62 | the accepted word is the first masked word not above i |
| Shuffle.GenSwapIdx | cpp/daal/src/data_management/train_test_split.cpp:48-65 | returns the first masked word not above i and leaves rnIdx just past it |
| Shuffle.ShuffledPermutes | cpp/daal/src/data_management/train_test_split.cpp:139-144 | every choice sequence gives a rearrangement |
| Shuffle.OneChoiceExchanges | cpp/daal/src/data_management/train_test_split.cpp:139-144 | a single choice j at position i exchanges elements i and j, and moves nothing else |
| Shuffle.ChoicesInTurn | cpp/daal/src/data_management/train_test_split.cpp:139-144 | a shuffle makes its choices one after the other, from the last position down |
| Shuffle.ShuffleInjective | cpp/daal/src/data_management/train_test_split.cpp:139-144 | different choice sequences give different results |
| Shuffle.ShuffleSurjective | cpp/daal/src/data_management/train_test_split.cpp:139-144 | every permutation has a choice sequence, which is constructed |
| Shuffle.ShuffleBijective | cpp/daal/src/data_management/train_test_split.cpp:134-144 | the shuffle loop is a bijection from choice sequences onto permutations of 0..n-1 |
| Shuffle.DrawnAreChoices | cpp/daal/src/data_management/train_test_split.cpp:139-144 | the drawn sequence has one choice j <= i for every i |
| Shuffle.DrawnTakes | cpp/daal/src/data_management/train_test_split.cpp:57-64 | each choice takes the first word, behind the one taken before, that is masked to at most its position, and is that masked word |
| Shuffle.TakenAreDrawn | cpp/daal/src/data_management/train_test_split.cpp:57-64 | words that can be taken so are drawn so |
| Shuffle.GenerateShuffledIndices | cpp/daal/src/data_management/train_test_split.cpp:134-144 | idx becomes the permutation of the drawn choices; fails exactly when the words run out |
| Shuffle.BufferMayRunOut | cpp/daal/src/data_management/train_test_split.cpp:98-100 | for every n >= 3 some 2n + 32 words, words being arbitrary, are all rejected, or all but the first |
| Shuffle.BufferSufficesIff | cpp/daal/src/data_management/train_test_split.cpp:98-100 | 2n + 32 arbitrary words always do iff n <= 2 |
| TrainTestSplit.GatherRearranged | cpp/daal/src/data_management/train_test_split.cpp:174-179 | gathering through rearranged indices gives rearranged rows |
| TrainTestSplit.RowsConserved | cpp/daal/src/data_management/train_test_split.cpp:288-351 | index lists that together permute all rows gather every row exactly once |
| TrainTestSplit.AssignColumnValues | cpp/daal/src/data_management/train_test_split.cpp:166-182 | writes the requested rows of one column and nothing else |
| TrainTestSplit.AssignColumnSubset | cpp/daal/src/data_management/train_test_split.cpp:184-205 | in one piece or in blocks of any order, the whole column is gathered |
| TrainTestSplit.SplitColumn | cpp/daal/src/data_management/train_test_split.cpp:207-221 | one column of both outputs |
| TrainTestSplit.SplitColumns | cpp/daal/src/data_management/train_test_split.cpp:316-331 | all columns, in any order |
| TrainTestSplit.AssignRows | cpp/daal/src/data_management/train_test_split.cpp:223-245 | gathers a block of rows through flat buffers and nothing else |
| TrainTestSplit.AssignRowsSubset | cpp/daal/src/data_management/train_test_split.cpp:247-268 | in one piece or in blocks of any order, all rows are gathered |
| TrainTestSplit.SplitRows | cpp/daal/src/data_management/train_test_split.cpp:270-285 | both outputs, read as one type |
| TrainTestSplit.TrainTestSplit | cpp/daal/src/data_management/train_test_split.cpp:287-351 | the status is Ok iff both column counts agree, both row counts agree with their index lists, train and test rows together are at most the input rows, and their product with the columns fits in 64 bits; each error has its condition; when Ok every cell of both outputs is its source cell through its column type or that of column 0, and by a permutation all rows are conserved iff every cell survives; otherwise nothing is written |
| TrainTestSplit.OverflowsIff | cpp/daal/include/services/daal_defines.h:462-470 | the check by wrapped product and division fails iff the product exceeds SIZE_MAX |
| TrainTestSplit.PermutationPasses | cpp/daal/src/data_management/train_test_split.cpp:297-302 | a split by a permutation of all rows, with matching shapes and no overflow, is Ok |
| TrainTestSplit.SplitConservesRowsIff | cpp/daal/src/data_management/train_test_split.cpp:287-351 | the multiset of train rows plus test rows is the multiset of input rows iff every cell survives the type it is read through |
| TrainTestSplit.RowStorageLosesCell | cpp/daal/src/data_management/train_test_split.cpp:334-350 | a fraction behind an integer column 0 is lost on the row-wise path and kept on the column-wise one |
| TrainTestSplit.PathsAgree | cpp/daal/src/data_management/train_test_split.cpp:306-350 | the column-wise and row-wise results are equal iff every gathered cell reads alike through its own type and through column 0's |
| Finiteness.FiniteSumFiniteTerms | cpp/daal/src/data_management/finiteness_checker.cpp:526-549 | under any bracketing of an addition that follows IEEE 754-2008 sections 6.1 and 6.2, a finite sum has only finite terms |
| Finiteness.KnownWords | cpp/daal/src/data_management/finiteness_checker.cpp:37-43 | zeros, ones, greatest and least finite words, infinities and NaNs of both formats are told apart as IEEE 754-2008 section 3.4 does |
| Finiteness.MasksTestFields | cpp/daal/src/data_management/finiteness_checker.cpp:37-43 | the masks test for a maximal exponent field and a zero fraction field |
| Finiteness.ExpMaskIsInfinity | cpp/daal/src/data_management/finiteness_checker.cpp:45-54 | the word that getInf builds denotes infinity |
| Finiteness.ElementTestIsExact | cpp/daal/src/data_management/finiteness_checker.cpp:62-72 | the mask test is exactly: infinite, or NaN when NaN is not allowed; by fields, exponent maximal and fraction zero or NaN forbidden |
| Finiteness.ValuesAreNotFinite | cpp/daal/src/data_management/finiteness_checker.cpp:56-74 | the early-return scan finds an offending element iff there is one, and reads exactly up to the first |
| Finiteness.ScanStopsEarlyIff | cpp/daal/src/data_management/finiteness_checker.cpp:56-74 | it leaves something unread iff an element before the last offends |
| Finiteness.LaneConstants | cpp/daal/src/data_management/finiteness_checker.cpp:330-331 | 2 INT_MAX + 1 truncates to all ones in every lane mask |
| Finiteness.FinalMaskFlags | cpp/daal/src/data_management/finiteness_checker.cpp:335-348 | the lane mask flags exactly the offending lanes |
| Finiteness.CheckRegisters | cpp/daal/src/data_management/finiteness_checker.cpp:333-349 | the full registers flag exactly the offending elements and read each of their positions once |
| Finiteness.CheckBlock | cpp/daal/src/data_management/finiteness_checker.cpp:318-352 | lanes plus scalar tail agree with the scalar scan; the positions read, once each, are those of the registers and of the tail up to its first offending element |
| Finiteness.BlocksTile | cpp/daal/src/data_management/finiteness_checker.cpp:423-428 | consecutive blocks meet, and the last one takes the surplus |
| Finiteness.BlockOfPosition | cpp/daal/src/data_management/finiteness_checker.cpp:319-323 | every position lies in a block |
| Finiteness.BlocksDisjoint | cpp/daal/src/data_management/finiteness_checker.cpp:319-323 | and in no other one |
| Finiteness.CleanByBlocks | cpp/daal/src/data_management/finiteness_checker.cpp:354-361 | the data is clean iff no block offends |
| Finiteness.EachElementOnce | cpp/daal/src/data_management/finiteness_checker.cpp:318-352 | wherever the reading of each block ends, in any order of the blocks no element is read twice, and all are read iff every block is read to its end |
| Finiteness.ReadsAre | cpp/daal/src/data_management/finiteness_checker.cpp:318-352 | no element is read twice; all are read iff no tail holds an offending element before its last position, and whenever the arrays are clean |
| Finiteness.InfinityEndsReading | cpp/daal/src/data_management/finiteness_checker.cpp:350-351 | of the three floats Inf, 1, 2 only the first is read |
| Finiteness.CheckFinitenessInBlocks | cpp/daal/src/data_management/finiteness_checker.cpp:308-362 | the answer is exact for every length, block count, block order and allowNaN; on every run no element is loaded twice, and every element is loaded iff no block's tail holds an offending element before its last position, in particular when the answer is positive |
| Finiteness.CheckFiniteness | cpp/daal/src/data_management/finiteness_checker.cpp:122-129 | the scalar check is exact |
| Finiteness.SumWithAVX512 | cpp/daal/src/data_management/finiteness_checker.cpp:171-193 | a finite lane-wise sum proves all terms finite |
| Finiteness.ComputeSum | cpp/daal/src/data_management/finiteness_checker.cpp:76-84 | so does the scalar sum over all arrays |
| Finiteness.ComputeSumAVX512 | cpp/daal/src/data_management/finiteness_checker.cpp:195-221 | so does the sum of the block sums of all arrays in any order; a failed allocation gives infinity |
| Finiteness.ComputeSumSOA | cpp/daal/src/data_management/finiteness_checker.cpp:86-120 | so does the sum over columns of mixed types with its early exit |
| Finiteness.ComputeSumSOAThreaded | cpp/daal/src/data_management/finiteness_checker.cpp:235-300 | so does the threaded one, however columns fall to threads and whenever it breaks |
| Finiteness.CheckFinitenessSOA | cpp/daal/src/data_management/finiteness_checker.cpp:131-164 | the column-wise check is exact |
| Finiteness.CheckFinitenessSOAThreaded | cpp/daal/src/data_management/finiteness_checker.cpp:447-506 | so is the threaded one |
| Finiteness.CleanTable | cpp/daal/src/data_management/finiteness_checker.cpp:131-164 | a table is clean iff no word of an array, or of a float or a double column, denotes in its format an infinity, or a NaN that is not allowed |
| Finiteness.AllValuesAreFinite | cpp/daal/src/data_management/finiteness_checker.cpp:516-569 | true iff no floating element is infinite and none is NaN unless NaN is allowed; a finite-data overflow falls through to the exact check |
| Blas.BlockArithmetic | cpp/daal/src/externals/service_blas.h:201-234 | block counts and the last block size describe a tiling |
| Blas.CellInOneBlockPair | cpp/daal/src/externals/service_blas.h:231-278 | every cell of the result lies in exactly one pair of blocks |
| Blas.DotUnit | cpp/daal/src/externals/service_blas.h:262-270 | the inner product with a unit row is the entry at its place |
| Blas.DotLinear | cpp/daal/src/externals/service_blas.h:262-270 | the inner product is linear in the second row |
| Blas.ProductOfUnitRow | cpp/daal/src/externals/service_blas.h:262-270 | a cell whose row of B is a unit row is alpha times an entry of A |
| Blas.ProductLinear | cpp/daal/src/externals/service_blas.h:262-270 | cells are linear in the row of B |
| Blas.Xxgemm | cpp/daal/src/externals/service_blas.h:262-270 | the contract of the product kernel on a window of a flat matrix |
| Blas.FillCells | cpp/daal/src/externals/service_blas.h:259-263 | the row-layout branch writes its window of cells and nothing else |
| Blas.FillRowBlock | cpp/daal/src/externals/service_blas.h:248-278 | a row block is filled by its column blocks in any order |
| Blas.CopyColumns | cpp/daal/src/externals/service_blas.h:271-276 | the buffer of the swapped product is copied to the transposed cells |
| Blas.FillColumns | cpp/daal/src/externals/service_blas.h:264-277 | the column-layout branch writes the same values to the same cells |
| Blas.RunRowBlock | cpp/daal/src/externals/service_blas.h:231-279 | either branch fills its rows and no others |
| Blas.XgemmBlocked | cpp/daal/src/externals/service_blas.h:182-282 | with beta = 0, any requested sizes, orders and layout, every cell (j, i) is alpha times the product of row i of A and row j of B, in particular alpha a[i][c] when row j is the unit row of column c |
| Distances.ComputeDistancePow2 | cpp/daal/src/algorithms/service_kernel_math.h:57-68 | the loop computes the sum of squared differences |
| Distances.DistanceExpands | cpp/daal/src/algorithms/service_kernel_math.h:120-175 | the squared distance is the two squared norms minus twice the inner product |
| Distances.DistanceZero | cpp/daal/src/algorithms/service_kernel_math.h:57-68 | it is nonnegative, and zero iff the rows agree |
| Layout.RowMajor | cpp/daal/src/algorithms/service_kernel_math.h:171-175 | the cells of a buffer follow each other row by row |
| Distances.NormBlock | cpp/daal/src/algorithms/service_kernel_math.h:261-286 | a block computes the norms of its rows only |
| Distances.ComputeNorm | cpp/daal/src/algorithms/service_kernel_math.h:250-289 | blocks in any order compute every norm |
| Distances.EuclideanDistances.Init | cpp/daal/src/algorithms/service_kernel_math.h:133-149 | both norm buffers, or one when the tables are the same |
| Distances.CombineNorms | cpp/daal/src/algorithms/service_kernel_math.h:167-175 | the in-place update of one batch |
| Distances.EuclideanDistances.ComputeABt | cpp/daal/src/algorithms/service_kernel_math.h:292-306 | the products of a window of rows of A and a window of rows of B |
| Distances.EuclideanDistances.ComputeBatch | cpp/daal/src/algorithms/service_kernel_math.h:152-225 | any window of rows of A against any window of rows of B becomes distancePow2 values, other rows of the buffer are untouched |
| Distances.EuclideanDistances.ComputeFull | cpp/daal/src/algorithms/service_kernel_math.h:228-247 | every cell (i, j) is distancePow2 of row i of A and row j of B |
| HashTable.InsertedChain | cpp/daal/src/algorithms/service_hash_table.h:123-148 | insertion into any occupied bucket keeps the head, and sets the value of the key in the chain and of no other key |
| HashTable.InsertedLookup | cpp/daal/src/algorithms/service_hash_table.h:114-150 | after an insertion of a key not in the head, into any bucket, the new value is found and nothing else changes |
| HashTable.InsertedAtHead | cpp/daal/src/algorithms/service_hash_table.h:117-148 | an insertion of the head's key changes no lookup until the head is erased, then the new value is found |
| HashTable.ErasedFirst | cpp/daal/src/algorithms/service_hash_table.h:152-193 | erasure from any bucket takes away the first entry with the key: lookups of it go on behind that entry, others do not change |
| HashTable.ErasedLookup | cpp/daal/src/algorithms/service_hash_table.h:152-193 | after an erasure the key is gone and nothing else changes |
| HashTable.InsertRefines | cpp/daal/src/algorithms/service_hash_table.h:114-150 | insert refines adding to a map iff the key is not in its bucket's head cell; keys stay distinct and in their hash buckets |
| HashTable.ReinsertShowsAfterErase | cpp/daal/src/algorithms/service_hash_table.h:114-193 | inserting the key of a head cell changes no lookup; erasing the key then leaves the table as the insertion should have left it |
| HashTable.EraseRefines | cpp/daal/src/algorithms/service_hash_table.h:152-193 | erase refines removing from a map, with the same invariant |
| HashTable.RunRefines | cpp/daal/src/algorithms/service_hash_table.h:86-193 | every run that inserts only keys not stored at that moment refines the same run on a map |
| HashTable.NewKeyNotAtHead | cpp/daal/src/algorithms/service_hash_table.h:114-122 | a key not stored is not in a head cell |
| HashTable.EmptyRepresents | cpp/daal/src/algorithms/service_hash_table.h:63-70 | a new table is the empty map |
| HashTable.ReinsertAtHeadFails | cpp/daal/src/algorithms/service_hash_table.h:117-148 | inserting a head cell's key again keeps the old value in front and leaves the key stored twice |
| HashTable.LinksAppend | cpp/daal/src/algorithms/service_hash_table.h:138-147 | redirecting the last link appends to the chain |
| HashTable.LinksWithout | cpp/daal/src/algorithms/service_hash_table.h:180-191 | redirecting the link before a node takes it out of the chain |
| HashTable.HashTable.constructor | cpp/daal/src/algorithms/service_hash_table.h:63-70 | every bucket of a new table is empty |
| HashTable.HashTable.Search | cpp/daal/src/algorithms/service_hash_table.h:125-131 | the chain walk ends at the first entry with the key, or past the end, with its predecessor at hand |
| HashTable.HashTable.Find | cpp/daal/src/algorithms/service_hash_table.h:86-112 | walks head cell and chain to what the key's bucket holds |
| HashTable.HashTable.Insert | cpp/daal/src/algorithms/service_hash_table.h:114-150 | changes the pairs as the specification says and keeps the chains linked, unshared, and empty behind free heads |
| HashTable.HashTable.SetNext | cpp/daal/src/algorithms/service_hash_table.h:140-147 | one link changes, and no other bucket |
| HashTable.HashTable.Erase | cpp/daal/src/algorithms/service_hash_table.h:152-193 | likewise for erase; no node is added |
| HashTable.HashTable.PromoteFirst | cpp/daal/src/algorithms/service_hash_table.h:158-166 | the first chain entry moves into the head cell |
| HashTable.HashTable.Unlink | cpp/daal/src/algorithms/service_hash_table.h:180-191 | one entry leaves the chain |
| RefCounting.StepKeeps | cpp/daal/include/services/daal_shared_ptr.h:162-397 | every atomic action of every interleaving keeps the invariant: a block's counter is the number of its holders, and its deleter has run or is about to run once exactly when there is none |
| RefCounting.TouchedBlockIsLive | cpp/daal/include/services/daal_shared_ptr.h:321-357 | no increment, decrement or deleter call reaches a freed control block |
| RefCounting.LastDropDeletes | cpp/daal/include/services/daal_shared_ptr.h:350 | a decrement goes on to the deleter iff it removes the last holder |
| RefCounting.DeletionStep | cpp/daal/include/services/daal_shared_ptr.h:352-355 | only that step calls the deleter, with the handle's owned pointer, when nobody holds the block and it was never called before |
| RefCounting.NeverRevived | cpp/daal/include/services/daal_shared_ptr.h:162-397 | a block without holders never gets one again |
| RefCounting.EveryRunDeletesOnce | cpp/daal/include/services/daal_shared_ptr.h:141-150 | at every moment of every interleaving the counter equals the holders, the block is deleted at most once and not while held, and between operations it is deleted iff nobody holds it |
| RefCounting.NothingLeaks | cpp/daal/include/services/daal_shared_ptr.h:141-150 | when no handle is left, every block has been deleted exactly once |
| RefCounting.RunFaithful | cpp/daal/include/services/daal_shared_ptr.h:198-209 | if aliases keep the start of what they share, the deleter gets the pointer the block was made for |
| RefCounting.AnyHolderMayBeLast | cpp/daal/include/services/daal_shared_ptr.h:198-209 | for each holder a run exists that makes its owned pointer the one deleted |
| RefCounting.ManagedIsDeletedIff | cpp/daal/include/services/daal_shared_ptr.h:198-209 | the documented promise about the object originally managed holds iff every holder owns that pointer |
| RefCounting.AliasStartIsDeleted | cpp/daal/include/services/daal_shared_ptr.h:340-345 | a run in which an alias with another start goes last and the wrong pointer is deleted |
| RefCounting.OperationIsRun | cpp/daal/include/services/daal_shared_ptr.h:215-268 | every whole operation is a run of the handle's atomic actions |
| RefCounting.CompletedMeans | cpp/daal/include/services/daal_shared_ptr.h:215-397 | an undisturbed operation leaves the handle gone, empty, owning or equal to its source, no other handle changed, and the books in order |
| RefCounting.MadeRawMeans | cpp/daal/include/services/daal_shared_ptr.h:168-185 | constructing from a raw pointer leaves the books in order |
| RefCounting.MadeFromMeans | cpp/daal/include/services/daal_shared_ptr.h:321-345 | a copy or alias shares its source's block, whose counter grows by one |
| RefCounting.CopiedBlockIsLive | cpp/daal/include/services/daal_shared_ptr.h:364-368 | the block a copy is about to count itself on survives the copier's letting go of its own, even when they are the same |
| RefCounting.AssignFromMeans | cpp/daal/include/services/daal_shared_ptr.h:256-268 | where the guard stops an assignment across types nothing changes; otherwise the handle ends as a copy and the other handles as they were |
| RefCounting.AssignFromCopiesIff | cpp/daal/include/services/daal_shared_ptr.h:256-268 | assignment across types copies iff its guard lets it through or the handles are equal already |
| RefCounting.AssignFromMaySkip | cpp/daal/include/services/daal_shared_ptr.h:259 | an empty handle stays empty when assigned from an alias that points nowhere |
| RefCounting.ResetMeans | cpp/daal/include/services/daal_shared_ptr.h:373-397 | where the guard stops reset(p) nothing changes; otherwise the handle points to p, with the new block unless p is null, and the other handles are as they were |
| RefCounting.ResetOwnsIff | cpp/daal/include/services/daal_shared_ptr.h:373-397 | after reset(p) the handle holds a block made for p iff p was not its start and not null, or it was its start and it held such a block before |
| RefCounting.ResetReleasesIff | cpp/daal/include/services/daal_shared_ptr.h:234-240 | after reset(p) the handle no longer holds its former block iff p was not its start or it held none |
| RefCounting.ResetMayNotRelease | cpp/daal/include/services/daal_shared_ptr.h:377 | an alias with a null start still holds its block after reset(NULL) |
| RefCounting.ResetMayKeepAlias | cpp/daal/include/services/daal_shared_ptr.h:377-383 | an alias reset to its own start keeps sharing a block made for another pointer, and the start is never deleted |
| RefCounting.ResetMayNotOwn | cpp/daal/include/services/daal_shared_ptr.h:377-383 | an alias of an empty handle reset to its start stays without a block |
| SharedPtr.SharedPtr.constructor | cpp/daal/include/services/daal_shared_ptr.h:162 | an empty handle joins the pool; all its fields are null |
| SharedPtr.SharedPtr.FromRaw | cpp/daal/include/services/daal_shared_ptr.h:168-185 | a non-null pointer gets a new block counting one, null gets none; both pointers are p |
| SharedPtr.SharedPtr.From | cpp/daal/include/services/daal_shared_ptr.h:321-345 | copy, shifted copy and alias: fields as given, one more holder; the source stays as it was |
| SharedPtr.SharedPtr.DropCount | cpp/daal/include/services/daal_shared_ptr.h:350 | the decrement is the machine's drop action |
| SharedPtr.SharedPtr.RunDeleter | cpp/daal/include/services/daal_shared_ptr.h:352-355 | the deleter call is the machine's delete action |
| SharedPtr.SharedPtr.Remove | cpp/daal/include/services/daal_shared_ptr.h:347-357 | `_remove` performs begin, drop and, for the last holder, delete; the block loses one from its counter, and the last holder has the deleter called once, with its owned pointer |
| SharedPtr.SharedPtr.Destroy | cpp/daal/include/services/daal_shared_ptr.h:215 | the destructor completes a release, letting go of the block so |
| SharedPtr.SharedPtr.Reset | cpp/daal/include/services/daal_shared_ptr.h:226-232 | reset() completes an emptying, letting go of the block so, and nulls the fields |
| SharedPtr.SharedPtr.CopyFrom | cpp/daal/include/services/daal_shared_ptr.h:364-368 | release, copy and count, also when both handles share one block |
| SharedPtr.SharedPtr.Assign | cpp/daal/include/services/daal_shared_ptr.h:359-371 | assignment of the same type copies, and does nothing on itself; afterwards the handle's fields are the source's |
| SharedPtr.SharedPtr.AssignFrom | cpp/daal/include/services/daal_shared_ptr.h:256-268 | assignment across types, with its guard: the handle's fields become the source's, or neither the handle nor anything else changes |
| SharedPtr.SharedPtr.ResetRaw | cpp/daal/include/services/daal_shared_ptr.h:373-397 | reset(p) with either deleter, with its guard: the handle lets go of its block, points to p and has a new block for it, none for null; or neither the handle nor anything else changes |
| SharedPtr.SharedPtr.UseCount | cpp/daal/include/services/daal_shared_ptr.h:300-304 | the number of handles that hold the same block |

## Left out

- The 1-array and 2-array `qSort`, the `compare` variant and `qSortByKey`: the same algorithm as the 3-array form with arrays dropped or the order a parameter.
- QuickSort.QSort: requires lengths that an `int` represents, and row indices that the data type represents, which the stack of the multi-array forms needs; what a run does after a midpoint overflows is undefined and not modelled.
- NaN among sort keys and scores: comparisons are total orders there.
- Shuffle.BufferSufficesIff: over arbitrary words; which word sequences MT19937 produces is not modelled.
- Shuffle.GenerateShuffledIndices: what the code reads past the end of its word buffer is not modelled; n = 0 is excluded because n - 1 wraps around.
- The state and the skipping of the MT19937 generator: the words are an arbitrary input.
- TrainTestSplit.TrainTestSplit: failing block reads and row counts whose sum exceeds 64 bits are not modelled; the conversion of a cell to a type and back is one function, assumed idempotent where rows are counted.
- Blas.XgemmBlocked: beta other than 0, strides other than the natural ones, and the AVX-512 `Helper::copy` (its prologue assumes the length covers the alignment gap).
- Distances.EuclideanDistances.ComputeFull: the square roots for unsquared distances, the `_isSqrtNorm` path and the cosine, Minkowski and Chebyshev distances are not modelled.
- Rounding in the ROC score, the products and the distances: they are over the reals.
- Finiteness.CheckFinitenessInBlocks: a failed allocation of the flags, after which the code returns an answer it has not set, is not modelled.
- Finiteness.AllValuesAreFinite: failing block reads and the overflow check of rows times columns are not modelled.
- The integer mix of `Hash<cpu, uint32_t>`: the hash function is an arbitrary parameter, so nothing depends on it.
- HashTable.HashTable.Insert: a failed allocation of an entry, after which the code returns without inserting, is not modelled.
- Freeing of hash entries, and the destructor of the table: an unlinked entry is no longer a node of the table.
- RefCounting.Enabled: two threads never operate on one handle at once, nor change a handle that another one is just copying; the atomic counter orders everything else.
- SharedPtr: the width of the counter, deleters that act on other handles, failed allocation of a block, and the pointer adjustments of casts between types.

# parlaylib sequence primitives and quicksort, modelled in Dafny

This project models the core of parlaylib's sequence primitives
(`include/parlay/internal/sequence_ops.h`) and of its serial/forking dual-pivot
quicksort (`include/parlay/internal/quicksort.h`). Each operation is proved
against a specification.

- **Blocks** (`blocks.dfy`): `num_blocks` and the slicing done by `sliced_for`.
  The default block size is 1024. Block i is `[i*bs, min(i*bs+bs, n))`, and the
  blocks partition `[0, n)`.
- **Monoids** (`monoids.dfy`): a monoid is an identity and a combinator. The
  left fold `Fold` is the meaning of every reduction and scan.
- **Reduction** (`reduction.dfy`): `reduce_serial` and `reduce`. `reduce`
  uses the block size `max(1024, 4*ceil(sqrt(n)))`. It folds each block and
  then reduces the block sums recursively. Its result is the left fold from the
  identity on every path.
- **Scanning** (`scanning.dfy`): `scan_serial`, the three-phase `scan_`,
  `scan_inplace` and both `scan` overloads. There are exclusive and inclusive
  variants. Input and output may be the same array.
- **Compaction** (`compaction_spec.dfy`, `compaction.dfy`): `sum_bools_serial`,
  `pack_serial`, `pack_serial_at`, `pack`, `pack_out`, `filter`, `filter_out`
  and `pack_index`. Each is specified by `Kept` (the flagged elements in order)
  and `CountTo` (the number of flagged elements).
- **Splitting** (`splitting.dfy`): `split_two` and `split_three`. Their outputs
  are the stable concatenation of the classes, and a permutation of the input.
  `split_three` reports an invalid-argument outcome when input and output are
  the same.
- **Sorting** (`sorting_spec.dfy`, `quicksort.dfy`):
  - `base_case`, `insertion_sort`, `sort5`, `split3`, `quicksort_serial` and
    `quicksort` over an index range `[lo, hi)` of an array.
  - The comparator is any strict weak order.
  - `Permuted(a, b, lo, hi)` says that `a[lo..hi)` is a rearrangement of
    `b[lo..hi)` and that nothing outside the range changed. The lemma
    `BagIsMultiset` ties it to multisets.

Termination of `quicksort_serial`, `quicksort` and every loop is proved by
their `decreases` clauses. `SerialRound`, `SerialMiddle`, `SerialRounds` and
`QuicksortSerial` are mutually recursive, with a lexicographic measure: first
the length of the range, then the position in the call chain.

`quicksort_serial` (quicksort.h:98-105) recurses on the middle part (unless
the pivots are equal) and on the right part, and loops on the left part; the
model has the same shape.

## Model

| member | source | states |
|---|---|---|
| Blocks.NumBlocks | include/parlay/internal/sequence_ops.h:49-54 | a non-empty range has at least one block, so every element is visited (the exact count, 0 for n = 0 and the ceiling of n / bs otherwise, is stated by NumBlocksIsCeiling) |
| Blocks.NumBlocksIsCeiling | include/parlay/internal/sequence_ops.h:49-54 | there are no blocks exactly when n is 0; otherwise the last block starts before n and the blocks reach n, so the count is ceil(n / bs) |
| Blocks.BlockExists | include/parlay/internal/sequence_ops.h:49-54 | block i exists exactly when i * bs < n |
| Blocks.BlockSlice | include/parlay/internal/sequence_ops.h:56-65 | the slice handed to block i is [i*bs, min(i*bs + bs, n)), it is non-empty, and it lies between consecutive boundaries |
| Blocks.BoundaryEnds | include/parlay/internal/sequence_ops.h:56-65 | the first block starts at 0 and the last block ends at n |
| Blocks.BlocksPartition | include/parlay/internal/sequence_ops.h:56-65 | every index j < n lies in block j / bs and in no other block |
| Blocks.FewerBlocksThanElements | include/parlay/internal/sequence_ops.h:86-90 | with two or more blocks of at least two elements there are fewer block sums than elements, so the recursive `reduce` on Sums is on a shorter sequence |
| Monoids.AddMonoid | include/parlay/internal/sequence_ops.h:203 | `addm<size_t>` is a monoid: its addition is associative and 0 is its identity |
| Monoids.FoldAppend | include/parlay/internal/sequence_ops.h:96-117 | folding a concatenation folds the second part from the fold of the first |
| Monoids.FoldShift | include/parlay/internal/sequence_ops.h:132-135 | for a monoid, a non-empty part folded from a seed x equals x combined with the part's fold from the identity |
| Monoids.FoldSeededWithFirst | include/parlay/internal/sequence_ops.h:67-73 | seeding the fold with the first element, as `reduce_serial` does, gives the fold from the identity |
| Reduction.ReduceSerial | include/parlay/internal/sequence_ops.h:67-73 | on a non-empty sequence the result is the fold of A[1..] from A[0], which for a monoid is the fold of A from the identity |
| Reduction.BlockReductions | include/parlay/internal/sequence_ops.h:86-89 | Sums has one entry per block, and Sums[i] is the fold of block i |
| Reduction.CeilSqrt | include/parlay/internal/sequence_ops.h:80 | the result r is the least r with r * r >= n, i.e. ceil(sqrt(n)) |
| Reduction.ReduceBlockSize | include/parlay/internal/sequence_ops.h:80 | the block size is max(1024, 4 * ceil(sqrt(n))) |
| Reduction.FoldOfBlockSums | include/parlay/internal/sequence_ops.h:86-90 | folding the first i block sums equals folding the input up to the start of block i |
| Reduction.Reduce | include/parlay/internal/sequence_ops.h:75-92 | the result is the left fold of A from the identity on every path (empty, one block or sequential, blocked); it is the identity for an empty A |
| Scanning.ExclusiveInclusive | include/parlay/internal/sequence_ops.h:104-115 | an inclusive entry is the exclusive entry combined with the element, and the next exclusive entry is the inclusive one |
| Scanning.ScanSerial | include/parlay/internal/sequence_ops.h:96-117 | Out[lo..hi) becomes the exclusive or inclusive scan of the old In[lo..hi) from the offset; the result is the fold from the offset; the rest of Out is unchanged; In and Out may alias |
| Scanning.ReduceBlocks | include/parlay/internal/sequence_ops.h:127-130 | phase 1 of `scan_`: Sums[i] is the fold of block i |
| Scanning.ScannedBlockSums | include/parlay/internal/sequence_ops.h:131 | phase 2: the exclusive scan of the block sums is, at k, the fold of the input before block k |
| Scanning.BlockScanned | include/parlay/internal/sequence_ops.h:132-135 | scanning one block seeded with the fold of everything before it gives exactly the global scan entries of that block |
| Scanning.ScanBlock | include/parlay/internal/sequence_ops.h:132-135 | one block of phase 3 extends the scanned prefix of Out to the block's end, and keeps the unread input intact |
| Scanning.ScanBlocks | include/parlay/internal/sequence_ops.h:132-135 | phase 3: Out[..n] becomes the scan of the old input; Out beyond n is unchanged |
| Scanning.ScanBlocked | include/parlay/internal/sequence_ops.h:127-136 | the three phases give the scan of the input, and the total is the fold of the input |
| Scanning.Scan_ | include/parlay/internal/sequence_ops.h:119-137 | `scan_` writes the exclusive or inclusive scan of the old input into Out and returns the total fold, whether it runs serially (at most two blocks, or sequential) or in three phases |
| Scanning.ScanInplace | include/parlay/internal/sequence_ops.h:140-143 | In is replaced by its own scan, and the total is returned |
| Scanning.Scan | include/parlay/internal/sequence_ops.h:145-152 | a new sequence holding the scan of In, and the total |
| Scanning.ScanMoved | include/parlay/internal/sequence_ops.h:154-161 | the moved-from storage itself holds the scan, and the total is returned |
| CompactionSpec.KeepLength | include/parlay/internal/sequence_ops.h:170-181 | the packed output is as long as the number of true flags |
| CompactionSpec.CountMonotone | include/parlay/internal/sequence_ops.h:205-208 | counts grow with the prefix by at most its length, so each block's output range [Sums[i], Sums[i+1]) is well formed |
| CompactionSpec.TwoWayCounts | include/parlay/internal/sequence_ops.h:348-353 | the false count plus the true count of a prefix is its length |
| CompactionSpec.ThreeWayCounts | include/parlay/internal/sequence_ops.h:314-320 | the 0, 1 and other counts of a prefix add up to its length, so the third region starts at m0 + m1 + (s - Sums0[i] - Sums1[i]) |
| CompactionSpec.PartitionPermutation | include/parlay/internal/sequence_ops.h:290-363 | the concatenation of the parts kept by three disjoint, covering flag classes is a permutation of the input prefix |
| CompactionSpec.TwoWayPermutation | include/parlay/internal/sequence_ops.h:334-363 | the false-flagged then the true-flagged elements form a permutation of the input |
| CompactionSpec.ThreeWayPermutation | include/parlay/internal/sequence_ops.h:290-332 | the 0-, 1- and other-flagged elements, in that order, form a permutation of the input |
| CompactionSpec.KeptIndicesExact | include/parlay/internal/sequence_ops.h:284-288 | the packed indices are strictly increasing and are exactly the positions of true flags |
| CompactionSpec.KeepByIndices | include/parlay/internal/sequence_ops.h:284-288 | the k-th kept element is In at the k-th kept index, so packing the index sequence gives the positions of the kept elements |
| CompactionSpec.KeepMembers | include/parlay/internal/sequence_ops.h:233-257 | x is kept exactly when some position holds x with its flag satisfied |
| CompactionSpec.KeepMapped | include/parlay/internal/sequence_ops.h:240-244 | keeping by the flags f(In[j]) stored in Fl is keeping by f itself, with the same count |
| CompactionSpec.OffsetsAreCounts | include/parlay/internal/sequence_ops.h:203 | the exclusive scan of the block counts gives, for each block, the number of flagged elements before it, and the total is the flagged count |
| Compaction.SumBoolsSerial | include/parlay/internal/sequence_ops.h:163-168 | the result is the number of true flags in I[s..e), at most e - s |
| Compaction.PackSerial | include/parlay/internal/sequence_ops.h:170-181 | the result is the elements with true flags, in order |
| Compaction.PackSerialAt | include/parlay/internal/sequence_ops.h:184-190 | writes the flagged elements of In[s..e) in order from Out[lo], returns their number, and leaves the rest of Out unchanged |
| Compaction.BlockTrueCounts | include/parlay/internal/sequence_ops.h:199-202 | Sums[i] is the number of true flags in block i |
| Compaction.FlagAndCountBlock | include/parlay/internal/sequence_ops.h:240-244 | one block of `filter`'s first pass: the flags of block i become f of its elements and Sums[i] its true count, extending the flagged-and-counted prefix of blocks by one |
| Compaction.BlockPredicateCounts | include/parlay/internal/sequence_ops.h:238-244 | Fl becomes f applied to each element, and Sums[i] counts the true ones in block i |
| Compaction.FlagBlock | include/parlay/internal/sequence_ops.h:241-243 | sets Fl[j] := f(In[j]) on [s, e), counts the true ones and leaves the rest of Fl unchanged |
| Compaction.BlockOffsets | include/parlay/internal/sequence_ops.h:203 | scanning the block counts in place turns each into its block's offset and returns the total |
| Compaction.PackBlocks | include/parlay/internal/sequence_ops.h:205-208 | block by block, the kept elements fill Out[..m] in order, and Out[m..] is unchanged |
| Compaction.Pack | include/parlay/internal/sequence_ops.h:192-210 | the result is the elements with true flags, in order, on the serial and the blocked path |
| Compaction.PackOut | include/parlay/internal/sequence_ops.h:212-231 | returns the number of true flags among the first n, writes those elements in order to the front of Out, and leaves the rest of Out untouched |
| Compaction.Filter | include/parlay/internal/sequence_ops.h:233-257 | the result is the elements satisfying f, in order; x is in it exactly when x is in In and f(x) |
| Compaction.FilterOut | include/parlay/internal/sequence_ops.h:259-282 | writes the elements satisfying f in order to the front of Out, returns their number, and leaves the rest of Out untouched |
| Compaction.PackIndex | include/parlay/internal/sequence_ops.h:284-288 | the result is the positions of the true flags, strictly increasing, and i is in it exactly when Fl[i] |
| Splitting.CountFalse | include/parlay/internal/sequence_ops.h:343-345 | counts the false flags of one block |
| Splitting.BlockFalseCounts | include/parlay/internal/sequence_ops.h:339-347 | Sums[i] is the number of false flags in block i |
| Splitting.SplitTwoWrite | include/parlay/internal/sequence_ops.h:354-359 | writing In[j] at its cursor extends the false part at the front or the true part from m, and advances the right cursor |
| Splitting.SplitTwoBlock | include/parlay/internal/sequence_ops.h:352-360 | one block [s, e) of `split_two`'s last pass, with cursors c0 and s + (m - c0): afterwards the false-flagged elements of [0, e) sit in order at the front and the true-flagged ones in order from m |
| Splitting.SplitTwoBlocks | include/parlay/internal/sequence_ops.h:350-361 | the false-flagged elements fill O[..m] and the true-flagged ones fill O[m..], each in order |
| Splitting.SplitTwo | include/parlay/internal/sequence_ops.h:334-363 | returns m, the false count, and an output holding the false-flagged then the true-flagged elements, each in order; the output is a permutation of the input |
| Splitting.CountZeroOne | include/parlay/internal/sequence_ops.h:302-311 | counts the 0 flags and the 1 flags of one block |
| Splitting.BlockZeroOneCounts | include/parlay/internal/sequence_ops.h:298-313 | Sums0[i] and Sums1[i] are the numbers of 0 and 1 flags in block i |
| Splitting.SplitThreeWrite | include/parlay/internal/sequence_ops.h:321-328 | writing In[j] at the cursor of its class extends that class's region, and advances that cursor |
| Splitting.SplitThreeBlock | include/parlay/internal/sequence_ops.h:317-329 | one block [s, e) of `split_three`'s last pass, with cursors o0, m0 + o1 and m0 + m1 + (s - o0 - o1): afterwards the 0, 1 and other elements of [0, e) sit in order in their three regions of the slice |
| Splitting.SplitThreeBlocks | include/parlay/internal/sequence_ops.h:316-330 | the 0-, 1- and other-flagged elements fill the slice, in that order and each in input order; nothing outside the slice changes |
| Splitting.SplitThreeInto | include/parlay/internal/sequence_ops.h:297-331 | returns (m0, m1), the 0 and 1 counts, with the slice holding the three classes in order |
| Splitting.SplitThree | include/parlay/internal/sequence_ops.h:290-332 | the same array as input and output is an invalid argument, and then Out is untouched; otherwise, by the first n flags (longer flag sequences are accepted), it returns (m0, m1), the output slice is the three classes in order, a permutation of the input slice, and the rest of Out is untouched |
| SortingSpec.BagIsMultiset | include/parlay/internal/quicksort.h:21-29 | the recursive bag of a range is the multiset of that slice, so `Permuted` means equal multisets with everything outside the range unchanged |
| SortingSpec.PermutedWiden | include/parlay/internal/quicksort.h:96-128 | a rearrangement of a sub-range is a rearrangement of any enclosing range |
| SortingSpec.EquivalentSorted | include/parlay/internal/quicksort.h:42-43 | a range whose elements are all at least x and at most y, where x is not below y, is sorted, since all its elements are equivalent |
| Quicksort.Swap | include/parlay/internal/quicksort.h:26 | exchanges A[i] and A[j] and nothing else |
| Quicksort.SwapWithin | include/parlay/internal/quicksort.h:26 | an exchange inside [lo, hi) keeps the range a rearrangement of the original |
| Quicksort.BaseCase | include/parlay/internal/quicksort.h:14-19 | when `large` holds the base case is exactly n < 16, otherwise exactly n < 24; a range that is split has at least 16 elements |
| Quicksort.InsertStep | include/parlay/internal/quicksort.h:25-26 | one exchange of the inner loop moves the inserted element one place down and keeps the loop's invariant |
| Quicksort.InsertDone | include/parlay/internal/quicksort.h:25 | when the inner loop stops (start of the range, or the element is not less than its left neighbour) the prefix up to k is sorted |
| Quicksort.InsertExchange | include/parlay/internal/quicksort.h:24-26 | one exchange of the inner loop moves the inserted element one place down, keeping the insertion invariant and the range a permutation |
| Quicksort.Insert | include/parlay/internal/quicksort.h:24-27 | inserting A[k] into the sorted A[lo..k) leaves A[lo..k] sorted and rearranged |
| Quicksort.InsertionSort | include/parlay/internal/quicksort.h:21-29 | the range ends sorted and a permutation of what it held |
| Quicksort.SampleIndex | include/parlay/internal/quicksort.h:35-36 | every sample position m * (l + 1), with m = n / 6 and l < 5, lies inside the range, and with n >= 6 above the front slot l it is exchanged with |
| Quicksort.SamplesIncrease | include/parlay/internal/quicksort.h:35-36 | with n >= 6 the sample positions strictly increase, so no sample is overwritten before it is read |
| Quicksort.GatherSamples | include/parlay/internal/quicksort.h:34-36 | with n >= 6, A[lo + l] ends holding the original sample at m * (l + 1) for each l < 5; the range is a permutation |
| Quicksort.Sort5 | include/parlay/internal/quicksort.h:31-38 | A[lo..lo+5) is sorted; with n >= 6 it holds exactly the five stride-m samples (as a multiset); the whole range is a permutation |
| Quicksort.PivotsInOrder | include/parlay/internal/quicksort.h:49-54 | after `sort5` and the two exchanges, p1 is not above p2 and A[2] lies between them |
| Quicksort.PivotsAreSamples | include/parlay/internal/quicksort.h:47-50 | after the two exchanges, A[lo] and A[lo+1] are entries 1 and 3 of the sorted front five, and putting them back gives the sorted five |
| Quicksort.ChoosePivots | include/parlay/internal/quicksort.h:31-50 | p1 = A[lo] and p2 = A[lo+1] are in order with A[lo+2] between them; they are entries 1 and 3 (the 2nd and 4th) of a sorted arrangement of the front five, which with n >= 6 are the five samples; the range is a permutation |
| Quicksort.ScanUp | include/parlay/internal/quicksort.h:60 | the scan stops at the first element not less than p, and everything passed is less than p |
| Quicksort.ScanDown | include/parlay/internal/quicksort.h:61 | the scan stops at the last element not greater than p, and everything passed is greater than p |
| Quicksort.LoopStart | include/parlay/internal/quicksort.h:57-62 | the set-up establishes the main loop's invariant |
| Quicksort.StepBelow | include/parlay/internal/quicksort.h:71-73 | moving an element less than p1 to L keeps the invariant |
| Quicksort.StepAboveSwaps | include/parlay/internal/quicksort.h:74-81 | the exchanges for an element greater than p2 keep the regions with R one lower |
| Quicksort.StepAboveScan | include/parlay/internal/quicksort.h:82 | after the scan down the invariant holds again |
| Quicksort.ExchangeAbove | include/parlay/internal/quicksort.h:75-79 | for an A[M] greater than p2: after exchanging it with A[R], and with A[L] when the new A[M] is less than p1, the three regions hold with M one further and R one lower, and A[M] is not greater than p2; a permutation |
| Quicksort.SplitAbove | include/parlay/internal/quicksort.h:74-82 | the whole above-p2 branch: the exchanges, then the scan down, re-establish the loop invariant with M one further and R lower; a permutation |
| Quicksort.SplitStep | include/parlay/internal/quicksort.h:69-85 | one iteration keeps the invariant and the permutation, advances M by one and never raises R |
| Quicksort.SplitLoop | include/parlay/internal/quicksort.h:64-85 | at the end of the loop M = R + 1, and the regions below p1, between the pivots and above p2 cover the range |
| Quicksort.PivotsPlaced | include/parlay/internal/quicksort.h:88-90 | the first two closing exchanges put p1 at L - 2 and p2 at L - 1 and keep the regions |
| Quicksort.MovePivots | include/parlay/internal/quicksort.h:88-90 | performs those exchanges, and they permute the range |
| Quicksort.SecondPivotPlaced | include/parlay/internal/quicksort.h:91 | the last exchange puts p2 at the end of the middle part, giving the three parts |
| Quicksort.SwapSecondPivot | include/parlay/internal/quicksort.h:91 | performs that exchange, giving the three parts as a permutation |
| Quicksort.PlacePivots | include/parlay/internal/quicksort.h:87-93 | L drops by two; p1 ends at L and p2 at R; the three parts hold; the range is a permutation |
| Quicksort.SplitAroundPivots | include/parlay/internal/quicksort.h:51-94 | with the ordered pivots at A[lo] and A[lo+1]: they end at A[L] and A[M-1], with the three parts around them; the flag says whether they are equivalent; the range is a permutation |
| Quicksort.Split3 | include/parlay/internal/quicksort.h:44-94 | for n >= 5: A[lo..L) is less than p1 = A[L]; A[L+1..M) lies between p1 and p2 = A[M-1]; A[M..hi) is greater than p2; with n >= 6, p1 and p2 are entries 1 and 3 (the 2nd and 4th) of a sorted arrangement of the five stride-m samples; the flag says whether p1 and p2 are equivalent; the range is a permutation |
| Quicksort.PivotsOrdered | include/parlay/internal/quicksort.h:44-94 | the pivots `split3` leaves are in order |
| Quicksort.PivotsEqualMiddleSorted | include/parlay/internal/quicksort.h:42-43 | when the pivots are equal, the middle part is already sorted |
| Quicksort.ThreePartsAfterLeft | include/parlay/internal/quicksort.h:119 | sorting the left part keeps the three parts and both pivots |
| Quicksort.LeftKept | include/parlay/internal/quicksort.h:102-103 | sorting the middle and right parts keeps p1 and the left part below it |
| Quicksort.MiddleKept | include/parlay/internal/quicksort.h:102-103 | sorting the middle and right parts keeps the middle part between the pivots, and keeps it sorted |
| Quicksort.RightKept | include/parlay/internal/quicksort.h:102-103 | sorting the middle and right parts keeps the right part above p2 |
| Quicksort.PartsJoin | include/parlay/internal/quicksort.h:40-43 | p1, a sorted middle part and a sorted right part form a sorted run above the left part |
| Quicksort.PartsSorted | include/parlay/internal/quicksort.h:101-103 | after `split3` and sorting the middle and right parts, A[L..e) is sorted and above A[lo..L) |
| Quicksort.RoundKeeps | include/parlay/internal/quicksort.h:98-105 | the loop's invariant (a sorted rest above the part left to sort) survives a round |
| Quicksort.RoundDone | include/parlay/internal/quicksort.h:99-104 | a round of `split3` plus the two recursive sorts keeps the invariant with L as the new end |
| Quicksort.FinishKeeps | include/parlay/internal/quicksort.h:107 | insertion sort of the base case finishes the sort |
| Quicksort.SerialMiddle | include/parlay/internal/quicksort.h:102 | the middle part ends sorted, by recursion or because the pivots are equal |
| Quicksort.SerialRound | include/parlay/internal/quicksort.h:99-104 | one round keeps the loop's invariant and shrinks the part left to sort |
| Quicksort.SerialRounds | include/parlay/internal/quicksort.h:98-105 | the loop ends on a base case, below a sorted rest, with the range a permutation |
| Quicksort.QuicksortSerial | include/parlay/internal/quicksort.h:96-108 | the range ends sorted and a permutation of what it held |
| Quicksort.ForkJoined | include/parlay/internal/quicksort.h:118-126 | the three recursive sorts after `split3`, with the middle skipped when the pivots are equal, leave the range sorted and a permutation |
| Quicksort.LeftJoined | include/parlay/internal/quicksort.h:119-126 | a sorted left part joins the sorted rest above it into one sorted permutation |
| Quicksort.Quicksort | include/parlay/internal/quicksort.h:110-128 | delegates to `quicksort_serial` below 1024 elements; otherwise splits and sorts the parts; the range ends sorted and a permutation |

## Left out

- Parallelism: `parallel_for`, `par_do` and `par_do3` run their bodies one
  after the other, in index order. The scheduler, `num_workers` and the
  `conservative` flag do not change any result, so the model does not use
  them.
- Floating point: `ceil(sqrt(n))` in `reduce` becomes the exact integer
  ceiling square root `CeilSqrt`.
- `size_t` arithmetic: counts, offsets and indices are unbounded naturals.
  Every one is at most the input length plus one block size (the reduce
  block size is at least 1024, and `s + block_size` in `sliced_for` can pass
  n), so no wrap-around occurs.
- Uninitialized storage and `assign_uninitialized`: outputs are allocated
  with a default value (`T(0)`) and then overwritten, or built as sequences.
- Slices: a slice `S.cut(s, e)` is an array or sequence together with the
  range `[s, e)`. For `split_three`, In and Out cover the same range, and two
  slices over the same range are equal exactly when they are the same array,
  so `slice_eq` becomes array identity (see the SplitThree line below).
- Splitting.SplitThree: the last pass reads a snapshot of the input slice.
  Since input and output are different arrays, this is what the code reads.
- Splitting.SplitThree: In and Out are modelled as the same index range
  [lo, hi) of two arrays, so two slices of one array at different, overlapping
  offsets cannot be expressed; `slice_eq` (sequence_ops.h:295) would let such
  slices through, and what the source then writes is not modelled.
- Quicksort.BaseCase: the parameter `large` stands for the compile-time test
  of quicksort.h:16, which looks at the iterator: its value type is a pointer,
  or `sizeof` of the iterator itself exceeds 8 bytes. For a raw-pointer
  iterator it therefore holds only when the elements are pointers.
- Pack, PackSerial: these require the flags to be exactly as long as the
  input, because `pack_serial` sizes its output by all of the flags but
  writes only those of the first n positions.
- Splitting.SplitTwo: requires the flags to be exactly as long as the input;
  `split_two` reads only the first n flags, and the case of longer flags is
  simply not modelled.
- Flags: every flag sequence (of `pack`, `pack_serial`, `pack_out`,
  `pack_index`, `split_two`) is modelled as `seq<bool>`. The source accepts
  any `Bool_Seq`: `sum_bools_serial` adds the flag values while `pack_serial`
  tests their truth, so a non-boolean flag such as 2 would make the count and
  the writes disagree; the model does not capture such flags.
- Compaction.PackIndex: returns unbounded naturals. The source casts each
  index to `Idx_Type`; an `Idx_Type` too narrow for the input length would
  wrap, and the indices would then not be strictly increasing.
- `p_split3`, `p_quicksort_` and `p_quicksort_inplace`: the source marks them
  as not tested or used, and they rely on `num_workers`.
- Delayed sequences, `tabulate`, `map` and `copy`: outside the primitives
  modelled here. `pack_index` packs the index sequence as a plain sequence.
- `reduce` flags: only the sequential flag changes the path. The recursive
  call on the block sums uses no flags, as in the source.

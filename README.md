# Four merge sorts with space estimates, modelled and proved in Dafny

The repository is a benchmark of four merge-sort programs. Each is its own
Go program with its own merge routine and its own way of estimating the
space a run needs:

- `merge1.go` (module `MergeCopy`): `myMergeSort` copies each half of the
  array into fresh arrays, sorts them recursively and merges them back with
  `merge`. It compares with `<`, so on equal keys the right half goes first.
  Each level is charged `4 * (h + m)` bytes.
- `merge2.go` (module `MergeRange`): `mergesort2(low, high)` sorts a range
  of a shared array. `merge2` merges into a scratch array `U` with `<=` and
  copies it back. Each merge is charged `4 * (high - low + 1)` bytes.
- `merge3.go` (module `MergeBottomUp`): `mergesort3` merges runs of width
  1, 2, 4, ... through a caller-supplied `temp`. Each `merge3` adds
  `4 * (high - low + 1)` to the global `totalMemory`.
- `merge4.go` (module `MergeLinked`): `mergesort4(low, high)` threads the
  `Link` fields of an arena of `Record{Key, Link}` into one chain ordered by
  key and ended by `-1`. `merge4` relinks two chains without moving any key.
  It charges one link size for the head and one per loop step.

`SortSpec` holds what the engines share:
- what "sorted" means;
- the two-index merge, with the tie rule as a parameter;
- the proofs that a merge is a permutation of its runs and is sorted when
  its runs are;
- the fact that a sorted permutation is unique.

`Agreement` uses that last fact to prove that the four engines put every
input in the same order. It also proves that the three array engines report
the same estimate `4 * k * 2^k` bytes for `2^k` keys.

Each Go routine except `min` is modelled as a Dafny method over arrays;
`min` is the function `SortSpec.Min`, shared with the linked engine's bounds:
- `merge`, `merge2` and `merge3` are loops with invariants;
- `merge4` is a loop over the record arena that relinks two chains;
- `myMergeSort`, `mergesort2` and `mergesort4` are recursive methods;
- `mergesort3` is a nested loop.

Each method is proved against a specification function of its input:
- `TopDown`, `Ranged` and `BottomUp` give the final order of the array engines.
- `Linked` gives the order of the linked engine's chain.
- `Cost`, `TotalMemory` and `Units` give the estimates.

Lemmas then prove that each specification function sorts, is a permutation,
and meets its cost recurrence and bounds.

The Go globals become explicit state:
- The global `S` of `merge2.go` and `merge4.go` is an `array` parameter.
- `totalMemory` is an in-value that the method returns updated.
- The out-parameters `*mergedList` and `*spaceUsed` are return values.

The linked arena is an `array<Record>`. A chain is described by a ghost
sequence of the indices it visits (`Chain`): each index links to the next,
no index repeats, and the last one links to `Nil` (`-1`).

## Model

| member | source | states |
|---|---|---|
| SortSpec.Merge | merge1.go:20-42 | the two-index merge emits every element of both runs: its length is the sum of theirs |
| SortSpec.MergePermutation | merge1.go:20-42 | the merge is a permutation of the two runs together |
| SortSpec.MergeSorted | merge2.go:22-45 | merging two sorted runs gives a sorted run |
| SortSpec.MergeOfSortedRuns | merge3.go:31-54 | merging sorted permutations of `left` and `right` gives a sorted permutation of `left + right` |
| SortSpec.TieRulesAgreeOnValues | merge2.go:25 | on sorted runs of integers the `<` and `<=` merges produce the same sequence |
| SortSpec.SortedPermutationUnique | merge1.go:48-74 | two sorted sequences with the same multiset of elements are equal |
| SortSpec.Min | merge3.go:99-104 | the result is one of the arguments and at most both |
| MergeCopy.MergeHeads | merge1.go:20-30 | the first loop stops with one run exhausted, having written the first `i + j` elements of the `<` merge to `S` and nothing at or past `h + m` |
| MergeCopy.DrainLeft | merge1.go:32-36 | once `V` is exhausted, copying the rest of `U` completes the merge state with `i = h`, writing nothing at or past `h + m` |
| MergeCopy.DrainRight | merge1.go:38-42 | once `U` is exhausted, copying the rest of `V` leaves all of the `<` merge in `S[..h+m]` |
| MergeCopy.Merge | merge1.go:17-45 | `S[..h+m]` becomes the `<` merge of `U[..h]` and `V[..m]` (ties to `V`), `S` past `h + m` keeps its contents, and the result is `4 * (h + m)` whatever the keys |
| MergeCopy.TopDown | merge1.go:48-74 | definition of the order `myMergeSort` leaves: split at `n / 2`, sort both halves, `<` merge; its length is the input's |
| MergeCopy.Cost | merge1.go:48-74 | definition of `myMergeSort`'s estimate: 0 for `n <= 1`, else both halves' estimates plus `4 * (h + m)` |
| MergeCopy.TopDownSorts | merge1.go:48-74 | the order `myMergeSort` produces is sorted and a permutation of its input |
| MergeCopy.TopDownOfSorted | merge1.go:48-74 | keys already in order come back unchanged |
| MergeCopy.TopDownIdempotent | merge1.go:48-74 | sorting twice gives the same order as sorting once |
| MergeCopy.CopyHalves | merge1.go:53-57 | `U` and `V` are fresh, distinct arrays of `h` and `m` keys holding `S[..h]` and `S[h..n]` |
| MergeCopy.MergedHalves | merge1.go:63-65 | merging the sorted halves of the old front gives `TopDown` of the old front, with nothing past `n` changed |
| MergeCopy.MyMergeSort | merge1.go:48-74 | `S[..n]` becomes `TopDown` of its old contents, nothing past `n` changes, for `n <= 1` nothing changes, and the result is `Cost(n)` |
| MergeCopy.CostOfSplit | merge1.go:50-65 | for `n > 1` the estimate is `Cost(n/2) + Cost(n - n/2) + 4n` |
| MergeCopy.CostNonNegative | merge1.go:49-73 | the estimate is never negative |
| MergeCopy.CostMonotone | merge1.go:49-73 | the estimate never decreases as `n` grows |
| MergeCopy.CostOfPowerOfTwo | merge1.go:49-73 | for `2^k` keys the estimate is `4 * k * 2^k` |
| MergeRange.MergeHeads | merge2.go:22-33 | the first loop stops with one run exhausted, having written the first `k` keys of the `<=` merge of `S[low..mid]` and `S[mid+1..high]` to `U` |
| MergeRange.DrainLeft | merge2.go:35-39 | once the right run is exhausted, copying the rest of the left run advances the merge state to `i = mid + 1` |
| MergeRange.DrainRight | merge2.go:41-45 | once the left run is exhausted, copying the rest of the right run leaves all of the `<=` merge in `U` |
| MergeRange.MergeIntoScratch | merge2.go:20-45 | the fresh scratch `U` of length `high - low + 1` holds the `<=` merge of the two runs |
| MergeRange.Merge2 | merge2.go:17-60 | `S[low..high]` becomes the `<=` merge of its two old runs, `S` outside `[low, high]` is unchanged, and the result is `4 * (high - low + 1)` |
| MergeRange.Ranged | merge2.go:63-79 | definition of the order `mergesort2` leaves: split after `mid`, sort both parts, `<=` merge; its length is the input's |
| MergeRange.Cost | merge2.go:63-79 | definition of `mergesort2`'s estimate for `n` keys: 0 for `n <= 1`, else both parts' estimates plus `4 * (high - low + 1)` |
| MergeRange.RangedSorts | merge2.go:63-79 | the order `mergesort2` produces is sorted and a permutation of its input |
| MergeRange.RangedOfSorted | merge2.go:63-79 | keys already in order come back unchanged |
| MergeRange.RangedIdempotent | merge2.go:63-79 | sorting twice gives the same order as sorting once |
| MergeRange.MidSplits | merge2.go:64-72 | for `low < high` the split `mid` gives `low <= mid < high`, so both recursive ranges are smaller, and the left range has `n - n/2` keys |
| MergeRange.MergeSort2 | merge2.go:63-79 | `SortsRange`: for `low < high`, `S[low..high]` becomes `Ranged` of its old contents; `S` outside the range is unchanged; for `low >= high` nothing changes; the result is `Cost(high - low + 1)` |
| MergeRange.RangedSplit | merge2.go:65-74 | the order of a range is the `<=` merge of the orders of its two halves at `mid` |
| MergeRange.SortedFromParts | merge2.go:71-74 | after both recursive calls and the merge, the range holds `Ranged` of its original contents and nothing outside it has changed |
| MergeRange.MergedRange | merge2.go:71-74 | merging the two sorted parts gives `Ranged` of the whole range |
| MergeRange.CostOfSplit | merge2.go:71-76 | for `n > 1` the estimate is the estimates of the two parts plus `4n` |
| MergeRange.RangeCost | merge2.go:71-76 | the estimate of `low..high` is those of `low..mid` and `mid+1..high` plus `4 * (high - low + 1)` |
| MergeRange.CostNonNegative | merge2.go:63-79 | the estimate is never negative |
| MergeRange.CostMonotone | merge2.go:63-79 | the estimate never decreases as the range grows |
| MergeBottomUp.MergeHeads | merge3.go:31-42 | the first loop stops with one run exhausted, having written the first keys of the `<=` merge to `temp[low..k)` and nothing else of `temp` |
| MergeBottomUp.DrainLeft | merge3.go:44-48 | once the right run is exhausted, copying the rest of the left run advances the merge state and writes `temp` only at the new positions |
| MergeBottomUp.DrainRight | merge3.go:50-54 | once the left run is exhausted, copying the rest of the right run leaves all of the `<=` merge in `temp[low..high]` |
| MergeBottomUp.MergeIntoTemp | merge3.go:31-54 | `temp[low..high]` becomes the `<=` merge of `S[low..mid]` and `S[mid+1..high]`, and `temp` outside that range is unchanged |
| MergeBottomUp.Merge3 | merge3.go:26-59 | `S[low..high]` becomes the merge of its two old runs and equals `temp[low..high]`, neither array changes outside the range, and `totalMemory` grows by `4 * (high - low + 1)` |
| MergeBottomUp.Pass | merge3.go:75-87 | definition of one pass of width `size`: merge each pair of adjacent runs that has a right run, keep a lone last run; its length is the input's |
| MergeBottomUp.BottomUp | merge3.go:70-90 | definition of the order `mergesort3` leaves: passes of width `w`, `2w`, ... while the width is below the length |
| MergeBottomUp.PassMemory | merge3.go:75-87 | definition of what one pass adds to `totalMemory`: `4 * (high - low + 1)` for each merge it performs |
| MergeBottomUp.TotalMemory | merge3.go:70-90 | definition of what all passes add to `totalMemory` |
| MergeBottomUp.PassPermutation | merge3.go:75-87 | one pass is a permutation of the array |
| MergeBottomUp.PassDoublesRuns | merge3.go:70-89 | if the blocks of width `size` are sorted before a pass, the blocks of width `2 * size` are sorted after it |
| MergeBottomUp.SingletonRuns | merge3.go:63 | every array consists of sorted blocks of width 1 |
| MergeBottomUp.BottomUpFromRuns | merge3.go:70-90 | from sorted blocks of width `w`, the passes that follow leave a sorted permutation |
| MergeBottomUp.BottomUpSorts | merge3.go:62-96 | the order `mergesort3` produces is sorted and a permutation of its input |
| MergeBottomUp.BottomUpOfSorted | merge3.go:62-96 | keys already in order come back unchanged |
| MergeBottomUp.BottomUpIdempotent | merge3.go:62-96 | sorting twice gives the same order as sorting once |
| MergeBottomUp.PassMemoryBound | merge3.go:75-87 | the merged ranges of one pass are disjoint, so a pass adds between 0 and `4n` bytes |
| MergeBottomUp.TotalMemoryBound | merge3.go:70-90 | all passes together add at most `4n` bytes per pass |
| MergeBottomUp.PassMemoryMonotone | merge3.go:75-87 | one pass of a given width never charges less for more keys |
| MergeBottomUp.TotalMemoryMonotone | merge3.go:62-96 | `mergesort3`'s total charge never decreases as the input grows |
| MergeBottomUp.PassStep | merge3.go:76-80 | a merge at `low` with `mid = low + size - 1 < n - 1` and `high = min(low + 2size - 1, n - 1)` advances the pass to `min(low + 2size, n)` |
| MergeBottomUp.PassSkip | merge3.go:79 | when no right run exists (`mid >= n - 1`) the pass is complete and charges nothing more |
| MergeBottomUp.MergeCharge | merge3.go:76-80 | a merge at `low` charges `4 * (high - low + 1)` of the pass's total |
| MergeBottomUp.MergeNextPair | merge3.go:75-87 | one step of the inner loop: merges the next pair of runs if a right run exists and charges exactly its share of the pass's estimate |
| MergeBottomUp.MergePass | merge3.go:75-87 | the inner loop turns `S[..n]` into `Pass` of its old contents, leaves both arrays unchanged past `n`, and adds `PassMemory(n, size)` |
| MergeBottomUp.MergeSort3 | merge3.go:62-96 | for `n > 1`, `S[..n]` becomes `BottomUp` of its old contents; for `n <= 1` neither array changes; nothing past `n` changes; `totalMemory` grows by `TotalMemory(n, 1)` |
| MergeLinked.KeyTable | merge4.go:15-20 | the keys of the record arena, slot by slot: the table has the arena's length and slot `i`'s key at index `i` |
| MergeLinked.Chain | merge4.go:33-36 | definition of a chain: following `Link` from the head visits distinct in-bounds records in order and ends at a record whose `Link` is `-1`; an empty chain has head `-1` |
| MergeLinked.ChainHead | merge4.go:85 | a chain's head is `-1` exactly when the chain is empty, otherwise it is an arena index and the first index visited |
| MergeLinked.ChainTail | merge4.go:89 | following one link from the head of a chain leads to the chain of the remaining records |
| MergeLinked.ChainUnique | merge4.go:85-96 | following links from a head determines the chain |
| MergeLinked.MergeChains | merge4.go:71-102 | definition of the order in which `merge4` links the records of two chains; it links every record of both |
| MergeLinked.HeadSteps | merge4.go:83-96 | definition of how many records `merge4` links while both chains have records: the head and one per loop step |
| MergeLinked.MergeChainsPermutation | merge4.go:71-102 | the merged chain visits exactly the records of both chains |
| MergeLinked.MergeChainsKeys | merge4.go:74-102 | the keys along the merged chain are the `<` merge (ties to `list2`) of the keys along the two chains |
| MergeLinked.NextLinked | merge4.go:74-94 | while both chains have records, the next record linked is `list1`'s exactly when its key is strictly smaller; on equal keys `list2`'s goes first |
| MergeLinked.DrainFirst | merge4.go:100-101 | once the second chain is exhausted the rest of the first is spliced on whole |
| MergeLinked.DrainSecond | merge4.go:98-99 | once the first chain is exhausted the rest of the second is spliced on whole |
| MergeLinked.HeadStepsBounds | merge4.go:83-96 | a merge links the head and one record per loop step, at least `min(len1, len2)` and at most `len1 + len2 - 1` records in all |
| MergeLinked.MergeHead | merge4.go:74-80 | the first comparison picks the head with the smaller key (`list2` on equal keys) and starts the merge state |
| MergeLinked.LinkNext | merge4.go:86-94 | one loop step links the record with the smaller head key after `lastSorted` and changes only `S[lastSorted]` |
| MergeLinked.LinkLoop | merge4.go:85-96 | the loop ends with one chain exhausted, the records linked so far form the merge's prefix, no record outside the two chains changes, and one link size is charged per step |
| MergeLinked.LinkRest | merge4.go:98-102 | the unexhausted chain is spliced after `lastSorted`, the only record written |
| MergeLinked.Merge4 | merge4.go:71-108 | from two disjoint non-empty chains `merge4` builds the chain `MergeChains` with the same keys, changes no record outside the two chains, and charges `LinkSize * HeadSteps` |
| MergeLinked.Linked | merge4.go:33-62 | definition of the chain `mergesort4(low, high)` builds: one record for `low == high`, else the merge of the halves' chains at `mid = (low + high) / 2`; it has `high - low + 1` records, all in `[low, high]` |
| MergeLinked.Units | merge4.go:33-62 | definition of the space units `mergesort4` charges: both halves' units plus `HeadSteps` of the final merge |
| MergeLinked.Singleton | merge4.go:34-36 | setting `S[low].Link = -1` makes `low` a chain of one record and leaves the keys alone |
| MergeLinked.LinkedPermutation | merge4.go:33-62 | the chain `mergesort4(low, high)` builds visits each index of `[low, high]` exactly once |
| MergeLinked.LinkedSorts | merge4.go:33-62 | the keys along that chain are sorted and are a permutation of the keys of `S[low..high]` |
| MergeLinked.LinkedSortsAll | merge4.go:33-62 | over the whole arena `0..n-1`, the keys along the chain are sorted and are all the keys rearranged |
| MergeLinked.EqualKeysSecondFirst | merge4.go:74-80 | with two equal keys the record at index 1 is linked before the record at index 0 |
| MergeLinked.UnitsBounds | merge4.go:33-62 | the space units of `mergesort4(low, high)` depend on the keys, but always lie between `UnitsLower(low, high)` and `UnitsUpper(low, high)`, recurrences over the same splits that do not depend on the keys |
| MergeLinked.HalfSizes | merge4.go:41 | the sizes of the two halves at `mid = (low + high) / 2` depend only on the range's length |
| MergeLinked.UnitsUpperMonotone | merge4.go:33-62 | the key-independent upper bound on the units never decreases as the range grows |
| MergeLinked.UnitsLowerMonotone | merge4.go:33-62 | the key-independent lower bound on the units never decreases as the range grows |
| MergeLinked.HalvesChain | merge4.go:41-61 | the chain of `low..high` is the merge of the disjoint chains of `low..mid` and `mid+1..high` |
| MergeLinked.HalvesUnits | merge4.go:50-61 | the units of `low..high` are those of both halves plus those of the final merge |
| MergeLinked.KeepLeft | merge4.go:50-51 | sorting the right half leaves the chain of the left half intact |
| MergeLinked.MergeFrame | merge4.go:61 | the merge of the two halves changes nothing outside `[low, high]` |
| MergeLinked.MergeSort4 | merge4.go:33-68 | `mergedList` heads the chain `Linked(keys, low, high)`, the keys are never written, no record outside `[low, high]` changes, and `*spaceUsed` grows by `LinkSize * Units` |
| Agreement.EnginesAgree | merge2.go:63-79 | `myMergeSort`, `mergesort2` and `mergesort3` put every input in the same order |
| Agreement.LinkedAgrees | merge4.go:33-68 | the keys along the chain of `mergesort4(0, n-1)` are the order `myMergeSort` produces |
| Agreement.CostsAgree | merge2.go:71-76 | `mergesort2` and `myMergeSort` report the same estimate for every length |
| Agreement.FullPassMemory | merge3.go:75-87 | a pass of width `w` over `q * 2w` keys, whole pairs of runs only, charges 4 bytes per key |
| Agreement.TotalMemoryOfRuns | merge3.go:70-90 | for `n = w * 2^d` keys the `d` passes from width `w` on charge `4 * d * n` bytes |
| Agreement.ArrayCostsAgreeOnPowersOfTwo | merge3.go:28-29 | for `2^k` keys the three array engines all report `4 * k * 2^k` bytes |

The linked engine's representation has no rows of its own beyond `KeyTable`
and `Chain`: the datatype `MergeLinked.Record` is Go's `Record{Key, Link}`
(merge4.go:15-18), `MergeLinked.Nil` is the sentinel `-1`,
`MergeLinked.HeadOf` is the head index of a ghost chain, and
`MergeLinked.LinkSize` is `unsafe.Sizeof` of a link (merge4.go:83).

## Left out

- Data generators, timing, the averaging loops, `runTest`, `runSortTests`
  and `main` are left out. They use `math/rand` and the clock and are
  benchmark harness, not sorting. `tempCodeRunnerFile.go` is not part of
  this model.
- The `verbose` parameter, its printing branches, `printArray` and
  `printList` are left out: they only produce output.
- The harness's own additions to `totalMemory`, and its reset between runs,
  are left out. Only what `merge3` adds is modelled.
- `unsafe.Sizeof(S[0].Link)` is the constant `LinkSize = 8`, the size of a
  Go `int` on a 64-bit platform.
- The fixed capacity `MaxSize` of the global arrays is replaced by
  preconditions that every index is below the array's length.
- `int64` and `int` overflow is not modelled: all arithmetic is on
  unbounded integers.
- MergeLinked.MergeSort4: requires `low <= high`. In Go, with `low > high`
  some recursive call repeats its own range: `mergesort4(1, -1)` calls
  `mergesort4(1, 0)`, whose `mid` is `0`, so it calls `mergesort4(1, 0)`
  again and the recursion never ends.
- MergeBottomUp.MergeSort3: requires that `S` and `temp` are different
  arrays. The harness always passes its own `temp`.
- Tie order on integer keys cannot be observed in the array engines,
  because equal integers are indistinguishable. `SortSpec.TieRulesAgreeOnValues`
  states this. Tie order is therefore shown only where it is visible: in
  `MergeLinked.EqualKeysSecondFirst`, on record indices.
- Each loop of each array merge is its own method: `MergeHeads`, then
  `DrainLeft` and `DrainRight`, in the three array modules. In `merge4`, the head selection, loop, loop step and
  splice are `MergeHead`, `LinkLoop`, `LinkNext` and `LinkRest`. The inner
  loop body of `mergesort3` is `MergeNextPair`. The allocation and copying
  of the two halves in `myMergeSort` is `CopyHalves`. This only changes how the
  code is grouped into methods, not what it does.
- The arena keys, and the chains the two recursive calls of `mergesort4`
  build, are passed as ghost parameters so that the contracts can name
  them. They do not exist in the program.
- MergeLinked.Units: the estimate of `mergesort4` is given exactly only as
  a recurrence over the keys. Without the keys it is bounded in
  `UnitsBounds` by two recurrences over the index range, and only those
  bounds are proved monotone in the range's length; the units themselves
  depend on the keys, so two inputs of different lengths need not compare.
  No closed form is given.

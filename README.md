# Merge-insertion sort (FordJohnson.sort), modelled in Dafny

This project models `FordJohnson.sort` of lib/ford_johnson.rb. The method is
the merge-insertion sort of Ford and Johnson, the algorithm Knuth describes
in section 5.3.1 of *The Art of Computer Programming*, volume 3. It has five
steps:

1. split the input into adjacent pairs plus at most one straggler
   (`Pair.all_from`);
2. put each pair in order with one comparison and `swap!`;
3. sort the pairs recursively by their greater components;
4. build the main chain from the greater components and the lesser chain
   from the lesser ones, then move the lesser chain's head to the front of
   the main chain;
5. insert the rest of the lesser chain in groups of 2, 2, 6, 10, 22, …
   (`make_group_size_enumerator`), each group last element first, with a
   binary search bounded from above (`binary_insert_idx`).

The modules follow the file's parts:

- `Pairs` (pairs.dfy) covers the elements and the `Pair` class.
  - An element is `Leaf(v)` (an input integer) or `Pair(lesser, greater)`.
  - A pair compares by its greater component, recursively, so an element's `Key` is the integer a comparison finally looks at.
  - `all_from`, `to_a`, `<=>` and `swap!` are functions.
  - The normalisation loop is a method over an `array` of pairs.
- `GroupSizes` (group_sizes.dfy) covers the group sizes.
  - `GroupSize(k)` is the recurrence the enumerator runs.
  - A lemma gives its Jacobsthal closed form.
  - The class `GroupSizeEnumerator` holds the enumerator's two variables, `previousValue` and `power`, and proves that `Next` yields `GroupSize`.
- `BinaryInsert` (binary_insert.dfy) covers `binary_insert_idx`.
  - The while loop is a method, proved equal to the recursive function `SearchIdx`.
  - `InsertAt` is `Array#insert`.
- `FordJohnson` (ford_johnson.dfy) covers `sort`.
  - `MergeInsertion(xs, rule)` states what one call returns.
  - The methods `Sort`, `InsertLesserChain` and `InsertGroupElements` are the imperative code, with its `until` loop, the enumerator object, `shift`, `unshift` and the reversed group loop.
  - They are proved to compute `MergeInsertion(xs, GroupSizeBound)`, with the search bound the code passes.
- `Sortedness` (sortedness.dfy) proves that the same algorithm sorts every input with the textbook bound. With that bound, sorted integer input also comes back unchanged.
- `SortExamples` (sort_examples.dfy) evaluates the algorithm on concrete inputs:
  - the unit test's input;
  - the smallest input that the code as written leaves out of order.

The search bound is where the code departs from merge-insertion as Knuth describes it (*The Art of Computer Programming*, volume 3, section 5.3.1):

- Knuth's merge-insertion searches the first 2^(power+1) − 1 entries of the main chain for each element of the group of `power`, clamped to the main chain's length.
- The code passes `group_size` (lib/ford_johnson.rb:41, used as `max_idx` at line 84).

The model follows the code. `Sort` uses the group size, and the sortedness theorem is proved for the textbook bound (see Findings). The datatype `SearchBound` selects between the two. Every other definition is shared.

## Model

| member | source | states |
|---|---|---|
| Pairs.Compare | lib/ford_johnson.rb:122-125 | the result is -1, 0 or 1, and its sign is the comparison of the two keys: two pairs compare as their greater components do, the lesser ones are ignored |
| Pairs.AllFrom | lib/ford_johnson.rb:106-111 | ⌊n/2⌋ pairs, the i-th built from the elements at 2i and 2i+1; the stragglers are [] for even n and [last element] for odd n |
| Pairs.AllFromRoundTrip | lib/ford_johnson.rb:106-120 | every result of `all_from` is a pair, and the pairs' `to_a`, concatenated and followed by the stragglers, give back the input exactly |
| Pairs.Lessers | lib/ford_johnson.rb:28 | `map(&:lesser)`: same length, element i is the lesser component of pair i |
| Pairs.Greaters | lib/ford_johnson.rb:27 | `map(&:greater)`: same length, element i is the greater component of pair i |
| Pairs.KeyIsLastValue | lib/ford_johnson.rb:122-125 | the key `<=>` finally compares, reached by following `greater` down to an integer, is the last input integer the element is built from |
| Pairs.ToA | lib/ford_johnson.rb:118-120 | `to_a` has two entries which together hold the pair's input integers in order; the first carries the lesser component's key, the second the pair's own key |
| Pairs.Swap | lib/ford_johnson.rb:127-132 | `swap!` exchanges the two components and nothing else: `to_a` comes out reversed, swapping again restores the pair, and the pair's key becomes the old lesser component's |
| Pairs.Normalize | lib/ford_johnson.rb:17 | the pair comes out ordered (lesser key ≤ greater key); it is left alone when already ordered and is otherwise the swapped pair |
| Pairs.NormalizeAll | lib/ford_johnson.rb:15-18 | the buffer after the loop: the same number of pairs, and slot i holds pair i normalised |
| Pairs.NormalizePairs | lib/ford_johnson.rb:15-18 | the loop, in place on the buffer of pairs: every slot becomes its normalised pair, every pair is ordered afterwards, and the multiset of components is unchanged |
| Pairs.NormalizeAllKeepsComponents | lib/ford_johnson.rb:15-18 | normalising keeps every element a pair and keeps the multiset of the pairs' components |
| Pairs.UnpairSplitsIntoChains | lib/ford_johnson.rb:27-28 | the components of a list of pairs are exactly its lesser chain and its greater chain together |
| Pairs.AllPairsPermutation | lib/ford_johnson.rb:21 | a reordering of a list of pairs holds only pairs |
| Pairs.UnpairPermutation | lib/ford_johnson.rb:21 | reordering a list of pairs keeps the multiset of their components |
| GroupSizes.GroupSize | lib/ford_johnson.rb:72 | `2**power - previous_value`: from power 1 on, the group of `power` holds between 2^(power−1) and 2^power elements |
| GroupSizes.GroupSizeClosedForm | lib/ford_johnson.rb:58-59 | 3·g(k) = 2·(2^k − (−1)^k): each group size is twice a Jacobsthal number |
| GroupSizes.GroupSizeAtLeastTwo | lib/ford_johnson.rb:52-54 | every group size from power 1 on is at least 2 |
| GroupSizes.FirstGroupSizes | lib/ford_johnson.rb:56 | the first thirteen group sizes are 2, 2, 6, 10, 22, 42, 86, 170, 342, 682, 1366, 2730, 5462 |
| GroupSizes.ConsumedBeforeGroup | lib/ford_johnson.rb:52-54 | twice the elements the groups before power k take, plus group k's size, plus 2, is 2^(k+1) |
| GroupSizes.GroupSizeEnumerator.constructor | lib/ford_johnson.rb:68-69 | the enumerator starts with previous_value 0 and power 1 |
| GroupSizes.GroupSizeEnumerator.Next | lib/ford_johnson.rb:71-76 | one pass of the loop yields g(power), at least 2, which added to the previous value makes 2^power; then power advances by one and the state stays consistent |
| GroupSizes.Take | lib/ford_johnson.rb:66-78 | the first n values a fresh enumerator yields are g(1), …, g(n) |
| GroupSizes.TakeEight | lib/ford_johnson.rb:56 | a fresh enumerator yields 2, 2, 6, 10, 22, 42, 86, 170 |
| BinaryInsert.SearchIdx | lib/ford_johnson.rb:86-98 | the search started from min_idx lo and max_idx hi ends between lo and hi |
| BinaryInsert.SearchIdxSeparates | lib/ford_johnson.rb:86-96 | the loop invariant: everything before min_idx is below the new element, and the entry at max_idx, when inside the bound, is not |
| BinaryInsert.SearchIdxPlaces | lib/ford_johnson.rb:82-99 | with the first `bound` entries sorted, every entry before the result is below the new element and the entry at the result (when below the bound) is not |
| BinaryInsert.BinaryInsertIdx | lib/ford_johnson.rb:82-99 | the while loop returns the index the search defines, within [0, group_size], and when the searched prefix is sorted, the index separates smaller from not-smaller entries |
| BinaryInsert.InsertAt | lib/ford_johnson.rb:42 | `insert(idx, element)` makes the chain one entry longer; where each entry lands is InsertAtPlaces |
| BinaryInsert.InsertAtPlaces | lib/ford_johnson.rb:42 | `insert(idx, element)` puts the element at idx, keeps the entries before and shifts the ones after, and adds exactly that element to the multiset |
| FordJohnson.Bound | lib/ford_johnson.rb:41 | the third argument of `binary_insert_idx`: the group size for the code as written; for the textbook rule, the smaller of 2^(power+1) − 1 and the main chain's length |
| FordJohnson.InsertReversed | lib/ford_johnson.rb:40-43 | `group.reverse.each { insert }` grows the chain by the group's length; that exactly the group's elements are added is InsertReversedPermutes |
| FordJohnson.InsertReversedPermutes | lib/ford_johnson.rb:40-43 | inserting a group, last element first, adds exactly the group's elements to the chain |
| FordJohnson.GroupInserted | lib/ford_johnson.rb:37-43 | one pass of the `until` loop: the main chain grows by the number of elements `shift(group_size)` takes |
| FordJohnson.GroupFits | lib/ford_johnson.rb:41 | whenever elements are left to insert, the group size is at most the main chain's length, so the search never reads past its end |
| FordJohnson.Taken | lib/ford_johnson.rb:38 | `shift(group_size)` takes min(group_size, remaining) elements, at least one while any remain |
| FordJohnson.InsertGroupsStep | lib/ford_johnson.rb:36-44 | one pass keeps the chains' sizes fitting the next power, and the search bound stays within the main chain |
| FordJohnson.GroupPermutes | lib/ford_johnson.rb:37-43 | one pass moves elements from the lesser chain to the main chain without losing or duplicating any |
| FordJohnson.InsertGroupsPermutes | lib/ford_johnson.rb:36-44 | the whole `until` loop leaves the main chain holding the multiset union of both chains |
| FordJohnson.InsertGroups | lib/ford_johnson.rb:36-44 | the loop ends with every element of the lesser chain inserted: the result's length is the sum of the two chains' lengths |
| FordJohnson.ChainsHoldEveryElement | lib/ford_johnson.rb:27-31 | the recursively sorted list holds ⌊n/2⌋ pairs, and the main chain after `unshift` and the rest of the lesser chain with the stragglers hold exactly the input's elements |
| FordJohnson.MergeInsertion | lib/ford_johnson.rb:6-48 | the result has the input's length and multiset, and inputs of size 0 or 1 come back unchanged |
| FordJohnson.Sort | lib/ford_johnson.rb:6-48 | the method returns what MergeInsertion with the code's bound defines, a permutation of its input |
| FordJohnson.InsertLesserChain | lib/ford_johnson.rb:35-44 | the `until` loop with its enumerator computes the insertion phase with group_size as the search bound |
| FordJohnson.InsertGroupElements | lib/ford_johnson.rb:40-43 | the `group.reverse.each` loop computes the reversed insertion of the group with the given bound |
| Sortedness.InsertKeepsSorted | lib/ford_johnson.rb:41-42 | inserting into a sorted chain at the searched index keeps it sorted when the bound covers every entry below the new element |
| Sortedness.InsertReversedSorted | lib/ford_johnson.rb:40-43 | a group keeps the chain sorted when, for each of its elements, the entries below it plus the group elements inserted before it fit the bound |
| Sortedness.GroupWithinBound | lib/ford_johnson.rb:41 | with the textbook bound, every element of the group of `power` meets that condition |
| Sortedness.PendBoundedStep | lib/ford_johnson.rb:36-44 | after a group, each element still waiting has at most its index + 2 + twice the consumed count of main-chain entries below it |
| Sortedness.GroupKeepsInvariant | lib/ford_johnson.rb:36-44 | one pass with the textbook bound keeps the chain sorted, the sizes fitting and the waiting elements bounded |
| Sortedness.InsertGroupsSorted | lib/ford_johnson.rb:36-44 | the insertion phase with the textbook bound ends with a sorted main chain |
| Sortedness.MainChainSorted | lib/ford_johnson.rb:27-31 | the main chain the loop starts from is sorted |
| Sortedness.InitialPendBounded | lib/ford_johnson.rb:27-31 | the lesser element at index i of the starting lesser chain is above at most i + 2 main-chain entries |
| Sortedness.SortedPairsOrdered | lib/ford_johnson.rb:15-21 | every pair the recursive call returns is still ordered within itself |
| Sortedness.MergeInsertionSorts | lib/ford_johnson.rb:6-48 | with the textbook bound, the result is sorted for every input |
| Sortedness.SortedLeavesUnique | lib/ford_johnson.rb:6-48 | two sorted sequences of integers holding the same multiset are equal |
| Sortedness.MergeInsertionIdempotent | lib/ford_johnson.rb:6-48 | with the textbook bound, a sorted sequence of integers comes back unchanged |
| SortExamples.SortsUnitTestInput | spec/unit/ford_johnson_spec.rb:2-9 | sort([6, 2, 4, 9]) is [2, 4, 6, 9] |
| SortExamples.GroupSizeBoundMisorders | lib/ford_johnson.rb:41 | with the code's bound, sort([1, 2, 3, 4, 5]) is [1, 2, 3, 5, 4], which is not sorted |
| SortExamples.TextbookBoundOrders | lib/ford_johnson.rb:41 | with the textbook bound, the same input comes back as [1, 2, 3, 4, 5] |

## Left out

- Comparator blocks: `sort` takes no block, and the comparisons are hard-coded. Lines 16, 88 and 123 mark this with TODOs. The block test at spec/unit/ford_johnson_spec.rb:11-17 expects behaviour the code lacks. The model compares integer keys.
- Comparison counts: the optimal-comparison table at spec/unit/ford_johnson_spec.rb:29-91 is not modelled, because the model counts no comparisons.
- Sortedness of the code as written is not claimed. It does not hold (see Findings). The randomised test at spec/unit/ford_johnson_spec.rb:24 has no `.to`, so it asserts nothing.
- Stability: the order of elements with equal keys is not specified.
- The 63-value ceiling: lib/ford_johnson.rb:61-64 notes that 64-bit integers cap the enumerator. Dafny integers are unbounded, so the model has no ceiling.
- Ruby machinery is not modelled: the lazy `Enumerator`/`yielder` protocol, `require_relative` of the version file, and the RSpec test framework.
- Pairs.Swap: `swap!` mutates a `Pair` object. The model treats a pair as a value and writes the swapped pair back into the buffer slot. This is sound because every pair is freshly allocated by `all_from` and nothing else refers to it, but object identity is not modelled.
- FordJohnson.Sort: the input is an immutable sequence, so "the caller's array is unchanged" holds by construction. For inputs of size 0 or 1, Ruby returns the caller's own array object; the model returns an equal value and does not model that aliasing.
- Pairs.Compare: comparing a leaf with a pair raises in Ruby. The model compares their keys instead. This never arises, because every level of the recursion holds only leaves or only pairs.
- BinaryInsert.BinaryInsertIdx requires `group_size <= sorted_elements.size`. With a larger bound the search may read past the end, and then Ruby compares with `nil` and raises (lib/ford_johnson.rb:89). `FordJohnson.GroupFits` proves that `sort` never passes such a bound; what the method does for other callers is not modelled.

## Findings

| source | as written | input that shows it | evidently intended | confidence | as-written member | corrected member |
|---|---|---|---|---|---|---|
| lib/ford_johnson.rb:41 | the group's search covers only the first `group_size` entries of the main chain (`max_idx = group_size`, line 84), although the main chain has grown past that | sort([1, 2, 3, 4, 5]) returns [1, 2, 3, 5, 4]: the straggler 5 is searched for among [1, 2] only and lands before 4 | search the first min(2^(power+1) − 1, main chain length) entries, as merge-insertion prescribes; then every input comes back sorted | high; not executed | SortExamples.GroupSizeBoundMisorders | Sortedness.MergeInsertionSorts |

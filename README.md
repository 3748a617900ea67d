# gcl in Dafny: iterators, slice cursors and the sentinel linked list

This project models the core of gcl, a generic collections library for Go,
and proves properties of that model.

- **Comparators** (`gcl.go`, module `Gcl`): `Less`, `Greater`, `Equal`,
  the three-way `Compare`, the function types and the `Zipped` pair. The
  ordered element type is modelled as `int`.
- **The iterator protocol and its algorithms** (`iters/`, module `Iters`).
  An iterator is modelled by the sequence of values it still has to
  produce. `HasNext` means that sequence is non-empty. `Next` removes and
  returns its first element. `Advance`, `ForEach`, `Equal`/`EqualFunc`,
  `Reduce`, `Fold`, `Find`, `Max`/`Min` and their `Func` forms, and `Sum`
  are methods with the source's loops. Each is specified by a sequence
  function in module `Seqs`: `MapSeq`, `FoldLeft`, `Reduced`,
  `FirstIndex`, `Extremum`, `SumSeq`, `EqualBy` and `EqualSteps`.
- **The lazy wrappers** `Map`, `Filter` and `Zip` are classes. Each has
  its own `Rest()`, which is what the wrapper will still produce. The
  filtering wrapper keeps the source's look-ahead state machine
  (`Unknown`, `HasNextValue`, `NoNext`) and its one-value buffer.
- **Slice cursors** (`goslices/iter.go`, module `SliceIters`):
  - The read-only forward and reverse cursors see the slice as a value.
  - The mutable cursors run over an `array` and hand out references
    (`Ref`) to its cells. A reference models a Go `*T` into the slice.
- **The two-cursor reverse** (`internal/ops.go`, module `Internal`) swaps
  the cells under a forward and a reverse mutable cursor.
- **Slice helpers** (`goslices/goslices.go`, module `GoSlices`) are
  functions on sequences. `Reverse` works in place on an `array`.
- **The doubly linked list** (`lists/`, module `Lists`): a `List` class with
  a head and a tail sentinel `Node`.
  - Ghost state: `chain` is the node sequence from head to tail, and
    `contents` holds the values of the real nodes. `Valid()` ties both
    to the `next`/`prev` pointers and to `size`.
  - The iterators: `FrwIter` and `RevIter` are classes over a node. Each
    has a ghost chain position. The source's iterator interface becomes
    the datatype `Iterator = Frw | Rev`.
  - The operations are written with these iterators, as in the source:
    - insertion, deletion, push and pop;
    - equality, comparison, sort and sortedness;
    - search, clone, reverse, and the in-place uniq-style `Compact`.
  - Each operation states its new `contents` in terms of the old ones,
    through the sequence functions of `Seqs`. Lemmas there state what
    those functions promise: a sort is ordered and a permutation,
    compacting leaves no equal neighbours and is idempotent, and so on.

A `require` check or a panic in the source becomes a precondition: the
model's callers must meet the check. The value that Go's zero-value
returns would give (`Reduce`, `Find`, `Max`, `Min` on an empty iterator)
is passed in as a `zero` parameter. For the `int` instances it is 0.

## Model

| member | source | states |
|---|---|---|
| `Gcl.Compare` | gcl.go:32-45 | the result is -1, 0 or +1, and it is -1 exactly when `a < b`, 0 exactly when `a == b`, +1 exactly when `a > b` |
| `Gcl.GreaterIsFlippedLess` | gcl.go:9-19 | Greater(a, b) is Less(b, a) |
| `Gcl.CompareAntisymmetric` | gcl.go:32-45 | exchanging the arguments negates the comparison |
| `Gcl.Trichotomy` | gcl.go:9-27 | exactly one of Less, Equal, Greater holds for any pair |
| `Seqs.Reversed` | goslices/goslices.go:89-93 | the reversal keeps the length and puts element n-1-i at position i |
| `Seqs.ReversedTwice` | goslices/goslices.go:89-93 | reversing twice gives back the original sequence |
| `Seqs.ReversedPrefixTail` | goslices/iter.go:42-49 | a reverse cursor over the first k elements yields s[k-1] first and then what a cursor over the first k-1 elements yields |
| `Seqs.Swap` | internal/ops.go:16-18 | positions i and j exchange their elements and every other position keeps its |
| `Seqs.SwapStepsAt` | internal/ops.go:8-22 | after k swap rounds from both ends, the outer k positions at each end hold the mirrored old elements and the middle is untouched |
| `Seqs.SwapHalfReverses` | internal/ops.go:8-22 | the rounds the loop runs for a length n (n/2) reverse the sequence |
| `Seqs.SwapHalfAt` | internal/ops.go:8-22 | after n/2 rounds position i holds the old element n-1-i |
| `Seqs.MapSeq` | iters/ops.go:52-72 | the mapped sequence has the same length and fn of element i at i |
| `Seqs.FilterSeq` | iters/ops.go:110-158 | the filtered sequence is no longer and contains exactly the elements that satisfy the predicate |
| `Seqs.FoldLeftSnoc` | iters/ops.go:94-100 | folding one more element applies fn once more to the previous result |
| `Seqs.ReducedSnoc` | iters/ops.go:78-87 | reducing a non-empty sequence plus one element applies fn once more |
| `Seqs.SumIsFold` | iters/ops.go:249-255 | the sum is the left fold of + starting from 0 |
| `Seqs.FirstIndex` | lists/lists.go:485-500 | -1 exactly when no element satisfies the predicate; otherwise an index whose element satisfies it and before which none does |
| `Seqs.ExtremumIsBound` | iters/ops.go:179-244 | for a strict order, the running scan ends on an element it saw which no seen element would replace |
| `Seqs.EqualByExtend` | lists/lists.go:134-140 | a prefix equal position by position grows by one when the next pair is equal |
| `Seqs.EqualByEq` | lists/lists.go:110-123 | with == as the test, element-wise equality is sequence equality |
| `Seqs.EqualSteps` | iters/ops.go:38-50 | the pairwise scan never consumes more than either side holds |
| `Seqs.LexComparePrefix` | lists/lists.go:144-150 | when cmp rates every value equal to itself, a proper prefix compares as -1 |
| `Seqs.LexIntRange` | lists/lists.go:144-171 | under the integer three-way comparator the lexicographic result is -1, 0 or +1, and 0 exactly for equal sequences |
| `Seqs.CompactSeq` | lists/lists.go:402-434 | compacting never lengthens and keeps the first element of a non-empty sequence |
| `Seqs.CompactSeqStep` | lists/lists.go:419-429 | one more element is kept exactly when the test tells it apart from the last kept one |
| `Seqs.CompactShrinksIff` | lists/lists.go:402-434 | compacting drops an element exactly when two neighbours pass the test |
| `Seqs.CompactKeepsAll` | lists/lists.go:402-434 | when nothing is dropped, compacting is the identity |
| `Seqs.CompactNoAdjacentDuplicates` | lists/lists.go:402-405 | with ==, no two neighbours of the result are equal (the uniq promise) |
| `Seqs.CompactKeepsValues` | lists/lists.go:402-434 | every value of the result comes from the input, and with == every input value survives: only repeated copies are dropped |
| `Seqs.CompactIdempotent` | lists/lists.go:402-405 | with ==, compacting twice is compacting once |
| `Seqs.InsertSorted` | lists/lists.go:350-362 | insertion adds x exactly once to the multiset and one to the length |
| `Seqs.SortBy` | lists/lists.go:350-362 | the sort keeps the multiset of elements and the length |
| `Seqs.InsertSortedKeepsOrder` | lists/lists.go:350-362 | inserting into a sorted sequence keeps it sorted, for an asymmetric less test |
| `Seqs.SortByCorrect` | lists/lists.go:350-362 | the sort's result is sorted by `less` and is a permutation of the input |
| `Seqs.SortBySorted` | lists/lists.go:382-400 | sorting an already sorted sequence leaves it unchanged |
| `Seqs.SortedIntsGlobal` | lists/lists.go:364-380 | a list of ints that is sorted pair by pair is ordered between any two positions |
| `Seqs.SortedIntsSameHead` | lists/lists.go:338-348 | two sorted int sequences with the same multiset start with the same element |
| `Seqs.SortedIntsUnique` | lists/lists.go:338-348 | two sorted int sequences with the same multiset are equal, so Sort's result is determined |
| `Iters.Iterator.Next` | iters/iter.go:5-13 | Next returns the first remaining value and drops it from what remains |
| `Iters.Advance` | iters/iter.go:15-22 | min(n, remaining) values are consumed; the iterator is exhausted when n reaches the remaining count |
| `Iters.ForEach` | iters/ops.go:9-16 | fn is called on every remaining value in order, and the iterator ends exhausted |
| `Iters.MapSeqSnoc` | iters/ops.go:12-16 | mapping one more value appends its image |
| `Iters.EqualFunc` | iters/ops.go:36-50 | true exactly when both sides have the same length and eq holds pairwise; each side advances up to and including the first mismatch, never beyond the shorter |
| `Iters.Equal` | iters/ops.go:18-34 | true exactly when the remaining sequences are equal, with the same advancement as EqualFunc |
| `Iters.MapIter.HasNext` | iters/ops.go:57-59 | the wrapper has a next value exactly when its remaining mapped sequence is non-empty |
| `Iters.MapIter.Next` | iters/ops.go:61-63 | yields fn of the wrapped iterator's next value and advances it by one |
| `Iters.Map` | iters/ops.go:65-72 | the wrapper will yield fn of every remaining value, and building it consumes nothing |
| `Iters.Reduce` | iters/ops.go:74-87 | zero on an empty iterator, otherwise the left fold seeded with the first value; the iterator ends exhausted |
| `Iters.Fold` | iters/ops.go:89-100 | the left fold of fn from init over the remaining values; the iterator ends exhausted |
| `Iters.FilterIter.FindNext` | iters/ops.go:117-127 | the look-ahead settles the state without changing what the wrapper will yield; with a match it buffers the first match and leaves the wrapped iterator just past it, without one it leaves the wrapped iterator exhausted |
| `Iters.FilterIter.HasNext` | iters/ops.go:129-137 | true exactly when a further match exists; it pulls from the wrapped iterator only when no look-ahead is pending, and then leaves it just past the first match or exhausted |
| `Iters.FilterIter.Next` | iters/ops.go:139-148 | yields the next match and drops it, leaving the state Unknown; with no look-ahead pending it leaves the wrapped iterator just past the first match, otherwise it does not touch it |
| `Iters.Filter` | iters/ops.go:150-158 | the wrapper will yield the matching values in order, and building it consumes nothing |
| `Iters.Find` | iters/ops.go:160-174 | ok exactly when some value matches; then t is the first match and the iterator sits just past it, otherwise t is zero and the iterator is exhausted |
| `Iters.ExtremumFunc` | iters/ops.go:179-244 | the result is the running scan of the replace test over the remaining values, zero when there are none |
| `Iters.MaxFunc` | iters/ops.go:193-209 | the running maximum under less, zero when empty; the iterator ends exhausted |
| `Iters.MinFunc` | iters/ops.go:228-244 | the running minimum under less, zero when empty; the iterator ends exhausted |
| `Iters.Max` | iters/ops.go:176-191 | the integer maximum scan, 0 when empty |
| `Iters.Min` | iters/ops.go:211-226 | the integer minimum scan, 0 when empty |
| `Iters.MaxByIsMaximum` | iters/ops.go:176-191 | the maximum of a non-empty sequence is one of its elements and no element exceeds it |
| `Iters.MinByIsMinimum` | iters/ops.go:211-226 | the minimum of a non-empty sequence is one of its elements and no element is below it |
| `Iters.Sum` | iters/ops.go:246-255 | the sum of the remaining values; the iterator ends exhausted |
| `Iters.ZipSeq` | iters/ops.go:257-280 | as many pairs as the shorter side has, with pair i made of the two elements at i |
| `Iters.ZipProjections` | iters/ops.go:257-280 | the first (second) components of the zip are the first (second) input cut to the shorter length |
| `Iters.ZipIter.HasNext` | iters/ops.go:262-264 | the zip has a next pair exactly when its remaining pairs are non-empty |
| `Iters.ZipIter.Next` | iters/ops.go:266-271 | yields the pair of both next values and advances both sides by one |
| `Iters.Zip` | iters/ops.go:273-280 | the zip will yield the pairs of both remaining sequences, and building it consumes nothing |
| `SliceIters.Store` | internal/ops.go:16-18 | a write through a reference changes exactly the referenced cell |
| `SliceIters.FrwIter.HasNext` | goslices/iter.go:9-11 | a next element exists exactly when the remaining suffix is non-empty |
| `SliceIters.FrwIter.Next` | goslices/iter.go:13-16 | yields the first remaining element and drops it |
| `SliceIters.RevIter.HasNext` | goslices/iter.go:42-44 | a next element exists exactly when the remaining reversed prefix is non-empty |
| `SliceIters.RevIter.Next` | goslices/iter.go:46-49 | yields the first remaining element in back-to-front order and drops it |
| `SliceIters.FrwIterMut.HasNext` | goslices/iter.go:27-29 | a next reference exists exactly when some cell remains |
| `SliceIters.FrwIterMut.Next` | goslices/iter.go:31-34 | steps up and returns a reference to the cell it lands on |
| `SliceIters.RevIterMut.HasNext` | goslices/iter.go:60-62 | a next reference exists exactly when some cell remains below the cursor |
| `SliceIters.RevIterMut.Next` | goslices/iter.go:64-67 | steps down and returns a reference to the cell it lands on |
| `Internal.Reverse` | internal/ops.go:7-23 | each cursor moves Steps(length) places (length/2, none for length below 2), and the array becomes the result of that many swap rounds between the two cursors |
| `GoSlices.Iter` | goslices/goslices.go:9-16 | a forward cursor one before the first element; it will yield s in order |
| `GoSlices.IterMut` | goslices/goslices.go:18-26 | a mutable forward cursor one before the first cell, with every cell remaining |
| `GoSlices.RIter` | goslices/goslices.go:28-36 | a reverse cursor one past the last element; it will yield s back to front |
| `GoSlices.RIterMut` | goslices/goslices.go:38-46 | a mutable reverse cursor one past the last cell |
| `GoSlices.FromIter` | goslices/goslices.go:48-54 | the slice of every remaining value, in order; the iterator ends exhausted |
| `GoSlices.PushFront` | goslices/goslices.go:56-61 | the result starts with elems and continues with s |
| `GoSlices.PopBack` | goslices/goslices.go:63-68 | one element shorter and equal to s everywhere else |
| `GoSlices.PopFront` | goslices/goslices.go:70-75 | one element shorter, element i being s[i+1] |
| `GoSlices.FrontBackSplit` | goslices/goslices.go:70-87 | a non-empty slice is its front followed by PopFront, and PopBack followed by its back |
| `GoSlices.PushFrontThenPop` | goslices/goslices.go:56-81 | after pushing x in front, x is the front and popping it gives back s |
| `GoSlices.Reverse` | goslices/goslices.go:89-93 | the array afterwards is the reversal of its old contents |
| `Lists.List.LinksHold` | lists/lists.go:17-28 | in a valid list each node's next and prev pointers lead to its chain neighbours and each real node holds its value of contents |
| `Lists.List.Distinct` | lists/lists.go:17-28 | no node occurs twice between head and tail |
| `Lists.List.constructor` | lists/lists.go:30-40 | an empty valid list: the head and tail sentinels linked to each other |
| `Lists.List.InsertedValid` | lists/lists.go:247-255 | rewiring the four pointers around a new node keeps the list valid |
| `Lists.List.InsertBetween` | lists/lists.go:247-255 | the node is spliced in between its two neighbours, its value enters contents at that place, and size grows by one |
| `Lists.List.DeletedValid` | lists/lists.go:282-294 | bridging over one node keeps the list valid |
| `Lists.List.DeleteNode` | lists/lists.go:282-294 | the node leaves the chain and its value leaves contents; its old neighbours are returned and size shrinks by one |
| `Lists.List.TruncateAt` | lists/lists.go:430-433 | the node before position k is linked to the tail and the size field set; the list is valid exactly when that size is the count of nodes left |
| `Lists.FrwIter.HasNext` | lists/iter.go:23-28 | on a valid list, true exactly when values remain after the iterator's position |
| `Lists.FrwIter.Next` | lists/iter.go:30-36 | steps one node toward the tail onto a real node and returns the value there |
| `Lists.FrwIter.Set` | lists/iter.go:38-43 | exactly the current element of contents changes; the nodes stay |
| `Lists.RevIter.HasNext` | lists/iter.go:55-60 | on a valid list, true exactly when values remain before the iterator's position |
| `Lists.RevIter.Next` | lists/iter.go:62-68 | steps one node toward the head onto a real node and returns the value there (the corrected step) |
| `Lists.RevIter.Set` | lists/iter.go:70-76 | exactly the current element of contents changes; the nodes stay |
| `Lists.Iter` | lists/lists.go:88-95 | a fresh forward iterator on the head sentinel (one before the first element) |
| `Lists.RIter` | lists/lists.go:97-105 | a fresh reverse iterator on the tail sentinel; it will yield the contents back to front |
| `Lists.Len` | lists/lists.go:83-86 | the size field is the number of values |
| `Lists.InsertAfter` | lists/lists.go:264-270 | elems, in order, are placed after the forward iterator's node, which does not move |
| `Lists.InsertBefore` | lists/lists.go:271-276 | elems, in order, are placed before the reverse iterator's node, which stays on its node |
| `Lists.InsertAfterStep` | lists/lists.go:266-270 | inserting elems back to front, each after the same node, builds elems in order |
| `Lists.InsertBeforeStep` | lists/lists.go:273-276 | inserting elems front to back, each before the same node, builds elems in order |
| `Lists.Insert` | lists/lists.go:257-280 | elems are inserted next to the iterator in its direction of travel, with fresh nodes |
| `Lists.Delete` | lists/lists.go:296-328 | the iterator's element is removed; the returned iterator of the same kind will yield what the given one would have yielded |
| `Lists.DeleteFrw` | lists/lists.go:309-316 | forward deletion: the value leaves contents and the new iterator sits on the node before |
| `Lists.DeleteRev` | lists/lists.go:317-324 | reverse deletion: the value leaves contents and the new iterator sits on the node after |
| `Lists.New` | lists/lists.go:30-44 | a fresh valid list holding elems in order |
| `Lists.FromIter` | lists/lists.go:46-53 | a fresh valid list of every remaining value; the iterator ends exhausted |
| `Lists.PushBack` | lists/lists.go:197-201 | elems are appended at the back in order |
| `Lists.PushFront` | lists/lists.go:203-207 | elems are prepended at the front in order |
| `Lists.PopBack` | lists/lists.go:209-215 | the last value is removed (the corrected form) |
| `Lists.PopFront` | lists/lists.go:217-223 | the first value is removed (the corrected form) |
| `Lists.PopBackAsWrittenAborts` | lists/lists.go:212-215 | the iterator the source hands to Delete sits on the tail sentinel and fails Delete's check |
| `Lists.PopFrontAsWrittenAborts` | lists/lists.go:220-223 | the iterator the source hands to Delete sits on the head sentinel and fails Delete's check |
| `Lists.Front` | lists/lists.go:225-231 | the value after the head sentinel is the first value |
| `Lists.Back` | lists/lists.go:233-239 | the value before the tail sentinel is the last value |
| `Lists.RevNextAsWrittenFromTail` | lists/iter.go:62-68 | on a fresh reverse iterator over a non-empty list HasNext holds, yet the node the source steps to is null |
| `Lists.RevNextAsWrittenGoesForward` | lists/iter.go:62-68 | anywhere inside the list the source's reverse step lands on the successor, not on the predecessor |
| `Lists.ToSlice` | lists/lists.go:330-336 | the slice is the contents, front to back |
| `Lists.EqualFunc` | lists/lists.go:125-142 | true exactly when the lists have the same length and eq holds position by position |
| `Lists.EqualStep` | lists/lists.go:134-140 | one round compares the k-th values and extends the equal prefix when they pass |
| `Lists.NextBoth` | lists/lists.go:133-136 | both iterators step one node and return the k-th value of their lists |
| `Lists.Equal` | lists/lists.go:107-123 | true exactly when the contents are equal |
| `Lists.CompareFunc` | lists/lists.go:173-195 | the lexicographic comparison: the first non-zero cmp result, otherwise the shorter list is less |
| `Lists.Compare` | lists/lists.go:144-171 | the lexicographic comparison of int lists under the three-way comparator; the result is -1, 0 or +1, and 0 exactly when the contents are equal |
| `Lists.SortFunc` | lists/lists.go:350-362 | the values are rewritten in place with the sorted copy; the nodes and their order stay |
| `Lists.StepAndSet` | lists/lists.go:358-361 | step onto the next node and overwrite its value and nothing else |
| `Lists.Sort` | lists/lists.go:338-348 | the contents become ascending and a permutation of the old contents, on the same nodes |
| `Lists.IsSortedFunc` | lists/lists.go:382-400 | true exactly when no value is less than the one before it |
| `Lists.IsSorted` | lists/lists.go:364-380 | true exactly when the int list is ascending pair by pair |
| `Lists.IndexFunc` | lists/lists.go:485-500 | the position of the first value satisfying pred, -1 when none does |
| `Lists.Index` | lists/lists.go:470-483 | -1 exactly when v is absent; otherwise the position of v's first occurrence |
| `Lists.Pos` | lists/lists.go:502-513 | found exactly when v occurs; then the iterator sits on its first occurrence, otherwise it is exhausted |
| `Lists.Contains` | lists/lists.go:515-520 | true exactly when v occurs |
| `Lists.Clone` | lists/lists.go:522-532 | a fresh valid list, sharing no node, with the same contents |
| `Lists.CloneStep` | lists/lists.go:527-530 | one round copies the next value to the back of the copy, which keeps the copied prefix |
| `Lists.Reverse` | lists/lists.go:241-245 | the contents become their reversal, on the same nodes |
| `Lists.ReverseStep` | internal/ops.go:9-22 | one round keeps the reverse loop's invariant with one more swap done |
| `Lists.SwapStep` | internal/ops.go:14-18 | both iterators step inward and the two values they reach are exchanged |
| `Lists.CompactScan` | lists/lists.go:436-463 | lists of fewer than two values are left alone; otherwise newSize is the compacted length, the compacted values fill the front, the rest is untouched and the write cursor is on the slot after them |
| `Lists.CompactRest` | lists/lists.go:451-463 | the scan loop leaves the compacted values in front and the write cursor after them |
| `Lists.CompactStep` | lists/lists.go:453-463 | one round keeps the scan invariant with one more value read |
| `Lists.CompactKeep` | lists/lists.go:455-461 | a kept value is written at the write cursor, which moves on |
| `Lists.SetAndStep` | lists/lists.go:456-459 | overwrite the current value, then step on unless on the last real node |
| `Lists.CompactFunc` | lists/lists.go:436-468 | the contents become their compaction under eq, the list stays valid, and only the nodes past the kept values are unlinked (corrected form) |
| `Lists.Compact` | lists/lists.go:402-434 | the contents become their compaction under ==, with the same guarantees as CompactFunc |
| `Lists.CompactFuncAsWritten` | lists/lists.go:464-467 | the source's unconditional unlinking leaves a valid list exactly when the input has under two values or some equal neighbours |
| `Lists.CompactAsWrittenLosesLast` | lists/lists.go:430-433 | with two or more values and no equal neighbours, the source keeps one node fewer than its new size claims |
| `Lists.OverwriteStep` | lists/lists.go:344-347 | overwriting the values front to back turns the old values into the sorted copy one place at a time |

## Left out

- `String`, `MarshalJSON` and `UnmarshalJSON` of `List` (lists/lists.go:55-81): formatting and JSON go through Go's fmt and encoding/json packages, which are not part of this model.
- The `gomaps` package, `MapElem`, the `Number` constraint and the demo programs: these are outside the modelled core.
- Floating point, NaN and complex numbers: the ordered and numeric element types are modelled as unbounded `int`. So `Sum` has no overflow or wrap-around.
- `require` and `panic`: each source check that panics becomes a precondition, so the abort paths are not modelled as results.
- The library sort `slices.Sort`/`slices.SortFunc` is not part of this model. It is replaced by the insertion sort `Seqs.SortBy`.
- `Lists.SortFunc`: fixes the result to `SortBy(less, old contents)`. For a less test with ties, the library's unstable sort may choose another sorted arrangement. For `int` and `Gcl.Less` the result is the same (`Seqs.SortedIntsUnique`).
- `Lists.Reverse`: the source passes list iterators over `T` to `internal.Reverse`, which takes iterators over `*T`. As written, lists/lists.go:244 does not type-check. The model runs the same two-cursor swap loop with the list iterators' `Set`.
- `Lists.IsSortedFunc` and `Lists.IsSorted` run on the corrected reverse step (see Findings). Written as in lists/lists.go:367-371 and 387-391, they start with `RIter(l)`, and the first `Next` reads through the tail's nil `next`. So as written both abort on every non-empty list. `Lists.PopBack` and `Lists.Reverse` use the same corrected step.
- `Internal.Reverse`: requires both cursors to run over the same array. The Go function accepts any two pointer iterators. Its one call site that compiles (goslices/goslices.go:92) passes cursors over a single slice.
- `Lists.Delete`: says nothing about the iterator it was given. The source documents that iterator as invalidated, and the model makes no claim about it.
- `Iters.ForEach`: `fn` is a pure function. Its effects are represented by the returned sequence of its results.
- `Iters.Advance`: Go's `uint` count is modelled as `nat`. No wrap-around can arise, because the loop never counts past n.
- `Iters.EqualFunc`: the interface value's dynamic type is not modelled. The two iterators must be distinct objects, because the same object on both sides would interleave its own values.
- `Iters.Equal`: requires two distinct iterators, for the same reason as `Iters.EqualFunc`; comparing an iterator with itself is not covered.
- `Iters.ZipIter.Next`: requires both sides to have a next value. The source would call `Next` on an exhausted side, with whatever that iterator then does. It also requires the two sides to be distinct iterators, so zipping an iterator with itself is not covered.
- `Seqs.EqualSteps`: states only that the scan stays within both lengths. Its exact value is tied to the iterators' advancement in `Iters.EqualFunc`.
- `GoSlices.PushFront`, `GoSlices.PopBack`, `GoSlices.PopFront`: slices are values here. The Go result does share its backing array with the argument, and that aliasing is not modelled.
- `GoSlices.Front`, `GoSlices.Back`: modelled as plain functions. Their meaning is stated by `GoSlices.FrontBackSplit`.
- The general iterator interface (iters/iter.go:7-13): modelled as one `Iterator` class over its remaining sequence. Each concrete iterator (`Lists.FrwIter`, `SliceIters.FrwIter`, the wrappers) restates the same HasNext/Next contract over its own `Rest()`.

## Findings

| source | as written | input that shows it | evidently intended | confidence | as-written member | corrected member |
|---|---|---|---|---|---|---|
| lists/iter.go:66 | `RevIter.Next` moves to `node.next` | `RIter` on the list [1]: `HasNext` is true, but the tail's `next` is nil, so reading the value dereferences nil | step to `node.prev`, toward the head; every list operation that steps a reverse iterator (`IsSorted`, `IsSortedFunc`, `Reverse`, the step before deleting in `PopBack`) uses the corrected step | not executed | `Lists.RevNextAsWrittenFromTail` | `Lists.RevIter.Next` |
| lists/lists.go:214 | `PopBack` passes the fresh `RIter(l)` to `Delete` | the list [1]: that iterator is on the tail sentinel, whose `next` is nil, so `Delete` panics | delete the last real node | not executed | `Lists.PopBackAsWrittenAborts` | `Lists.PopBack` |
| lists/lists.go:222 | `PopFront` passes the fresh `Iter(l)` to `Delete` | the list [1]: that iterator is on the head sentinel, whose `prev` is nil, so `Delete` panics | delete the first real node | not executed | `Lists.PopFrontAsWrittenAborts` | `Lists.PopFront` |
| lists/lists.go:430-433 | `Compact` (and `CompactFunc` at 464-467) always unlink the node under the write cursor and everything after it | the list [1 2 3]: the write cursor ends on the node holding 3, which is unlinked, while `size` is set to 3 | unlink only when some values were dropped | not executed | `Lists.CompactAsWrittenLosesLast` | `Lists.CompactFunc` |

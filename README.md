# wijagels containers in Dafny

A model of the header-only C++ container library `wijagels`. It covers five
containers:

- **skip list** (`include/SkipList.hpp`): an ordered set of unique keys kept
  as a tower of sorted, circular, doubly linked levels hanging off a sentinel
  head node.
- **doubly linked list** (`include/List.hpp`): a circular ring of nodes
  through a sentinel, with splicing, merging, in-place reversal, removal,
  de-duplication and merge sort.
- **vector** (`include/Vector.hpp`): a growable array. Its capacity is
  always a power of two, at most the allocator's maximum size.
- **map** (`include/Map.hpp`): an adapter over the skip list that orders
  key/value pairs by key alone.
- **stack** (`include/Stack.hpp`): an adapter over the list whose top is the
  back of the list.

The source changes state in place, so every container is a Dafny `class`
whose methods carry `modifies` clauses. Each class has a `Valid()` invariant
that its methods preserve. Each method is proved against a specification on
sequences, such as `Contents()`, `Keys()` or a pure function like
`InsertOne`, `MergeBy`, `Rejected`, `Unique` or `LexLess`. The properties of
those functions are proved as lemmas.

How the heap is modelled:

- **List nodes.** They live in a shared `Memory` object: `prev` and `next`
  sequences indexed by node number, plus a `data` map for the values. The
  address of a node is its number.
- **Skip-list nodes.** Each node has a `nexts`/`prevs` sequence of links per
  level, with node `0` as the head. Both containers keep a ghost `elems`
  sequence, which is the order of the nodes along the bottom ring.
- **Vector.** It owns an `array<int>` buffer together with `size` and
  `capacity`.

The contracts state:

- list methods keep the doubly linked ring well formed;
- list methods leave every node they do not own untouched (`Keeps`);
- list methods move nodes rather than copy values (`elems`), and the
  resulting sequence of values is exact (`Contents`);
- every level of the skip list is a sorted sub-sequence of the level below,
  and every link has its matching back link;
- the vector's capacity is a power of two between `size` and `maxSize`.

Element and key types are `int`, with `<` as the comparator. The height of a
new skip-list node comes from the caller as a parameter (`lvl`, or `lvls`
for constructors that insert many), in place of the source's random draw.

## Model

| member | source | states |
|---|---|---|
| Lex.LexLessToPrecedes | include/List.hpp:638-646 | the element-by-element `<` loop's answer implies that `a` is a proper prefix of `b` or that `a` is smaller at the first place they differ |
| Lex.LexLessPrecedes | include/Vector.hpp:793-801 | lexicographic `<` holds exactly when `a` is a proper prefix of `b` or is smaller at the first difference (both directions) |
| Lex.LexLessEqIsLessOrEqual | include/Vector.hpp:803-811 | the `<=` loop (true when the left side runs out first) is exactly `<` or equal |
| Lex.LexLessAsymmetric | include/List.hpp:638-646 | `<` on sequences is irreflexive and asymmetric |
| ListOrder.ValuesReversed | include/List.hpp:568-573 | reading the reversed node order gives the reversed values |
| ListOrder.MergeByPermutation | include/List.hpp:492-513 | the node order of the merge is a permutation of the two input node orders |
| ListOrder.MergeByValues | include/List.hpp:492-513 | the merged values are, as a multiset, the union of both lists' values |
| ListOrder.MergeBySorted | include/List.hpp:492-513 | merging two sorted lists yields a sorted list |
| ListOrder.KeptValues | include/List.hpp:561-566 | the nodes `remove_if` keeps carry exactly the values for which the predicate is false, in order |
| ListOrder.RejectedMembers | include/List.hpp:557-566 | a value survives removal if and only if it was present and the predicate rejects it |
| ListOrder.DedupValues | include/List.hpp:578-589 | the nodes `unique` keeps after the current value carry the de-duplicated values |
| ListOrder.UniqueNodesValues | include/List.hpp:578-589 | node-level and value-level `unique` agree |
| ListOrder.UniqueSeparates | include/List.hpp:575-577 | after `unique` with `==`, no two neighbours are equal and the same values are present |
| ListOrder.UniqueFromKeeps | include/List.hpp:575-589 | every value `unique` keeps was in the input; every input value equals the current one or is kept |
| Lists.Memory.NewNode | include/List.hpp:410-412 | a node allocation gives a fresh node number holding the value and leaves every other node as it was |
| Lists.Memory.Link | include/List.hpp:398-401 | `link_(a, b)` sets `a`'s next to `b` and `b`'s previous to `a`, nothing else |
| Lists.Memory.Free | include/List.hpp:428-430 | destroying a node drops its value and leaves the links unchanged |
| Lists.Memory.Turn | include/List.hpp:570-571 | swapping a node's previous and next links changes only that node |
| Lists.List.constructor | include/List.hpp:231-233 | a new list is a valid empty ring through a fresh sentinel, and other nodes are untouched |
| Lists.List.Walk | include/List.hpp:659-668 | the integrity check: along the ring, each node's next is the following node and its previous is the preceding one, and only the sentinel ends the walk |
| Lists.List.Successor | include/List.hpp:172-175 | `++` on an element moves to the element at the next rank |
| Lists.List.Insert | include/List.hpp:410-415 | the new node sits at the rank of `pos`; the values are the old ones with `v` inserted there; other nodes are unchanged |
| Lists.List.Erase | include/List.hpp:426-431 | the node leaves the ring and its value is freed; the values are the old ones without that position |
| Lists.List.PushBack | include/List.hpp:433 | the values become the old ones followed by `v` |
| Lists.List.EmplaceBack | include/List.hpp:435-438 | as `PushBack`, and the returned node is the new last node, holding `v` |
| Lists.List.PushFront | include/List.hpp:442 | the values become `v` followed by the old ones |
| Lists.List.EmplaceFront | include/List.hpp:444-447 | as `PushFront`, and the returned node is the new first node |
| Lists.List.PopBack | include/List.hpp:440 | the last value goes and its node is freed |
| Lists.List.PopFront | include/List.hpp:449 | the first value goes and its node is freed |
| Lists.List.Front | include/List.hpp:347-348 | the first value |
| Lists.List.Back | include/List.hpp:350-351 | the last value |
| Lists.List.Empty | include/List.hpp:383 | true exactly when the list holds no value |
| Lists.List.Size | include/List.hpp:385 | the number of values, counted by walking the ring |
| Lists.List.Elements | include/List.hpp:355-366 | iterating from `begin()` to `end()` yields exactly the values in order |
| Lists.List.Clear | include/List.hpp:393-395 | erasing from the front until empty leaves an empty, valid list |
| Lists.List.AppendAll | include/List.hpp:245-261 | the push-back loop of the copy and range constructors and of `operator=(ilist)` appends the given values to what the list holds |
| Lists.List.PushBackCopies | include/List.hpp:235-238 | `n` copies of `v` are appended |
| Lists.List.PopBackTimes | include/List.hpp:461-464 | `n` pop-backs drop exactly the last `n` values |
| Lists.List.Resize | include/List.hpp:453-465 | shrinking keeps the first `count` values; growing appends copies of `v` up to `count` |
| Lists.List.Splice | include/List.hpp:543-555 | corrected: the range `[first, last)` of `other` moves, node for node, in front of `pos` and leaves `other`; when `other` is this list and `pos` lies outside the range, the block moves within the list and the rest keep their order (`Moved`); an empty range moves nothing (as written it corrupts both rings, see Findings); the nodes of both lists are preserved as a multiset |
| Lists.List.SpliceAll | include/List.hpp:515-521 | corrected for an empty `other`, which as written goes through the unchecked range splice (see Findings): every node of `other` moves in front of `pos`, and `other` ends empty |
| Lists.List.SpliceFrom | include/List.hpp:523-529 | as written: the node `it` and every node after it in `other` move in front of `pos`; within one list (with `pos` before `it` or at `end()`) that tail moves in front of `pos`; for `it == other.end()` it goes through the corrected empty-range splice and moves nothing |
| Lists.List.SpliceOne | include/List.hpp:523-529 | corrected: the node `it` alone moves in front of `pos`, from another list or within this one; within one list `pos == it` and `pos == ++it` leave the order unchanged |
| Lists.List.MoveWithin | include/List.hpp:543-555 | the three `link_` calls on a non-empty block of this list, with `pos` outside it, give the order `Moved`: the block stands in front of `pos`, nothing else changes |
| Lists.MovedBlock | include/List.hpp:543-555 | after a same-list splice the block stands where `pos` was, the other elements keep their relative order, and the multiset of elements is unchanged |
| Lists.MovedNothing | include/List.hpp:543-555 | moving a block in front of its own first element or its follower, or moving an empty block, leaves the list as it was |
| Lists.SpliceAsWritten | include/List.hpp:543-555 | the links after the source's three `link_` calls, applied without an empty-range check, keep both link tables in range |
| Lists.SpliceEmptyRange | include/List.hpp:543-555 | as written, an empty range whose `first` is the other list's sentinel splices that sentinel into this list and breaks its self-loop |
| Lists.SpliceEmptyRangeExample | include/List.hpp:519-521 | a concrete two-node case: splicing an empty list leaves a ring that no longer closes through its own sentinel |
| Lists.SpliceFromMovesTail | include/List.hpp:527-529 | the lists `SpliceFrom` leaves and the lists `SpliceOne` leaves agree exactly when `it` is the last node of `other` |
| Lists.List.Merge | include/List.hpp:492-513 | merging with itself changes nothing; otherwise the node order becomes `MergeBy` of the two old orders, `other` ends empty, and no node is lost |
| Lists.List.Reverse | include/List.hpp:568-573 | swapping every node's links reverses both the node order and the values |
| Lists.List.RemoveIf | include/List.hpp:561-566 | the nodes whose value satisfies `p` are removed and freed; the rest keep their order |
| Lists.List.Remove | include/List.hpp:557-559 | the values equal to `value` go; a value remains exactly when it was present and differs from `value` |
| Lists.List.UniqueBy | include/List.hpp:578-589 | keeps a node exactly when `p` rejects it against the last kept value |
| Lists.List.Unique | include/List.hpp:575-577 | no two neighbours are equal afterwards, and the same values are present |
| Lists.List.Middle | include/List.hpp:597-603 | the tortoise-and-hare walk stops at rank `size / 2` |
| Lists.List.Halve | include/List.hpp:604-606 | the list splits into fresh `left` (first half) and `right` (second half) lists over the same nodes |
| Lists.List.Sort | include/List.hpp:591-611 | afterwards the values are sorted, and nodes and values are permutations of the old ones |
| Lists.List.AssignInit | include/List.hpp:314-319 | corrected `operator=(ilist)`: the list afterwards holds exactly the given values |
| Lists.AssignAppends | include/List.hpp:314-319 | the contents `AppendAll` leaves (what `operator=(ilist)` does as written) equal the assigned values exactly when the list was empty |
| Lists.List.Equal | include/List.hpp:625-632 | `==` holds exactly when the value sequences are equal |
| Lists.List.Less | include/List.hpp:638-646 | `<` is lexicographic order on the values |
| Lists.List.LessEq | include/List.hpp:648-656 | `<=` is lexicographic `<` or equality |
| SkipLevels.LevelNested | include/SkipList.hpp:441-459 | the nodes of a higher level, taken from a lower level, are the nodes of that higher level taken from the whole list: the levels nest |
| SkipLevels.RingInsert | include/SkipList.hpp:365-376 | linking a node between two neighbours on one level inserts it into that level's ring |
| SkipLevels.RingRemove | include/SkipList.hpp:461-465 | linking a node's neighbours together removes it from that level's ring |
| SkipOrder.LowerBound | include/SkipList.hpp:385-409 | the first position whose key is not less than `k`: every key before it is smaller, and the key at it (if any) is at least `k` |
| SkipOrder.LowerBoundSorted | include/SkipList.hpp:404-409 | on strictly sorted keys, `k` is present exactly when the key at the lower bound equals `k` |
| SkipOrder.InsertOneKeys | include/SkipList.hpp:595-605 | inserting keeps the keys strictly sorted, adds exactly the new key, and keeps every old entry |
| SkipOrder.InsertEachKeys | include/SkipList.hpp:512-519 | inserting a sequence keeps the keys sorted and ends with exactly the union of the keys |
| SkipOrder.SortedUnique | include/SkipList.hpp:499-505 | two strictly sorted key sequences with the same keys are equal |
| SkipOrder.ExtractReinsert | include/SkipList.hpp:705-715 | removing an entry and inserting it again restores the skip list |
| SkipOrder.RemoveSorted | include/SkipList.hpp:680-686 | removing an entry keeps the keys strictly sorted |
| SkipOrder.MergeCount | include/SkipList.hpp:723-733 | merge conserves entries: the ones moved plus the ones left in the source make up both inputs |
| SkipOrder.MergeSelf | include/SkipList.hpp:723-733 | the merge formula describes merging a skip list into itself as a no-op: nothing is inserted and the source keeps everything |
| SkipOrder.LexLessByKeys | include/SkipList.hpp:805-809 | `<` compares entries by key only, as a lexicographic comparison of the key sequences |
| SkipOrder.EqualAsWrittenIrreflexive | include/SkipList.hpp:792-797 | as written, `==` using the `<` comparator is false for any non-empty skip list compared with itself, and so is `<=` |
| SkipOrder.EqualAsWrittenCounterexample | include/SkipList.hpp:792-797 | a one-element skip list is not `==` to itself as written |
| SkipOrder.EquivalentKeys | include/SkipList.hpp:792-797 | corrected `==`, equivalence of entries under the comparator, holds exactly when the key sequences are equal |
| SkipOrder.LexIrreflexive | include/SkipList.hpp:805-809 | `<` is irreflexive |
| SkipOrder.LexTrichotomy | include/SkipList.hpp:805-815 | exactly one of `a < b`, `b < a` and equivalence holds |
| SkipOrder.LessEqIsNotGreater | include/SkipList.hpp:811-815 | corrected `<=` holds exactly when `b < a` does not |
| SkipLists.SkipList.Up | include/SkipList.hpp:156-159 | `up()` climbs one level when the node has one, and otherwise stays put |
| SkipLists.SkipList.Down | include/SkipList.hpp:151-154 | `down()` lowers the level on the same node |
| SkipLists.SkipList.Level0 | include/SkipList.hpp:129-149 | `++` and `--` on the bottom level visit the elements in key order, wrapping through the head |
| SkipLists.SkipList.Integrity | include/SkipList.hpp:769-778 | on every level, stepping forward then back (or back then forward) returns to the same node |
| SkipLists.SkipList.Link | include/SkipList.hpp:365-369 | `link_` sets exactly one forward and one backward link on one level |
| SkipLists.SkipList.Expand | include/SkipList.hpp:64-69 | `expand` grows a node's link lists to `size` with self-links and never shrinks them; on the head, the new levels are empty rings |
| SkipLists.SkipList.FindPos | include/SkipList.hpp:385-409 | the search from the hint (or the head) returns the node at the lower bound of `k`, and reports "absent" exactly when `k` is not stored |
| SkipLists.SkipList.InsertNode | include/SkipList.hpp:441-459 | linking a new node before `loc` on each of its levels inserts its entry at the lower bound and keeps every level valid |
| SkipLists.SkipList.UnlinkNode | include/SkipList.hpp:461-465 | unlinking removes the node from every level and its entry from the contents |
| SkipLists.SkipList.constructor | include/SkipList.hpp:493-497 | a new skip list is empty, with a one-level head |
| SkipLists.SkipList.Empty | include/SkipList.hpp:572 | true exactly when nothing is stored |
| SkipLists.SkipList.Size | include/SkipList.hpp:574 | the number of entries, counted along the bottom level |
| SkipLists.SkipList.Find | include/SkipList.hpp:737-742 | a present key gives the node that holds it; an absent key gives the head (`end()`) |
| SkipLists.SkipList.Insert | include/SkipList.hpp:595-619 | the contents become `InsertOne` of the entry; inserted exactly when the key was absent; otherwise nothing changes and the existing node is returned |
| SkipLists.SkipList.InsertHint | include/SkipList.hpp:597-605 | as `Insert`, with the search started from the hint |
| SkipLists.SkipList.InsertHandle | include/SkipList.hpp:621-639 | an empty handle inserts nothing; when the handle's key is absent, its entry goes in as a new element whose tower is the larger of the handle's height and `lvl`, and the handle is emptied; otherwise the handle comes back unchanged and the position is the element holding the key |
| SkipLists.SkipList.InsertHandleHint | include/SkipList.hpp:641-652 | as `InsertHandle`, searching from the hint and returning only the position; a new element's tower is the larger of the handle's height and `lvl` |
| SkipLists.SkipList.Erase | include/SkipList.hpp:680-686 | the node is unlinked and freed; the returned node is the one that followed it |
| SkipLists.SkipList.EraseKey | include/SkipList.hpp:689-696 | returns 1 and removes the entry when the key is present; returns 0 and changes nothing otherwise |
| SkipLists.SkipList.Extract | include/SkipList.hpp:705-709 | the element leaves the iteration order and the handle carries its entry and tower height; the remaining entries keep their order |
| SkipLists.SkipList.ExtractValue | include/SkipList.hpp:711-715 | extracting by key gives the stored entry when present, an empty handle otherwise |
| SkipLists.SkipList.Clear | include/SkipList.hpp:579-593 | every node is freed and the list is empty; a non-empty list's head goes back to a single self-linked level, while an empty list is left unchanged |
| SkipLists.SkipList.Copy | include/SkipList.hpp:499-505 | the copy holds the same entries, in the same order, as the original |
| SkipLists.SkipList.Assign | include/SkipList.hpp:523-530 | after assignment the contents equal the other skip list's; self-assignment changes nothing |
| SkipLists.SkipList.FromList | include/SkipList.hpp:512-519 | building from an initializer list gives `InsertEach` of its entries: sorted, without duplicate keys, first occurrence wins |
| SkipLists.SkipList.Merge | include/SkipList.hpp:723-733 | merging with itself changes nothing; otherwise every source entry whose key is new is inserted with its source tower height, and the source keeps exactly the entries whose keys were already present |
| Vectors.PowAtLeast | include/Vector.hpp:271-276 | the least power of two, from `p` upward, that is at least `n` |
| Vectors.NearestIncrement | include/Vector.hpp:271-276 | `nearest_increment_(n)` is a power of two, at least `n`, and the smallest such (1 for `n <= 1`) |
| Vectors.NearestLeast | include/Vector.hpp:271-276 | no power of two at least `n` lies below `nearest_increment_(n)` |
| Vectors.NearestFixed | include/Vector.hpp:271-276 | a power of two is its own nearest increment |
| Vectors.GrowthFits | include/Vector.hpp:253-265 | while doubling fits under the maximum size, growth asks for exactly double the capacity (1 from empty) |
| Vectors.Vector.constructor | include/Vector.hpp:358 | a new vector is empty with capacity 0 and owns a freshly allocated (empty) buffer |
| Vectors.Vector.ChangeCapacity | include/Vector.hpp:278-295 | fails with a length error exactly when the rounded capacity exceeds the maximum size; otherwise the elements move to a fresh buffer of that capacity |
| Vectors.Vector.Grow | include/Vector.hpp:253-265 | succeeds exactly when the vector is below the maximum size, doubling (modulo 2^64, at least 1) does not fall below the capacity, and the rounded request fits under the maximum size; overflow error exactly in the wrap-around case, length error otherwise; success leaves room for one more element and doubles the capacity whenever that fits |
| Vectors.Vector.EmplaceBack | include/Vector.hpp:622-631 | succeeds exactly when there is a free slot or `grow_` succeeds (`GrowSucceeds`), and always when doubling fits under the maximum size; on success `x` is appended and its index returned; the failure is an overflow error exactly when a full vector's doubling wraps around, a length error otherwise, and leaves elements, buffer and capacity alone; no reallocation while there is room, and any new buffer is freshly allocated |
| Vectors.Vector.PushBack | include/Vector.hpp:633-648 | as `EmplaceBack` |
| Vectors.Vector.PopBack | include/Vector.hpp:650-653 | the last element goes; the buffer stays |
| Vectors.Vector.ShiftAfter | include/Vector.hpp:334-351 | `n < 1` is an invalid argument; otherwise the elements from `pos` move up by `n`, those before stay, and the size grows by `n` |
| Vectors.Vector.Emplace | include/Vector.hpp:655-668 | same success and error conditions as `EmplaceBack`; on success `x` is inserted at `pos` and `pos` is returned; a failure leaves elements, buffer and capacity alone; no reallocation while there is room, and any new buffer is freshly allocated |
| Vectors.Vector.EraseRange | include/Vector.hpp:740-751 | the two loops remove `[first, last)`, keeping the rest in order, in the same buffer |
| Vectors.Vector.EraseAsWritten | include/Vector.hpp:740-753 | as written: the range is erased and the returned index is `last` |
| Vectors.Vector.Erase | include/Vector.hpp:740-753 | corrected: the returned index `first` names the element that followed the range, or the end |
| Vectors.EraseResultSkips | include/Vector.hpp:752 | after erasing a non-empty range, the element that followed it sits at `first`, while the index `last` that the source returns holds the element `last - first` places further on |
| Vectors.Vector.EraseAt | include/Vector.hpp:736-738 | corrected: the element goes and the index of its successor, `pos`, is returned (as written the source returns `pos + 1`, see Findings) |
| Vectors.Vector.At | include/Vector.hpp:588-600 | an out-of-range error exactly when `pos >= size`; otherwise the element at `pos` |
| Vectors.Vector.Get | include/Vector.hpp:578-586 | `operator[]` agrees with `at` on every in-range index |
| Vectors.Vector.Front | include/Vector.hpp:602-604 | the first element |
| Vectors.Vector.Back | include/Vector.hpp:606-614 | the last element |
| Vectors.Vector.Clear | include/Vector.hpp:766-769 | the vector becomes empty and keeps its buffer and capacity |
| Vectors.Vector.ReserveAsWritten | include/Vector.hpp:569 | as written, `reserve(n)` succeeds exactly when `nearest_increment_(n)` fits under the maximum size and then moves the elements into a freshly allocated buffer of that capacity, even below the current capacity; otherwise a length error changes nothing |
| Vectors.ReserveOverruns | include/Vector.hpp:569 | with three elements, `reserve(1)` asks for a capacity smaller than the size |
| Vectors.Vector.Reserve | include/Vector.hpp:569 | corrected: a capacity of at least `n` is reached unless that exceeds the maximum size (a length error that changes nothing); the capacity never shrinks; a request that already fits changes nothing; any new buffer is freshly allocated |
| Vectors.Vector.ShrinkToFit | include/Vector.hpp:571-575 | reallocates into a freshly allocated buffer of `nearest_increment_(size)` slots exactly when the size is below half the capacity, otherwise keeps the buffer; the capacity never grows and the elements stay |
| Vectors.Vector.Swap | include/Vector.hpp:755-764 | the two vectors exchange buffers, contents and capacities |
| Vectors.Vector.Equal | include/Vector.hpp:780-787 | `==` holds exactly when the element sequences are equal |
| Vectors.Vector.Less | include/Vector.hpp:793-801 | `<` is lexicographic order on the elements |
| Vectors.Vector.LessEq | include/Vector.hpp:803-811 | `<=` is lexicographic `<` or equality |
| Maps.ValueCompareKeysOnly | include/Map.hpp:36-58 | every overload of `value_compare` orders by key alone, whatever the mapped values |
| Maps.Map.Ascending | include/Map.hpp:59 | the pairs of a map are in strictly ascending key order |
| Maps.Map.UpperRankIs | include/Map.hpp:335-340 | the upper-bound rank is the first position whose key exceeds `k` |
| Maps.Map.ValueOf | include/Map.hpp:139-143 | a stored node's key is present, and looking its key up returns that node and its value |
| Maps.Map.constructor | include/Map.hpp:70-76 | a new map is empty |
| Maps.Map.Find | include/Map.hpp:293-301 | a present key gives its node; an absent key gives `end()` |
| Maps.Map.At | include/Map.hpp:139-149 | out of range exactly when the key is absent; otherwise the key's value |
| Maps.Map.Index | include/Map.hpp:151-161 | afterwards the key is present; an existing value is returned unchanged; an absent key is inserted with the default value 0 |
| Maps.Map.Insert | include/Map.hpp:187-193 | inserts exactly when the key is absent; an existing key keeps its old value |
| Maps.Map.EraseKey | include/Map.hpp:257 | removes the key's pair and returns 1, or returns 0 when it is absent |
| Maps.Map.Extract | include/Map.hpp:269-273 | a present key's pair is removed and handed back, and re-inserting it restores the map; an absent key gives an empty handle |
| Maps.Map.Count | include/Map.hpp:287-291 | 1 when the key is present, 0 otherwise |
| Maps.Map.EqualRange | include/Map.hpp:303-312 | a present key gives its node and the next; an absent key gives `end()` twice |
| Maps.Map.LowerBoundAsWritten | include/Map.hpp:325-328 | as written: the key's node when present, `end()` otherwise |
| Maps.Map.LowerBound | include/Map.hpp:325-328 | corrected: the first node whose key is not less than `k` |
| Maps.Map.UpperBoundAsWritten | include/Map.hpp:335-340 | as written: the node after the key when present, `end()` otherwise |
| Maps.Map.UpperBound | include/Map.hpp:335-340 | corrected: the first node whose key is greater than `k` |
| Maps.AbsentKeyHasBounds | include/Map.hpp:325-340 | with keys `[1, 3]`, the absent key 2 has lower and upper bound at the node holding 3, not at `end()` |
| Stacks.Pushed | include/Stack.hpp:42-43 | pushing puts `v` after all the old values |
| Stacks.PushPop | include/Stack.hpp:42-50 | after a push, `top` is the pushed value and `pop` restores the old stack |
| Stacks.Stack.constructor | include/Stack.hpp:18 | a new stack is empty; no node of the shared memory changes |
| Stacks.Stack.Top | include/Stack.hpp:35-37 | the most recently pushed value still present (the back of the list) |
| Stacks.Stack.Empty | include/Stack.hpp:39 | true exactly when the stack holds nothing |
| Stacks.Stack.Push | include/Stack.hpp:42-43 | `v` goes on top; the nodes of the memory outside the stack's own ring keep their links and values |
| Stacks.Stack.Emplace | include/Stack.hpp:45-48 | `v` goes on top, and the returned node is the list's new last node; the nodes of the memory outside the stack's own ring keep their links and values |
| Stacks.Stack.Pop | include/Stack.hpp:50 | the top value goes; the nodes of the memory outside the stack's own ring keep their links and values |
| Stacks.Stack.Equal | include/Stack.hpp:57-59 | `==` holds exactly when the underlying value sequences are equal |

## Left out

- Allocators. `get_allocator`, allocator propagation on copy, move and swap, allocation failure, and `max_size` of the list and skip list are not modelled. The vector keeps `maxSize` as a constant of each vector.
- Custom comparators and predicates. Keys and elements are `int`, ordered by `<` and compared by `==`. `merge`, `sort`, `unique` and `remove_if` are modelled for the default comparator and predicate only, except that `RemoveIf` and `UniqueBy` take any Dafny function.
- Random node heights. `distrib(d_gen)` is replaced by a height the caller passes in. The probabilistic cost of a skip-list search is not modelled.
- Lists.List.RemoveIf: does not state that `p` is called exactly once per element, because calls are not observable in the model.
- Lists.List.Sort: states sorted and a permutation, not stability, because stability depends on the comparator and all elements here are plain `int`s.
- Lists.List.Merge: states the node order as `MergeBy` of the old orders, and sortedness of the result only through `ListOrder.MergeBySorted`. The merge with a custom comparator is not modelled.
- The backward search of `find_pos_` (`include/SkipList.hpp:410-433`). It runs only for a hint whose key exceeds the searched key.
- SkipLists.SkipList.InsertHint: requires the hint to be the head or to hold a key no greater than the new key, because the backward search is not modelled.
- SkipLists.SkipList.InsertHandleHint: requires the same of the hint, for the same reason.
- SkipLists.SkipList.Extract: does not keep node identity. The source unlinks the node and hands that same node to the handle; the model drops the slot's data and the handle carries only the entry and the tower height.
- SkipLists.SkipList.InsertHandle: does not keep node identity. The source relinks the handle's own node (`nh.release_()`); the model copies the handle's entry and height into a fresh slot of the target.
- SkipLists.SkipList.InsertHandleHint: does not keep node identity, for the same reason as `InsertHandle`.
- SkipLists.SkipList.Merge: does not keep node identity. The source relinks each moved source node into the target; the model unlinks it from the source and links a fresh target slot with the same entry and tower height. Pointers and iterators to a moved element, which the source keeps valid across `extract`, `insert(node_type&&)` and `merge`, have no counterpart in the model, because each skip list has its own arena of slots.
- Skip-list move constructor and move assignment (`include/SkipList.hpp:507-510`, `532-551`).
- Skip-list `swap` (`include/SkipList.hpp:698-703`). It exchanges only the comparator and the allocator, which the model does not carry, so it has no effect on the modelled state.
- `list::swap` (`include/List.hpp:467-476`). It swaps the sentinel nodes by value, which cannot be expressed over node numbers without re-pointing the neighbours.
- Lists.List.SpliceAll: requires `other` to be another list. `splice(pos, *this)` moves a range that contains `pos`, which the source does not support.
- List move constructor and move assignment (`include/List.hpp:269-273`, `297-312`). They reduce to `SpliceAll` and to clear-then-append.
- The `assign` overloads (`include/List.hpp:321-341`). They are `Clear` followed by `AppendAll` or `PushBackCopies`.
- `emplace` without a value (`include/List.hpp:240-243`).
- Reverse iterators.
- The `printf("Pos exists\n")` in `include/SkipList.hpp:628`.
- Debug printing.
- `nearest_increment_` as floating point. The source computes it with `std::log`, `std::pow` and `std::ceil`. `Vectors.NearestIncrement` is the exact integer it is meant to produce. Rounding error in `log(n)/log(2)` for very large `n` is not modelled.
- Vector members not modelled:
  - the count and range constructors, copy and move, `assign` and `insert(pos, n, x)`;
  - `resize` (`include/Vector.hpp:555-567`), which destroys the tail without lowering `d_size` when shrinking;
  - `insert(pos, x)` (`include/Vector.hpp:670`), which has no `return`.
- The `empty` and `size` readers of the vector (`include/Vector.hpp:545-553`). They are the fields `size` and `capacity` of `Vectors.Vector`.
- Map `try_emplace` (`include/Map.hpp:221-247`). The overloads have no `return`, or return a pair from a function declared to return an iterator.
- Map hinted and range `insert`, `erase(pos)` and `erase(first, last)`. They forward unchanged to the skip list, whose members are modelled.
- Map node-handle `insert` (`include/Map.hpp:212-214`). It is declared but never defined.
- Map `merge` (`include/Map.hpp:275-283`). It forwards to `SkipLists.SkipList.Merge`.
- Map `clear`, `empty` and `size`. They forward to the skip list members of the same names.
- Stack copy `operator=` (`include/Stack.hpp:32`). It has no `return`.
- Stack `swap`, because `list::swap` is not modelled.
- Stack relational operators other than `==` (`include/Stack.hpp:64-79`). Each one calls itself forever.
- `algorithm.hpp`, the decorators, `Point` and `Function` are not part of this model.

## Findings

| source | as written | input that shows it | evidently intended | confidence | as-written member | corrected member |
|---|---|---|---|---|---|---|
| include/SkipList.hpp:792-797 | `==` compares elements with `value_comp()`, which is `<` | any non-empty skip list compared with itself, e.g. `{1}` | equal when neither element is less than the other | not executed | SkipOrder.EqualAsWrittenCounterexample | SkipOrder.EquivalentKeys |
| include/Vector.hpp:752 | `erase(first, last)` returns `begin() + (last - cbegin())`; `erase(pos)` (lines 736-738) forwards to it and so returns `pos + 1`, which `Vectors.Vector.EraseAt` corrects to `pos` | erase index 0 of `[1, 2, 3]`: returns index 1 (value 3) | returns index `first`, the element that followed the erased range | not executed | Vectors.Vector.EraseAsWritten | Vectors.Vector.Erase |
| include/Vector.hpp:569 | `reserve(n)` always reallocates to `nearest_increment_(n)` | a vector of 3 elements, `reserve(1)`: new capacity 1 is below the size | reallocate only when `n` exceeds the capacity | not executed | Vectors.ReserveOverruns | Vectors.Vector.Reserve |
| include/Map.hpp:325-328 | `lower_bound` returns `find(x)` | keys `{1, 3}`, `lower_bound(2)` gives `end()` | the first key not less than `x` (the node holding 3) | not executed | Maps.Map.LowerBoundAsWritten | Maps.Map.LowerBound |
| include/Map.hpp:335-340 | `upper_bound` returns the node after `find(x)`, or `end()` | keys `{1, 3}`, `upper_bound(2)` gives `end()` | the first key greater than `x` (the node holding 3) | not executed | Maps.AbsentKeyHasBounds | Maps.Map.UpperBound |
| include/List.hpp:527-529 | `splice(pos, other, it)` forwards to the range splice up to `other.cend()` | `other = [1, 2]`, `it` at 1: moves both 1 and 2 | moves the single element `it` | not executed | Lists.SpliceFromMovesTail | Lists.List.SpliceOne |
| include/List.hpp:543-555 | the range splice relinks without checking `first == last` | splicing an empty list (`first == last == other.end()`), which `splice(pos, other)` does for an empty `other` and `splice(pos, other, other.end())` does always; `Lists.List.SpliceAll` and `Lists.List.SpliceFrom` use the corrected splice | an empty range moves nothing | not executed | Lists.SpliceEmptyRangeExample | Lists.List.Splice |
| include/List.hpp:314-319 | `operator=(ilist)` pushes the new values without clearing first | list `[1]`, assign `{2}`: gives `[1, 2]` | the list holds exactly `{2}` | not executed | Lists.AssignAppends | Lists.List.AssignInit |

# LinkedSet in Dafny

This project models `LinkedSet<T>`, a duplicate-free set stored as a doubly-linked list of
`Node`s kept in strictly ascending order. The set has three fields: `front`, `rear` and
`size`. It supports ordered insertion (`add`) and unlinking (`remove`), the queries
`contains`, `size`, `isEmpty` and `equals`, and the set algebra `union`, `intersection` and
`complement`, each of which builds a new set by repeated `add`. There are three cursors: an
ascending one, a descending one, and a power-set cursor that counts through subset masks.

The model keeps the source's imperative form:

- `Node` is a class with `element`, `next` and `prev`.
- `LinkedSet` is a class with `front`, `rear` and `size`. It also has three ghost fields:
  - `Nodes`: the nodes from front to rear.
  - `Contents`: their elements.
  - `Repr`: the objects the set owns.
- `Valid()` ties the ghost fields to the heap:
  - each `next` link leads to the following node and each `prev` link is its inverse;
  - `front.prev` and `rear.next` are null;
  - `size` counts the nodes;
  - an empty set has a null `front` and `rear`;
  - no node occurs twice;
  - the elements ascend strictly.
- Every operation is a method that walks and relinks real nodes. Its contract is stated
  against `Contents`, using the ordered-sequence functions of module `SortedSeqs`:
  `Insert`, `Delete`, `Reversed`, `Select` and `Pow2`. Properties of those functions are
  proved as lemmas.

Modules:

- `SortedSeqs` (`sorted_seqs.dfy`): the abstract state and its lemmas.
- `LinkedSets` (`linked_set.dfy`): `Node`, `LinkedSet` and the lemmas about node chains.
- `LinkedSetIterators` (`iterators.dfy`): the cursors. `LinkedSetIterator`, `DescIterator`
  and `PowerSetIterator` of the source are `AscendingIterator`, `DescendingIterator` and
  `PowerSetIterator` here. Their constructors stand for `iterator()`,
  `descendingIterator()` and `powerSetIterator()`.
- `AsWritten` (`as_written.dfy`): `equals`, `remove` and the power-set `next` as their code
  stands (see Findings).
- `Scenarios` (`scenarios.dfy`): verified scenarios following the call sequences of the
  unit tests, and the inputs that show each finding.

Elements are `int`. The source's `compareTo` is Dafny's `<` and `==` on integers.

Where the code does not do what its comments promise, the model does what they promise. The
code as written is modelled beside it in `AsWritten` and listed under Findings:

- `remove` guards the empty set and the one-element set.
- `equals` compares every element, not only the first.
- The power-set `next` really chooses the subset.

Separately, `complement` returns a new set where the code returns `this` (see Left out).

## Model

| member | source | states |
|---|---|---|
| LinkedSets.Node.constructor | LinkedSet.java:647-651 | a node holds its element and has no neighbour on either side |
| LinkedSets.LinkedSet.Valid | LinkedSet.java:22-27 | the list invariant over front, rear and size: next links from front visit the nodes in order up to rear, prev links are their inverse, the ends are null, size counts the nodes, an empty set has null front and rear, no node repeats, and the elements ascend strictly |
| LinkedSets.LinkedSet.constructor | LinkedSet.java:36-40 | a new set is valid and empty, with null front and rear |
| LinkedSets.LinkedSet.Size | LinkedSet.java:79-81 | the size is the number of elements |
| LinkedSets.LinkedSet.IsEmpty | LinkedSet.java:91-93 | empty exactly when there are no elements |
| LinkedSets.LinkedSet.Contains | LinkedSet.java:205-222 | true iff some node holds x, false on the empty set; nothing changes |
| LinkedSets.LinkedSet.Add | LinkedSet.java:104-151 | returns true iff x was absent; afterwards the list is valid and its elements are the old ones with x at its sorted place; it keeps every node it had and gains only new ones; when x was present no field of the set or of any node changes |
| LinkedSets.LinkedSet.LinkNew | LinkedSet.java:110-150 | an absent x is linked in on one new node holding x: the chain becomes the old chain with that node spliced in at some position, the set owns exactly its old objects and that node, the list stays valid, and its elements become the ordered insertion of x |
| LinkedSets.LinkedSet.LinkInside | LinkedSet.java:137-150 | a node whose element lies strictly between the front and rear elements is spliced into the chain at an inner position; the elements become the ordered insertion of it |
| LinkedSets.LinkedSet.WalkToSuccessor | LinkedSet.java:138-142 | the walk of add's middle case stops at the first node not below x, which has a node below x before it |
| LinkedSets.LinkedSet.LinkOnly | LinkedSet.java:112-118 | into an empty list the node becomes the whole chain, so it is front and rear; the list holds just its element |
| LinkedSets.LinkedSet.LinkLast | LinkedSet.java:120-127 | a node above every element is linked after rear: the chain becomes the old chain followed by the node, which is therefore the new rear; the elements gain it at the end and the list stays valid |
| LinkedSets.LinkedSet.LinkFirst | LinkedSet.java:129-135 | a node below every element is linked before front: the chain becomes the node followed by the old chain, so it is the new front; the elements gain it at the start and the list stays valid |
| LinkedSets.LinkedSet.LinkBefore | LinkedSet.java:144-150 | the node is linked between the nodes at positions i-1 and i: the chain becomes the old chain with the node spliced in at i; the elements gain it at position i and the list stays valid |
| LinkedSets.LinkedSet.Remove | LinkedSet.java:163-196 | returns true iff x was present; afterwards the list is valid, owns the same objects, and holds the old elements without x, in order; when x was absent, including on an empty set, no field of the set or of any node changes |
| LinkedSets.LinkedSet.UnlinkOnly | LinkedSet.java:167-173 | removing the only node leaves an empty chain, so null front and rear |
| LinkedSets.LinkedSet.UnlinkFront | LinkedSet.java:167-173 | the front node is unlinked: the chain becomes the old chain without its first node, so the old successor is the new front; the elements lose their first and the list stays valid |
| LinkedSets.LinkedSet.UnlinkRear | LinkedSet.java:175-181 | the rear node is unlinked: the chain becomes the old chain without its last node, so the old predecessor is the new rear; the elements lose their last and the list stays valid |
| LinkedSets.LinkedSet.WalkTo | LinkedSet.java:183-186 | the walk of remove's middle case stops at the node holding x |
| LinkedSets.LinkedSet.UnlinkMiddle | LinkedSet.java:188-192 | an inner node is bridged over: the chain becomes the old chain without the node at i; the elements lose position i and the list stays valid |
| LinkedSets.LinkedSet.Equals | LinkedSet.java:225-279 | true iff the sizes match and every element of this set is in s, which is the same as equal element sequences |
| LinkedSets.LinkedSet.AddAll | LinkedSet.java:290-303 | adding every element of s, front to rear, leaves exactly the old elements and those of s |
| LinkedSets.LinkedSet.Union | LinkedSet.java:283-306 | a new valid set whose members are those in this set or in s |
| LinkedSets.LinkedSet.Intersection | LinkedSet.java:381-422 | a new valid set whose members are those in this set and in s |
| LinkedSets.LinkedSet.Complement | LinkedSet.java:425-482 | a new valid set whose members are those in this set and not in s, also when either side is empty |
| LinkedSets.DistinctPairwise | LinkedSet.java:22-27 | a chain without repeats is one in which every two positions hold different nodes |
| LinkedSets.SpliceLinks | LinkedSet.java:144-150 | after a splice at i the chain's next links still lead on and its prev links are still their inverse |
| LinkedSets.SpliceDistinct | LinkedSet.java:110 | splicing in a new node keeps the chain free of repeats |
| LinkedSets.CutLinks | LinkedSet.java:188-192 | after cutting position i the chain's next and prev links are still mutual inverses |
| LinkedSets.CutDistinct | LinkedSet.java:163-196 | cutting a node keeps the chain free of repeats |
| LinkedSetIterators.AscendingIterator.Valid | LinkedSet.java:527-532 | the cursor's current node is the one after the elements handed out, which are a prefix of the set's elements; the set stays valid |
| LinkedSetIterators.AscendingIterator.constructor | LinkedSet.java:527-532 | a new cursor stands on front and has handed out nothing |
| LinkedSetIterators.AscendingIterator.HasNext | LinkedSet.java:535-537 | true iff elements remain; when false, the elements handed out are all of them, front to rear |
| LinkedSetIterators.AscendingIterator.Next | LinkedSet.java:540-549 | hands out the next element in ascending order and moves on; past the end it reports NoSuchElement and changes nothing |
| LinkedSetIterators.DescendingIterator.Valid | LinkedSet.java:556-561 | the cursor's current node is the one before the elements handed out, which are a suffix of the set's elements in reverse; the set stays valid |
| LinkedSetIterators.DescendingIterator.constructor | LinkedSet.java:556-561 | a new cursor stands on rear and has handed out nothing |
| LinkedSetIterators.DescendingIterator.HasNext | LinkedSet.java:564-566 | true iff elements remain; when false, the elements handed out are all of them reversed |
| LinkedSetIterators.DescendingIterator.Next | LinkedSet.java:569-578 | hands out the next element in descending order and moves on; past the end it reports NoSuchElement |
| LinkedSetIterators.PowerSetIterator.Valid | LinkedSet.java:585-594 | count is the set's size, current is the number of subsets handed out, and the m-th subset handed out is the one mask m chooses; the set stays valid |
| LinkedSetIterators.PowerSetIterator.constructor | LinkedSet.java:590-594 | a new cursor starts at mask 0 and records the size |
| LinkedSetIterators.PowerSetIterator.HasNext | LinkedSet.java:596-598 | true iff fewer than 2^size subsets have been handed out |
| LinkedSetIterators.PowerSetIterator.Next | LinkedSet.java:600-612 | hands out, as a new set, the subset chosen by the current mask and advances the mask by one |
| LinkedSetIterators.PowerSetIterator.Subset | LinkedSet.java:601-609 | walking front to rear and keeping an element when its bit of the mask is set builds exactly the subset the mask chooses |
| LinkedSetIterators.PowerSetAllHandedOut | LinkedSet.java:585-617 | once the cursor runs out, every subset of the elements has been handed out |
| LinkedSetIterators.PowerSetNoRepeats | LinkedSet.java:585-617 | no subset is handed out twice among the first 2^size |
| SortedSeqs.StrictlyIncreasingPairwise | LinkedSet.java:96-99 | ascending from each element to the next is ascending between any two positions, so the list holds no duplicate |
| SortedSeqs.Insert | LinkedSet.java:104-151 | the members after ordered insertion are the old ones and x |
| SortedSeqs.InsertStrict | LinkedSet.java:104-151 | ordered insertion keeps a sequence strictly ascending |
| SortedSeqs.InsertLength | LinkedSet.java:104-151 | insertion adds exactly one element when x is new and none otherwise |
| SortedSeqs.InsertPresent | LinkedSet.java:106-108 | inserting a present element changes nothing |
| SortedSeqs.InsertTwice | LinkedSet.java:104-108 | adding the same element twice is the same as adding it once |
| SortedSeqs.InsertBetween | LinkedSet.java:110-150 | insertion just after a smaller and just before a larger element is a splice at that position |
| SortedSeqs.Delete | LinkedSet.java:163-196 | the members after deletion are the old ones other than x |
| SortedSeqs.DeleteStrict | LinkedSet.java:163-196 | deletion keeps a sequence strictly ascending |
| SortedSeqs.DeleteLength | LinkedSet.java:163-196 | deletion removes exactly one element when x is present and none otherwise |
| SortedSeqs.DeleteAt | LinkedSet.java:163-193 | deleting the element at position i closes the gap at i |
| SortedSeqs.DeleteAbsent | LinkedSet.java:195 | deleting an absent element changes nothing |
| SortedSeqs.InsertThenDelete | LinkedSet.java:104-196 | removing a newly added element restores the set |
| SortedSeqs.DeleteThenInsert | LinkedSet.java:104-196 | adding back a removed element restores the set |
| SortedSeqs.SameMembersSame | LinkedSet.java:225-232 | two ascending lists with the same members are the same list, so a set's members fix its nodes' elements |
| SortedSeqs.SubsetSameSizeSame | LinkedSet.java:225-232 | same size and every element of one in the other means equal element sequences |
| SortedSeqs.Reversed | LinkedSet.java:556-582 | reversal keeps the length |
| SortedSeqs.ReversedAt | LinkedSet.java:556-582 | position k of the reversal holds the element k places from the end |
| SortedSeqs.ReversedStep | LinkedSet.java:569-578 | one more element handed out from the rear extends the reversal by that element |
| SortedSeqs.Pow2 | LinkedSet.java:596-598 | 2^n is at least 1 |
| SortedSeqs.Select | LinkedSet.java:600-612 | a mask chooses a subsequence of the elements |
| SortedSeqs.SelectStrict | LinkedSet.java:600-612 | a chosen subset is itself strictly ascending |
| SortedSeqs.SelectMember | LinkedSet.java:600-612 | element j is in the subset chosen by m iff bit j of m is set |
| SortedSeqs.SelectAll | LinkedSet.java:596-612 | the last mask below 2^size chooses the whole set |
| SortedSeqs.SelectInjective | LinkedSet.java:596-612 | different masks below 2^size choose different subsets |
| SortedSeqs.SelectCovers | LinkedSet.java:596-612 | every subset is chosen by some mask below 2^size |
| SortedSeqs.PowerSetCovers | LinkedSet.java:596-612 | every subset, as a set of members, is chosen by a mask below 2^size |
| SortedSeqs.PowerSetOnce | LinkedSet.java:596-612 | two masks below 2^size that choose the same members are the same mask |
| SortedSeqs.SelectStep | LinkedSet.java:603-608 | one pass of the subset loop: the element under the cursor is kept iff the lowest remaining bit is set, the rest being chosen by the other bits |
| SortedSeqs.AppendNext | LinkedSet.java:603-608 | adding the element under the cursor to the subset built so far appends it at the end |
| AsWritten.EqualsAsWritten | LinkedSet.java:233-279 | as written, equals is true iff the sizes match, the set is not empty and its front element is in s |
| AsWritten.RemoveAsWritten | LinkedSet.java:163-196 | as written, remove follows a null link exactly on the empty set and on removing the only element; otherwise it deletes x |
| AsWritten.RemoveAsWrittenFaults | LinkedSet.java:163-173 | remove as written faults on an empty set and on a one-element set, where the intended result is an empty set |
| AsWritten.PowerSetIteratorAsWritten.constructor | LinkedSet.java:590-594 | as written, the cursor starts with count the size, current 0 and bit 0 |
| AsWritten.PowerSetIteratorAsWritten.Next | LinkedSet.java:600-612 | as written, next hands out the empty set whenever bit's lowest bit is clear, and bit is left at 0 |
| Scenarios.Build | LinkedSetTest.java:77-90 | a set filled by adding xs in order holds exactly their ordered insertion |
| Scenarios.AddRepeatsScenario | LinkedSetTest.java:77-90 | adding 4, 1, 5, 3, 1, 2, 2, 3 gives size 5 |
| Scenarios.RemoveEach | LinkedSetTest.java:445-462 | removing xs in order deletes exactly those elements |
| Scenarios.RemoveScenario | LinkedSetTest.java:445-462 | adding 4, 1, 5, 3, 1, 2 and removing 4, 1, 5, 2 leaves size 1 |
| Scenarios.UnionScenario | LinkedSetTest.java:341-364 | {6, 4, 5} united with {2, 1, 3} equals {1, ..., 6} |
| Scenarios.IntersectionScenario | LinkedSetTest.java:366-390 | {1, ..., 6} intersected with {6, 4, 5} equals {4, 5, 6} |
| Scenarios.ComplementScenario | LinkedSet.java:425-482 | {1, 2, 3} less {2, 5} equals {1, 3} |
| Scenarios.ComplementEmptyScenario | LinkedSet.java:430-437 | a set less the empty set is equal to it but is a different object |
| Scenarios.DrainAscending | LinkedSet.java:527-549 | running the ascending cursor to the end hands out the elements front to rear |
| Scenarios.DrainDescending | LinkedSet.java:556-578 | running the descending cursor to the end hands out the elements reversed, then NoSuchElement |
| Scenarios.DrainPowerSet | LinkedSet.java:585-612 | running the power-set cursor to the end hands out 2^size subsets, the last of which holds exactly the set's elements |
| Scenarios.NoOpKeepsCursor | LinkedSet.java:104-108 | adding a present element and removing an absent one leave the list as it was, so a cursor made before them still hands out the first element |
| Scenarios.AscendingScenario | LinkedSet.java:527-549 | the ascending cursor over {3, 1, 2} hands out 1, 2, 3 |
| Scenarios.DescendingScenario | LinkedSetTest.java:392-408 | the descending cursor over {1, ..., 6} hands out 6, 5, 4, 3, 2, 1, then NoSuchElement |
| Scenarios.PowerSetScenario | LinkedSetTest.java:410-423 | the power-set cursor over a three-element set hands out 8 subsets, the last of size 3 |
| Scenarios.EqualsAsWrittenFrontOnly | LinkedSetTest.java:325-339 | {3, 2, 4} and {1, 2, 3} compare equal as written and unequal once corrected |
| Scenarios.EqualsAsWrittenEmpty | LinkedSet.java:261-279 | two empty sets compare unequal as written and equal once corrected |
| Scenarios.PowerSetAsWrittenOnlyEmpty | LinkedSet.java:600-612 | on {7}, the second subset handed out is empty as written and {7} once corrected |

## Left out

- Element type: the generic `T extends Comparable` is `int`. The `element == null` guard of
  `add` (LinkedSet.java:106) and the `s == null` and `this == null` tests of `complement`
  cannot arise and are not modelled.
- `toString` (LinkedSet.java:56-68) is not modelled. It is string building over each
  element's own `toString`.
- Overloads: each `Set<T>`/`LinkedSet<T>` pair of `equals`, `union`, `intersection` and
  `complement` is one method taking a `LinkedSet`. The `Set<T>` interface is not part of this
  model.
- LinkedSets.LinkedSet.Union: the `union(LinkedSet)` overload (LinkedSet.java:314-376) is
  not modelled, because it never returns normally and it changes both operands along the way:
  - with an empty `s` it follows a null link at line 319;
  - otherwise every branch of its loop ends by setting `n1` to a new node built from
    `node1.next`, while `node1` never advances, so the exit test `n1 != null` never fails;
  - the loop ends only by following a null link (when `s` has one element, at line 333,
    342, 351 or 365, or when this set is empty, at line 357) or runs forever;
  - on the way it rewrites links of both operands' nodes (for example line 339 writes
    `next` of this set's rear node).
  The model follows `union(Set)` (LinkedSet.java:288-306), which returns a new set that
  shares nothing with the operands.
- LinkedSets.LinkedSet.Complement: when either set is empty the source returns `this` itself
  (LinkedSet.java:431-437). The model returns a new copy with the same elements. Object
  identity is the only difference.
- The iterators' `remove` methods (LinkedSet.java:551-553, 580-582, 614-616) only throw
  `UnsupportedOperationException` and are not modelled.
- Changing a set while one of its cursors is in use is outside the model. A cursor's
  `Valid()` requires its set to be unchanged.
- LinkedSetIterators.PowerSetIterator.HasNext: `(int) Math.pow(2, size)` is floating point
  and saturates at the largest `int` for large sizes. The model uses the exact integer
  `Pow2(size)`.
- Java's 32-bit `int` is not modelled. `size` and the power-set counter `current` are
  unbounded integers, so their overflow after 2^31 - 1 steps is not captured.
- LinkedSetIterators.PowerSetIterator.Next: the source's `bit` field is dropped. The
  corrected `next` consumes a local copy of the mask one bit per node, where the source tests
  `bit & mask`.
- `Node.element` is a constant. The source never reassigns it after construction. The unused
  no-argument `Node()` constructor (LinkedSet.java:637-641) is not modelled.
- `remove` allocates a probe `Node` (LinkedSet.java:164). It reads the probe's element and its
  null links, and in the middle case it also writes the probe's `prev` (line 188), a value
  nothing reads afterwards. The model compares against x directly, writes `null` where the
  source copies the probe's null links, and drops the write at line 188.
- There is no concurrency in the source.

## Findings

| source | as written | input that shows it | evidently intended | confidence | as-written member | corrected member |
|---|---|---|---|---|---|---|
| LinkedSet.java:233-279 | both `equals` loops return on their first pass, so only the front element is compared; two empty sets never enter the loop and compare unequal | {3, 2, 4} against {1, 2, 3} gives true; {} against {} gives false | true iff the sizes match and every element is in s | not executed | AsWritten.EqualsAsWritten, Scenarios.EqualsAsWrittenFrontOnly, Scenarios.EqualsAsWrittenEmpty | LinkedSets.LinkedSet.Equals |
| LinkedSet.java:163-173 | `remove` reads `front.element` without testing for an empty list, and on a front match sets `n.next.prev` where a one-element list has no `n.next` | remove(x) on {}; remove(7) on {7}: both follow a null link | false and no change on {}; an empty set after removing the only element | not executed | AsWritten.RemoveAsWritten, AsWritten.RemoveAsWrittenFaults | LinkedSets.LinkedSet.Remove |
| LinkedSet.java:600-612 | the power-set `next` tests `bit & mask` with `bit` always 0, never shifts `mask` and never advances `node`, so every subset it hands out is empty | on {7} the second call hands out {} | the subset whose element j is kept iff bit j of the counter is set | not executed | AsWritten.PowerSetIteratorAsWritten.Next, Scenarios.PowerSetAsWrittenOnlyEmpty | LinkedSetIterators.PowerSetIterator.Next |

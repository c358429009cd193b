# A verified model of the lab0-c queue

This project models `queue.c` of lab0-c in Dafny. The queue is a deque of C
strings kept in an intrusive circular doubly-linked list. A payload-free
sentinel node `head` sits in the ring between the last element and the first.
Every operation works by rewiring the `next`/`prev` fields of shared nodes in
place. The model keeps that shape:

- `Node` is a class with mutable `next`/`prev` fields and the element's string.
- `Queue` is a class holding the sentinel, a ghost sequence `elems` of the
  element nodes front to back, and the ghost footprint `Repr`.
- `Queue.Valid()` ties the ring to `elems`. From the sentinel, `next` visits
  every element once in order and returns to the sentinel. Every `prev` undoes
  a `next`. An empty queue's sentinel points to itself both ways.

Each `q_*` operation is a method that reads or rewires the nodes as the C code
does. `q_size` only walks the ring. `q_free` opens the ring and hands every
node back. Every other operation is proved to keep `Valid()`, and to turn
`elems` into a stated value: an element added or taken away at an end, or the
result of a pure specification function. Those functions are `Reverse`,
`SwapPairs`, `CollapseRuns`, `MergeSeq`, `MergeSortSeq` and the index
`MidIndex`. The
promised properties are proved about them as lemmas: reversal and pair swapping
undo themselves; the dedup walk keeps the first node of every run; the merge
sort permutes, sorts, is stable and leaves sorted input alone.

The sort works on NULL-terminated chains, as the C code does. `q_sort` opens
the ring and `merge_sort` splits the chain at its middle with a slow/fast walk.
`merge` relinks two chains into one. `q_sort` then closes the sorted chain into
a ring through the original sentinel.

Modules:

- `CStrings` (cstrings.dfy) holds bytes and C strings. It covers `strcmp` and
  the read-back of the buffer `q_remove_*` fills.
- `ListNodes` (list_nodes.dfy) holds the node class and the shapes a run of
  nodes takes: linked stretches and NULL-terminated chains.
- `QueueSpec` (queue_spec.dfy) holds the specification functions and the
  lemmas about them.
- `ListSort` (list_sort.dfy) holds `merge` and `merge_sort` on chains.
- `QueueEngine` (queue_engine.dfy) holds the queue class and every `q_*`
  operation.

Calls into the environment become parameters. The outcomes of `malloc` and
`strdup` are the booleans `mallocOk` and `strdupOk`. Deallocation appears only
as a node leaving `elems` and `Repr`. In `q_free` it is the order in which
nodes are handed back.

Where the code and its comments disagree, the model follows the code:

- `q_delete_mid` deletes index ⌊(n−1)/2⌋, the lower middle. The comment at
  queue.c:199-200 says ⌊n/2⌋, which differs for every even n. The comment's own
  example on line 201, the third of six, agrees with the code.
- `q_delete_dup` keeps one node of every run of equal strings. The comment on
  line 228 says "leaving only distinct strings".
- `q_delete_dup` returns false for an empty queue as well as for NULL. Its
  comment on line 230 mentions only NULL.

## Model

| member | source | states |
|---|---|---|
| CStrings.StrCmp | queue.c:245-247 | `strcmp` returns 0 exactly when the two strings are equal |
| CStrings.StrCmpAntisymmetric | queue.c:329 | swapping the operands of `strcmp` negates its result |
| CStrings.LeqTotal | queue.c:337 | any two strings are ordered by `strcmp(a, b) <= 0` one way or the other |
| CStrings.LeqTransitive | queue.c:337 | the order `strcmp(a, b) <= 0` is transitive |
| CStrings.LessLeqTransitive | queue.c:245-247 | a strict `strcmp` step followed by a non-strict one is strict |
| CStrings.Prefix | queue.c:137-138 | the copy kept in `sp` is the first `bufsize - 1` bytes of the string, or all of it when shorter |
| CStrings.ReadCString | queue.c:138 | a buffer reads as the bytes before its first NUL, and the byte after them is that NUL |
| CStrings.ReadCStringOfTerminated | queue.c:136-139 | a buffer holding a string's bytes followed by a NUL reads back as that string |
| QueueEngine.Queue.constructor | queue.c:23-26 | a queue built on a self-linked sentinel is valid and empty, with the sentinel and the queue as its footprint |
| QueueEngine.QNew | queue.c:18-27 | returns NULL exactly when allocation fails; otherwise a fresh empty valid queue whose sentinel points to itself both ways |
| QueueEngine.QFree | queue.c:30-44 | does nothing for NULL; otherwise hands back every element once, front to back, and then the sentinel |
| QueueEngine.QSize | queue.c:183-195 | returns 0 for NULL and otherwise the number of elements, found by walking the ring; changes nothing |
| QueueEngine.QInsertHead | queue.c:53-76 | succeeds exactly when the queue is non-NULL and both allocations succeed; then the elements are a fresh node holding a copy of `s` followed by the old ones, the ring stays valid, and on failure nothing changes |
| QueueEngine.QInsertTail | queue.c:85-108 | as `QInsertHead`, with the new node after the old elements |
| QueueEngine.CopyOut | queue.c:136-139 | after the copy, `sp` reads as the string cut to `bufsize - 1` bytes, and the bytes from `bufsize` on are untouched |
| QueueEngine.QRemoveHead | queue.c:124-142 | returns NULL exactly for a NULL or empty queue, which is left unchanged; otherwise returns the first element, unlinked, leaves the rest in order in a valid ring, `sp` reads as its string cut to `bufsize - 1` bytes, and the bytes of `sp` from `bufsize` on are untouched |
| QueueEngine.QRemoveTail | queue.c:148-167 | as `QRemoveHead`, for the last element |
| QueueEngine.ListDel | queue.c:217-218 | unlinking the element at index `i` leaves the other elements in order in a valid ring |
| QueueSpec.MidIndex | queue.c:211-215 | the slow/fast walk stops at the lower middle: an index below `n` with as many elements after it as before, or one more |
| QueueEngine.QDeleteMid | queue.c:204-224 | fails exactly for a NULL or empty queue, and then the elements and the footprint are unchanged; otherwise removes exactly the element at `MidIndex(n)` from the elements and from the footprint, the others keep their order and the ring stays valid |
| QueueSpec.CollapseRuns | queue.c:243-253 | the walk keeps the first node, only nodes of the input, and never lengthens the queue |
| QueueSpec.CollapseRunsDropStep | queue.c:245-251 | deleting the successor equal to the current node leaves the outcome of the walk unchanged |
| QueueSpec.CollapseRunsKeepStep | queue.c:252 | moving past a node that differs from its successor, or has none, leaves the outcome of the walk unchanged |
| QueueSpec.CollapseRunsIsRunHeads | queue.c:236-255 | the walk keeps exactly the first node of every run of equal strings |
| QueueSpec.CollapseRunsNoAdjacentEqual | queue.c:236-255 | afterwards no two neighbouring elements hold equal strings |
| QueueSpec.CollapseRunsKeepsValues | queue.c:236-255 | no string disappears entirely: the set of strings is unchanged |
| QueueSpec.CollapseRunsOfSortedStrict | queue.c:232-255 | on sorted input the strings left are strictly ascending, so none is left twice |
| QueueSpec.CollapseRunsOfSorted | queue.c:232-255 | on sorted input every string is left exactly once: strictly ascending, and with the same set of strings as the input |
| QueueEngine.QDeleteDup | queue.c:236-255 | fails exactly for a NULL or empty queue, and then the footprint is unchanged; otherwise the elements become `CollapseRuns` of the old ones and the ring stays valid; the footprint never grows, and every deleted element leaves it |
| QueueEngine.DropNext | queue.c:245-251 | one round of the inner loop unlinks the equal successor, drops it from the footprint, and keeps the walk on course to `CollapseRuns` |
| QueueEngine.DroppedStep | queue.c:248-250 | unlinking and releasing one more element keeps the record of what was released: every remaining element is an original one, and every original element gone from the queue is gone from the footprint |
| QueueSpec.PairMate | queue.c:267-281 | the element landing at a position comes from the same pair of positions, and from the position itself only for an unpaired last element |
| QueueSpec.PairMateInvolutive | queue.c:267-281 | the pairing of positions is its own inverse |
| QueueSpec.SwapPairsAt | queue.c:268-282 | position `i` of the swapped sequence holds the element at the position paired with `i` |
| QueueSpec.SwapWalkStart | queue.c:267 | the walk of `q_swap` starts with nothing done |
| QueueSpec.SwapWalkStep | queue.c:269-281 | exchanging the pair at the cursor and moving past it keeps the walk on course to `SwapPairs` |
| QueueSpec.SwapWalkDone | queue.c:268-280 | when at most one element is left, the walk has produced `SwapPairs` of the original |
| QueueSpec.SwapPairsInvolutive | queue.c:260-284 | swapping the pairs twice restores the original order |
| QueueSpec.SwapPairsExamples | queue.c:260-284 | `[a, b, c, d]` becomes `[b, a, d, c]` and `[a, b, c]` becomes `[b, a, c]` |
| QueueEngine.SwapAdjacent | queue.c:269-276 | the six link updates exchange two neighbouring elements and keep the ring valid |
| QueueEngine.SwapStep | queue.c:269-278 | one round of the loop exchanges the pair at the cursor, advances the walk towards `SwapPairs` by two, and leaves `node1` pointing at what follows the pair, the sentinel exactly when the pair was last |
| QueueEngine.QSwap | queue.c:260-284 | the elements become `SwapPairs` of the old ones, the footprint is unchanged, and the ring stays valid |
| QueueSpec.Reverse | queue.c:293-310 | position `k` of the result holds the element `k` places from the back |
| QueueSpec.ReverseInvolutive | queue.c:293-310 | reversing twice restores the original order |
| QueueSpec.DistinctReverse | queue.c:293-310 | reversal keeps the ring's nodes free of repetitions |
| QueueEngine.FlipRing | queue.c:298-309 | the `do`-`while` loop visits every node of the ring once and points each one's `next` back and its `prev` forward |
| QueueEngine.ReversedRingValid | queue.c:301-309 | links flipped at every node form a valid ring whose elements are the old ones reversed |
| QueueEngine.QReverse | queue.c:293-310 | the elements become their reverse, no node is added or removed, and the ring stays valid |
| QueueSpec.MergeSeqPermutes | queue.c:319-352 | merging loses and invents no node |
| QueueSpec.MergeSeqSorted | queue.c:319-352 | merging two ascending lists gives an ascending list |
| QueueSpec.MergeSeqWithValue | queue.c:329-337 | taking the first list's head on a tie keeps, for each string, the first list's nodes before the second's |
| QueueSpec.MergeSeqWithValueTie | queue.c:337 | when the second list's head goes first because `strcmp` ranks it strictly lower, no node of the first list holds its string |
| ListSort.MergeSeqDistinct | queue.c:319-352 | merging two lists with no node in common gives a list without repeated nodes |
| QueueSpec.MergeSeqOfOrdered | queue.c:319-352 | merging two lists whose concatenation is ascending concatenates them |
| ListSort.FirstPick | queue.c:326-331 | the pick before the loop takes the head that `strcmp` puts first, the first chain's on a tie, as the first node of `MergeSeq` and sets up the loop's state |
| ListSort.Merge | queue.c:319-352 | relinks two disjoint chains into one chain whose nodes are `MergeSeq` of the two, returning the other chain when one is NULL |
| ListSort.LinkRest | queue.c:333-350 | from the state after the first pick, the loop and the final splice leave `MergeSeq` of the two chains as one chain |
| ListSort.Pick | queue.c:334-344 | one round takes the head that `strcmp` puts first, the first chain's on a tie, links it behind the tail, and keeps the loop's state |
| ListSort.PickedStep | queue.c:337 | the head taken is the next node of the merged order, and the rest of that order merges what is left |
| ListSort.MergeStep | queue.c:337 | one pick on positions: the node taken comes next in `MergeFrom`, and the order goes on with what is left |
| ListSort.MergeFromIsMergeSeq | queue.c:333-344 | merging by positions in the two chains is `MergeSeq` of what is left of them |
| ListSort.Splice | queue.c:339-341 | linking a node behind the tail extends the linked prefix by one and leaves the rest of both chains linked |
| ListSort.LinkLeft | queue.c:346-349 | when one chain runs out, linking the other behind the tail completes the merged chain |
| ListSort.JoinChain | queue.c:346-349 | a linked prefix joined to the rest of a chain is one NULL-terminated chain |
| QueueSpec.Half | queue.c:359-368 | the cut leaves both parts non-empty, the first taking the extra node of an odd length |
| ListSort.FindMiddle | queue.c:359-363 | the slow/fast walk stops at the last node of the first half, position `Half(n) - 1` |
| ListSort.Split | queue.c:365-368 | the cut behind that node leaves two chains, the first `Half(n)` nodes and the rest |
| ListSort.HalvesApart | queue.c:365-373 | the two halves, and the two sorted halves, share no node |
| ListSort.SortAside | queue.c:370-371 | a recursive call sorts its chain, and a disjoint chain beside it is still the same chain afterwards |
| ListSort.MergeSort | queue.c:355-374 | relinks a chain into one chain whose nodes are `MergeSortSeq` of the input |
| QueueSpec.MergeSortSeqPermutes | queue.c:355-374 | the sort loses and invents no node |
| QueueSpec.MergeSortSeqSorted | queue.c:355-374 | the sort's result is ascending by `strcmp` |
| QueueSpec.MergeSortSeqStable | queue.c:355-374 | the sort is stable: the nodes holding any one string keep their relative order |
| QueueSpec.MergeSortSeqOfSorted | queue.c:355-374 | sorting an ascending sequence changes nothing |
| QueueSpec.MergeSortSeqIdempotent | queue.c:376-398 | sorting twice is sorting once |
| QueueEngine.BreakRing | queue.c:380-385 | clearing the four links opens the ring into a NULL-terminated chain of the elements |
| QueueEngine.SortedNodesFrom | queue.c:387 | the sorted sequence has the input's length and only its nodes |
| QueueEngine.LinkSentinel | queue.c:389-390 | the sentinel becomes the first node of the sorted chain |
| QueueEngine.FindLast | queue.c:392-394 | the `pptr` walk ends at the chain's last node |
| QueueEngine.LinkLast | queue.c:396-397 | linking the last node and the sentinel to each other closes a valid ring |
| QueueEngine.CloseRing | queue.c:389-397 | the sorted chain is closed into a valid ring through the original sentinel, with the same footprint |
| QueueEngine.QSort | queue.c:376-398 | the elements become `MergeSortSeq` of the old ones in a valid ring on the same sentinel, with the same footprint, so no node is added or removed |

## Left out

- `free`, `q_release_element` and the releases inside `q_delete_mid`, `q_delete_dup` and `q_free` are not modelled as deallocation. Dafny has no explicit deallocation, so a released node only leaves `elems` and `Repr`. `QFree` models the order of the releases.
- The release of the element when `strdup` fails in `q_insert_head`/`q_insert_tail` is not modelled. On failure the queue is proved unchanged.
- `container_of` pointer arithmetic is not modelled. An element and its link are one `Node` carrying the string.
- `memcpy` reads `bufsize` bytes, past the terminator of a shorter string; the model copies only the string's bytes.
- `bufsize == 0` makes lines 138 and 162 write before the buffer once an element has been removed. `QRemoveHead` and `QRemoveTail` require `1 <= bufsize <= sp.Length` only when `sp` is given and the queue has an element; for a NULL or empty queue any `bufsize` is accepted, since the C code returns before touching `sp`.
- The stale `next`/`prev` fields left in a removed node are not specified. No caller may rely on them.
- `q_size` counts in a C `int`. Counts are unbounded integers here; a queue of more than 2^31 − 1 elements is out of scope.
- `list_empty` and `list_del` come from `list.h`, which is not part of this model. They are modelled as the test `head.next == head` and as a plain unlink of a node between its neighbours.
- `harness.h` and its allocation hooks are not part of this model. Allocation outcomes are the parameters `mallocOk` and `strdupOk`.
- Calling `q_delete_dup` on unsorted input is a caller error by the comment on lines 232-233. The model still describes that case: adjacent runs are collapsed.
- Stack depth and running time of the recursion in `merge_sort` are not modelled.

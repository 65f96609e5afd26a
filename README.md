# CLinkedList in Dafny

A model of the singly linked list in `main.c`. A list is a chain of heap nodes
(`struct node`: an `int` value and a `next` pointer), and the caller holds it
through a head pointer that every operation receives as `struct node **head`.
The operations insert at the front, at the tail or at an index; delete the
head, the tail, the node at an index or the first node holding a value; search
for a value; reverse the list in place; and free the whole list. Each one
returns 0 on success and -1 on failure.

The model has three modules:

- `ListSpec` (`list_spec.dfy`) states what each C function does to the
  sequence of values the list holds. The exception is the inputs on which the
  walk never leaves the head (see "## Findings"): there `InsertAtIndexOp`,
  `DeleteAtIndexOp` and `DeleteTailOp` give the corrected result. It has one
  function per operation (`InsertAtIndexOp`, `DeleteByValueOp`, ...) that
  returns the return code and the new contents. Next to them are lemmas for the properties the
  operations promise: inverses, round trips, first-match search and
  reversal being an involution.
- `LinkedList` (`linked_list.dfy`) has the heap model:
  - `Node` is `struct node`.
  - A `List` object stands for the caller's `*head`.
  - Each C function is a method that walks and relinks the nodes the way the
    C code does, including the `prev`/`current` walk shared by
    `insert_at_index` and `delete_at_index` and the in-place relinking of
    `reverse_list`.
  - There is one exception. When the walk of `insert_at_index`,
    `delete_at_index` or `delete_tail` never leaves the head, the C code
    corrupts the list. On those inputs `InsertAtIndex`, `DeleteAtIndex` and
    `DeleteTail` take a corrected path. The C code as written is modelled
    separately by the three `...AsWritten` methods (see "## Findings").
  - Each operation method is proved to leave a valid chain: acyclic,
    null-terminated, with no repeated node. Its return code and new contents
    are exactly those that `ListSpec` gives for the operation. Its `ensures`
    also say which nodes now form the list. The `...AsWritten` methods
    promise neither: they describe the broken state the C code leaves.
- `DriverTrace` (`driver_trace.dfy`) replays the call sequence of `main` on
  the specification, step by step.

Positions follow the code. `search_by_value` reports 1-based positions, and
`delete_at_index` treats index 1 as the head. Both index walks stop at 1-based
position `max(1, min(index, n))`. Position 1 is reached by index 0 of
`delete_at_index`, by index 1 of `insert_at_index`, and by any index on a
one-node list. `insert_at_index` puts the new value in front of the
node at that position, so an index past the end places the value just before
the last node, not after it (`ListSpec.InsertAtIndexPastEnd`). The comments at
main.c:108-110 call the index 0-based, and those at main.c:127-128 and
main.c:133-135 say that a large index inserts at the tail. The model follows
the code, not those comments.

## Model

| member | source | states |
|---|---|---|
| LinkedList.Node.constructor | main.c:70-73 | a new node holds the given value and links to nothing |
| LinkedList.List.constructor | main.c:264 | a null head pointer is a valid, empty list |
| LinkedList.List.DeleteList | main.c:24-41 | returns -1 on an empty list; otherwise visits every node, leaves no node in the list, sets the head to null and returns 0 |
| LinkedList.List.SearchByValue | main.c:45-65 | on a non-empty list, returns 0 and the 1-based position of the first node holding the value, or -1 with *findex unchanged when no node holds it |
| LinkedList.List.InsertAtFront | main.c:69-85 | a fresh node holding the value becomes the head, and the old nodes follow it in order; returns 0 |
| LinkedList.List.PushNode | main.c:75-83 | a node not yet in the list becomes its head, ahead of the old nodes |
| LinkedList.List.InsertAtTail | main.c:89-106 | on an empty list behaves as insert_at_front; otherwise a fresh node holding the value follows the old nodes, which keep their order; returns 0 |
| LinkedList.List.WalkTo | main.c:118-132 | the prev/current walk stops with current at 0-based slot min(index, n) - 1 (slot 0 for index below 1) and prev on the slot before it, or on the head when current is the head |
| LinkedList.List.InsertAtIndex | main.c:111-141 | returns -1 and leaves the list alone for a negative index; index 0 is insert_at_front; otherwise a fresh node holding the value goes in at 1-based position min(index, n), every old node keeping its order, which at position 1 is the correction under "## Findings"; returns 0 |
| LinkedList.List.LinkBetween | main.c:136-137 | linking a node between prev and current puts it at current's slot and keeps the chain valid |
| LinkedList.List.DeleteHead | main.c:146-158 | returns -1 on an empty list; otherwise the second node (or null) becomes the head and the rest keep their order; returns 0 |
| LinkedList.List.DeleteTail | main.c:162-177 | returns -1 on an empty list; otherwise the last node is unlinked and the others keep their order, and a one-node list becomes empty (the correction under "## Findings"); returns 0 |
| LinkedList.List.DeleteAtIndex | main.c:181-201 | returns -1 and leaves the list alone for a negative index; index 1 is delete_head; otherwise the node at 1-based position max(1, min(index, n)) is unlinked and the others keep their order, which at position 1 is the correction under "## Findings"; returns 0 |
| LinkedList.List.DeleteByValue | main.c:205-213 | search_by_value from *findex = 0, then delete_at_index at the reported position, which unlinks exactly the first node holding the value; -1 and the same nodes when the value is absent |
| LinkedList.List.Reverse | main.c:233-257 | relinks the same nodes into reverse order, so the values come out reversed; returns 0, including for empty and one-node lists |
| LinkedList.List.InsertAtIndexHeadStopAsWritten | main.c:118-137 | as written, when the walk stays on the head, the head and the new node link to each other; only the head's next changes, so the cut-off nodes stay intact but unreachable |
| LinkedList.List.DeleteAtIndexHeadStopAsWritten | main.c:188-198 | as written, when the walk stays on the head, the head's link is cleared and that node is freed while it is still the head; only the head's next changes |
| LinkedList.List.DeleteTailSingleAsWritten | main.c:168-175 | as written, on a one-node list, the only node is freed while it is still the head; only its next is written |
| LinkedList.TwoNodeCycleNeverEnds | main.c:136-137 | a chain that follows next from a head linked to a node that links back to it never reaches null, so it is not a list |
| LinkedList.FreedHeadIsWholeChain | main.c:196-198 | a head whose next is null is the whole chain |
| LinkedList.SpliceIn | main.c:136-137 | linking a new node between two neighbours of a valid chain gives a valid chain with the node at that slot |
| LinkedList.CutOut | main.c:196-197 | linking a node's predecessor to its successor gives a valid chain without that node |
| LinkedList.RelinkedAll | main.c:242-255 | once every node links back to its predecessor, the chain from the old tail is the reversed node sequence, still valid |
| ListSpec.Find | main.c:46-64 | none exactly when the value is absent; otherwise the slot of a match with no match before it |
| ListSpec.FindFirst | main.c:48-60 | a match at slot k with none before it is what the search finds |
| ListSpec.StopSlot | main.c:126-132 | the walk stops at slot min(index, n) - 1, below n and below index, or at slot 0 for index below 1 |
| ListSpec.InsertedIndexing | main.c:136-137 | where each element sits once a value is placed at a slot |
| ListSpec.RemovedIndexing | main.c:196 | where each element sits once a slot is removed |
| ListSpec.InsertAtThenRemoveAt | main.c:136-137 | inserting at a slot puts the value there, and removing that slot gives back the original |
| ListSpec.RemoveAtThenInsertAt | main.c:196 | removing a slot keeps the prefix, drops exactly one copy of that value, and inserting it back restores the original |
| ListSpec.ReversedAt | main.c:242-253 | reversal keeps the length and sends slot i to slot n - 1 - i |
| ListSpec.ReversedAppend | main.c:242-253 | reversing a concatenation reverses and swaps its parts |
| ListSpec.ReversedInvolution | main.c:233-257 | reversing twice restores the list |
| ListSpec.ReverseSpec | main.c:233-257 | reverse_list returns 0, keeps the length, sends slot i to slot n - 1 - i, leaves lists of at most one value alone, and undoes itself |
| ListSpec.InsertAllAtFrontReverses | main.c:69-85 | inserting values one by one at the front puts them ahead of the old contents in reverse order |
| ListSpec.InsertAllAtTailKeepsOrder | main.c:89-106 | inserting values one by one at the tail appends them in order |
| ListSpec.InsertEndsRoundTrip | main.c:69-106 | both front and tail insertion return 0; tail insertion into an empty list is front insertion; delete_head undoes insert_at_front, and delete_tail undoes insert_at_tail on a non-empty list |
| ListSpec.SearchSpec | main.c:45-65 | returns 0 exactly when the value is present, -1 exactly when it is absent; reports the 1-based position of the first match, or leaves *findex alone |
| ListSpec.InsertAtIndexSpec | main.c:111-141 | -1 exactly for a negative index, which changes nothing; index 0 inserts at the front, and so does index 1 (the correction under "## Findings"); otherwise the value lands at 1-based position min(index, n) and removing it gives back the old list, which when n = 1 is the correction under "## Findings" |
| ListSpec.InsertAtIndexPastEnd | main.c:126-137 | an index at or past the length puts the value just before the last one, which matches insert_at_tail only when the value equals the last one; on a one-node list this is the front, the correction under "## Findings" |
| ListSpec.DeleteEndsSpec | main.c:146-177 | on an empty list both deletions return -1 and change nothing; otherwise they return 0, and re-inserting the removed value at that end restores the list; for delete_tail on one node this is the correction under "## Findings" |
| ListSpec.DeleteAtIndexSpec | main.c:181-201 | -1 and no change for a negative index; index 1 deletes the head, and so does index 0 (the correction under "## Findings"); otherwise the value at 1-based position min(index, n) is removed and inserting it back restores the list; an index at or past the length deletes the tail, which on a one-node list is the correction under "## Findings" |
| ListSpec.InsertThenDeleteAtIndex | main.c:111-201 | inserting at an index inside the list, then deleting at the same index, restores the list; at index 1 this is the correction under "## Findings" |
| ListSpec.InsertThenDeletePastEnd | main.c:111-201 | past the end the two walks disagree: the inserted value stays and the old last value is deleted; on a one-node list this is the correction under "## Findings" |
| ListSpec.DeleteByValueSpec | main.c:205-213 | -1 and no change when the value is absent; otherwise returns 0 and removes exactly the first occurrence, keeping the values before it and one fewer copy of the value |
| DriverTrace.DriverBuildsList | main.c:268-273 | three front insertions and three tail insertions give 1..6 |
| DriverTrace.DriverReversesTwice | main.c:279-285 | reversing gives 6..1, and reversing again gives 1..6 |
| DriverTrace.DriverInsertsByIndex | main.c:291-295 | 666 at index 4 gives 1,2,3,666,4,5,6; then 888 at index 7 goes in just before the last value |
| DriverTrace.DriverSearchFinds666 | main.c:305 | the search for 666 reports position 4 |
| DriverTrace.DriverDeletesByValue | main.c:311 | delete_by_value(666) gives 1,2,3,4,5,888,6 |
| DriverTrace.DriverSearchFinds2And3 | main.c:316-321 | the searches for 2 and 3 report positions 2 and 3 |
| DriverTrace.DriverSearchMisses | main.c:328 | the search for 777 returns -1 and *findex keeps 3 |
| DriverTrace.DriverDeletes | main.c:337-371 | the head, tail and index deletions shrink the list to 888, and delete_list then empties it |
| DriverTrace.RunMain | main.c:262-371 | each call of main applied to the list the previous call left, with *findex carried between searches: the searches report 4, 2, 3 and then -1 with *findex at 3, and the list passes through the states printed by main until it is empty |

## Left out

- print_list and every `printf`/`fputs` diagnostic: these are output only, and no operation's result depends on them.
- main as a program: its calls are chained on the specification in `DriverTrace.RunMain`. No client method chains the heap methods together.
- malloc failure: the `assert(newnode != NULL)` aborts, and the model allocates with `new`, which cannot fail.
- free: Dafny has no deallocation, so a freed node is only unlinked from `nodes`. Use of freed memory cannot be expressed.
- insert_at_tail's leaked node: on an empty list the C code allocates a node and then calls insert_at_front, which allocates another. The model allocates both, and nothing links the first one.
- Integer width: values are unbounded `int`s. The C `int` counters `index` and `i` could overflow only on a list of more than 2^31 nodes, which is not modelled.
- `*findex` is an out-parameter. `SearchByValue` takes its prior value as the input `prior` and returns the new value.
- LinkedList.List.SearchByValue: requires a non-empty list, because the C code reads `current->next` with `current == NULL` on an empty one.
- LinkedList.List.DeleteByValue: requires a non-empty list, for the same reason (it calls search_by_value).
- LinkedList.List.InsertAtIndex: requires a non-empty list when index >= 1, because the walk reads `current->next` through a null head.
- LinkedList.List.DeleteAtIndex: requires a non-empty list when the index is 0 or above 1, for the same reason.

## Findings

| source | as written | input that shows it | evidently intended | confidence | as-written member | corrected member |
|---|---|---|---|---|---|---|
| main.c:118-137 | when the walk never leaves the head (index 1, or any index >= 1 on a one-node list), prev and current are the same node, so the head and the new node link to each other and the rest of the list is lost | insert_at_index(head, 9, 1) on the list 1,2 | the new value becomes the first one: 9,1,2 | high; not executed | LinkedList.List.InsertAtIndexHeadStopAsWritten, LinkedList.TwoNodeCycleNeverEnds | LinkedList.List.InsertAtIndex, ListSpec.InsertAtIndexOp, ListSpec.InsertAtIndexSpec, ListSpec.InsertAtIndexPastEnd |
| main.c:188-198 | when the walk never leaves the head (index 0, or any index >= 2 on a one-node list), the head is cut off from the rest and freed, but *head is never updated and still points at the freed node | delete_at_index(head, 0) on the list 1,2,3 | the head is removed and *head moves on: 2,3 | medium (the intended meaning of index 0 is unclear); not executed | LinkedList.List.DeleteAtIndexHeadStopAsWritten, LinkedList.FreedHeadIsWholeChain | LinkedList.List.DeleteAtIndex, ListSpec.DeleteAtIndexOp, ListSpec.DeleteAtIndexSpec |
| main.c:168-175 | on a one-node list, prev and current are both the head, so the only node is freed while *head still points at it | delete_tail(head) on the list 7 | the list becomes empty and *head becomes NULL | high; not executed | LinkedList.List.DeleteTailSingleAsWritten, LinkedList.FreedHeadIsWholeChain | LinkedList.List.DeleteTail, ListSpec.DeleteTailOp, ListSpec.DeleteEndsSpec |

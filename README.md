# Doubly linked list

A model of the doubly linked list of `double_linked_list.py`: nodes that carry a value, an
owning forward link and a non-owning back link, and a container that keeps `head`, `tail` and
a size, and offers indexed read and write, `append`, positional `insert` and `delete`, a
node lookup that scans from the nearer end, and value search from the left or from the right.

The project has three modules:

- `Outcomes` (`outcomes.dfy`): the exception classes the list raises (`TypeError`,
  `IndexError`, `ValueError`, `AttributeError`), the `Result`/`Outcome` values that stand
  for "returned" or "raised", and `IndexArg`, an index argument that is an integer or a value
  of some other type.
- `ListSpec` (`list_spec.dfy`): what each operation does to the sequence of values, as pure
  functions on `seq<T>`, with the lemmas that state the behaviour of the code.
- `DoubleLinked` (`double_linked_list.dfy`): the classes `DoubleNode` and `DoubleLinkedList`,
  whose methods update the node links in place. Each list operation is proved against its
  `ListSpec` function: `GetItem` against `Get`, `SetItem` against `Set`, `Append`, `Insert`
  and `Delete` against the functions of those names, and `Index` against `IndexOf`. The node
  lookup `SearchFromStartOrEnd` is proved against the ghost sequence of nodes; its body
  answers index 0 and index len - 1 from `head` and `tail`, scans forward from `head` for
  an index up to len // 2, and backward over the back links beyond. The object invariant
  `Valid()` ties the chain to a ghost sequence of nodes and a ghost sequence of values:
  `size` counts the chain, `head` and `tail` are its ends, forward and back links agree,
  the first node has no back link and the last no forward link. That no node occurs twice is proved from it (`DistinctPositions`).

The model follows the code as written, including where it departs from the conventional
meaning of an index:

- `insert(v, i)` with `0 < i < len` splices `v` in after the node at `i`, so `v` lands at
  position `i + 1`. For `i == len - 1` (and `len >= 2`) that node is the tail, and the
  assignment at line 90 reaches through its absent successor: the call raises
  `AttributeError` before the list changes.
- `delete(i)` with `0 < i < len - 1` removes the node after the one at `i`. For
  `i == len - 2` (and `len >= 3`) the line 119 assignment has already cleared the forward
  link of the node at `i` when line 120 raises `AttributeError`. The list is left with a
  chain one node shorter than its size and a stale `tail`, which is no longer `Valid()`.
- The "nothing to delete" branch at lines 104-105 can never run. The range check at line
  100 rejects every index of an empty list first, with the same exception class.
- `index(x, "right")` walks back over the back links. When no node matches on a non-empty
  list, the walk reads the back link of the first node. That link is absent and reading it
  calls a missing reference, so the search raises `TypeError` rather than the
  "no such data" `IndexError`. On an empty list it raises `IndexError`.

## Model

| member | source | states |
|---|---|---|
| DoubleLinked.DoubleNode.constructor | double_linked_list.py:7-11 | a new node holds the given value, forward link and back link |
| DoubleLinked.DoubleNode.PrevNode | double_linked_list.py:13-15 | reading the back link yields the linked node, and raises TypeError exactly when no back link is stored |
| DoubleLinked.DoubleNode.SetPrev | double_linked_list.py:17-24 | writing the back link stores the given node, or clears the link when given none; the value and forward link are untouched, and a later read yields that node or raises TypeError |
| DoubleLinked.DoubleLinkedList.constructor | double_linked_list.py:27-30 | a new list is valid and empty, with no head and no tail |
| DoubleLinked.DoubleLinkedList.Length | double_linked_list.py:55 | the length, read by every range check, is the number of values held, and is 0 exactly when there is no head |
| DoubleLinked.DoubleLinkedList.SearchFromStartOrEnd | double_linked_list.py:124-151 | the node at an index in [0, len) is found, on the head and tail shortcuts and on either scan branch; any other index raises IndexError |
| DoubleLinked.DoubleLinkedList.GetItem | double_linked_list.py:32-40 | `list[i]` is the value at position i; a non-integer raises TypeError and an index outside [0, len) raises IndexError |
| DoubleLinked.DoubleLinkedList.SetItem | double_linked_list.py:42-50 | `list[i] = v` replaces the value at position i only; the nodes, head and tail stay; a bad index raises TypeError or IndexError and changes nothing |
| DoubleLinked.DoubleLinkedList.Append | double_linked_list.py:52-62 | append adds v as the last value in a fresh tail node; the head changes only when the list was empty, and the list stays valid |
| DoubleLinked.DoubleLinkedList.Insert | double_linked_list.py:64-93 | insert succeeds or raises exactly as `ListSpec.Insert` says; on success the values are the spec's and a fresh node sits at `InsertedAt` with the old nodes around it in order; on failure nothing changes |
| DoubleLinked.DoubleLinkedList.LinkAsHead | double_linked_list.py:73-79 | insert at index 0 makes the new node the head (and the tail of an empty list), in front of the old nodes |
| DoubleLinked.DoubleLinkedList.LinkAsTail | double_linked_list.py:81-84 | insert at index len puts the new node after the old tail and makes it the tail |
| DoubleLinked.DoubleLinkedList.InsertAfterNodeAt | double_linked_list.py:86-91 | insert in the middle splices the new node in after the node at i; when that node is the tail it raises AttributeError with the list unchanged |
| DoubleLinked.DoubleLinkedList.LinkAfter | double_linked_list.py:90-91 | relinking the anchor and its successor around the new node keeps the list valid and puts the node at position i + 1 |
| DoubleLinked.DoubleLinkedList.Delete | double_linked_list.py:95-122 | delete succeeds or raises exactly as `ListSpec.Delete` says; on success the node at `RemovedAt` is gone and the rest stay in order; a bad index changes nothing; at index len - 2 the list is left broken, with its size and tail stale, and only the anchor's forward link changed: the values and every node's value and back link stay |
| DoubleLinked.DoubleLinkedList.UnlinkHead | double_linked_list.py:103-111 | delete at index 0 drops the first node; a one-node list becomes empty, otherwise the next node is the head with no back link |
| DoubleLinked.DoubleLinkedList.UnlinkTail | double_linked_list.py:113-115 | delete at index len - 1 drops the last node; its predecessor becomes the tail |
| DoubleLinked.DoubleLinkedList.UnlinkAfter | double_linked_list.py:117-120 | delete in the middle drops the node after the node at i; when that node is the tail the anchor has lost its forward link, every other node is untouched, and the list is no longer valid |
| DoubleLinked.DoubleLinkedList.Index | double_linked_list.py:153-169 | the search returns the first position of x from the left or the last from the right, IndexError when x is absent, TypeError from the right on a non-empty list without x, and ValueError for any other direction |
| DoubleLinked.ThreeAppendsScenario | double_linked_list.py:52-62 | three appends to an empty list give a valid list holding a, b, c |
| DoubleLinked.SearchScenario | double_linked_list.py:153-169 | on a, b, c both directions find b at 1, and a right search for a missing value raises TypeError |
| DoubleLinked.MiddleEditsScenario | double_linked_list.py:86-120 | on a, b, c, `insert(x, 1)` and then `delete(1)` succeed, and a second `delete(1)` raises AttributeError and breaks the list |
| ListSpec.Get | double_linked_list.py:32-40 | a read succeeds exactly for an integer index in [0, len) and yields the value there; otherwise it raises TypeError for a non-integer and IndexError for an integer out of range |
| ListSpec.Set | double_linked_list.py:42-50 | a write succeeds exactly for an integer index in [0, len), giving a list of the same length with v at that index and every other value kept; otherwise TypeError or IndexError as for a read |
| ListSpec.Append | double_linked_list.py:52-62 | append gives the old values followed by v, one longer |
| ListSpec.Insert | double_linked_list.py:64-93 | insert raises TypeError for a non-integer and IndexError outside [0, len], so index len is accepted; a successful insert is one longer and holds v at `InsertedAt` |
| ListSpec.Delete | double_linked_list.py:95-122 | delete raises TypeError for a non-integer and IndexError outside [0, len); a successful delete is one shorter |
| ListSpec.IndexOf | double_linked_list.py:153-169 | a search succeeds exactly when the direction is "left" or "right" and x is held, and then returns a position holding x; it raises TypeError exactly for a right search of a non-empty list without x |
| ListSpec.FirstIndex | double_linked_list.py:155-159 | the left search result holds x and no earlier position does |
| ListSpec.LastIndex | double_linked_list.py:161-167 | the right search result holds x and no later position does |
| ListSpec.RejectedIndices | double_linked_list.py:32-101 | every operation raises TypeError for a non-integer index; read, write and delete raise IndexError outside [0, len), and insert outside [0, len] |
| ListSpec.DeleteFromEmpty | double_linked_list.py:100-105 | deleting from an empty list raises IndexError at the range check, whatever the index |
| ListSpec.SetThenGet | double_linked_list.py:32-50 | after `list[k] = v`, `list[k]` is v, the length is unchanged, and every other position reads as before |
| ListSpec.AppendAddsLast | double_linked_list.py:52-62 | append grows the list by one, puts v at position len, and keeps the old values before it |
| ListSpec.InsertAtFront | double_linked_list.py:73-79 | `insert(v, 0)` makes v the first value, followed by the old values |
| ListSpec.InsertAtLengthIsAppend | double_linked_list.py:81-84 | `insert(v, len)` is `append(v)`, on an empty list too |
| ListSpec.InsertInMiddleLandsAfter | double_linked_list.py:86-91 | for 1 <= i <= len - 2, `insert(v, i)` puts v at position i + 1, with the old values before and after it |
| ListSpec.InsertBeforeLastFails | double_linked_list.py:88-90 | `insert(v, len - 1)` on two or more values raises AttributeError |
| ListSpec.InsertShape | double_linked_list.py:64-93 | insert succeeds exactly for index 0, index len and 1..len-2, and then the result is the old values with v at `InsertedAt` |
| ListSpec.InsertKeepsElements | double_linked_list.py:64-93 | a successful insert keeps every old value and adds v once |
| ListSpec.DeleteAtFront | double_linked_list.py:103-111 | `delete(0)` drops the first value, leaving a one-value list empty |
| ListSpec.DeleteAtEnd | double_linked_list.py:113-115 | `delete(len - 1)` drops the last value |
| ListSpec.DeleteInMiddleRemovesNext | double_linked_list.py:117-120 | for 1 <= i <= len - 3, `delete(i)` removes the value at i + 1 and keeps the rest in order |
| ListSpec.DeleteBeforeLastFails | double_linked_list.py:118-120 | `delete(len - 2)` on three or more values raises AttributeError |
| ListSpec.DeleteSucceeds | double_linked_list.py:95-122 | delete succeeds exactly for index 0, index len - 1 and 1..len-3 |
| ListSpec.DeleteShape | double_linked_list.py:95-122 | a successful delete removes the one value at `RemovedAt`, keeps the others in order, and loses no other value |
| ListSpec.DeleteUndoesInsert | double_linked_list.py:64-122 | deleting at the index of a successful insert gives back the original values |
| ListSpec.SearchDirectionsAgreeOnUnique | double_linked_list.py:153-167 | for a value held once, the left and right searches both succeed and return the same position |
| ListSpec.SearchMisses | double_linked_list.py:153-169 | a search for an absent value raises IndexError from the left, IndexError or TypeError from the right as the list is empty or not, and ValueError for any other direction |

## Left out

- `linked_list.py`, the base class with `Node`, `head`, `_size`, `len` and the forward node iterator, is not part of this model. The model gives it the meaning its uses here need: `head` is the first node, the size counts the nodes, and the forward iterator follows the forward links.
- `drivers.py` is not part of this model: it reads and writes files and the terminal.
- DoubleNode.SetPrev: the `ValueError` for a value that is not a node (line 19-20) cannot arise, because the argument is typed as a node or none.
- The back link is a weak reference in the source. The model keeps it as a plain reference and does not model garbage collection or a reference whose target has been freed.
- The forward and backward node iterators are generators in the source. The model walks the same links in `while` loops inside the methods that consume them.
- The type check at lines 125-126 of the node lookup is not modelled. The model's lookup takes an integer, and every caller has already checked the index. The range check at lines 128-129 is modelled.
- `insert`'s default index of 0 (line 64) is not modelled; callers always pass the index.
- `index`'s default direction "left" (line 153) is not modelled; callers always pass the direction.
- The defaults `next_node=None, prev_node=None` of the node constructor (line 8) are not modelled; callers always pass both links.
- Index arguments that are Python booleans count as integers in the source. The model folds them into `Int`.
- Value equality uses Dafny's `==`. A user-defined `__eq__` is not modelled.
- A search direction that is not a string is treated like any other string that is neither "left" nor "right": both raise `ValueError`.
- Operations on a list left broken by a failed `delete(len - 2)` are not modelled. Every method requires `Valid()`, and the broken state is described only by `BrokenAt`.
- The size increment of `insert` and the size decrement of `delete` (lines 93 and 122) happen inside the helper for each branch, not once at the end. The resulting state is the same.

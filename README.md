# Singly-linked list, modelled and verified in Dafny

This project models `LinkedListFile.py`, a generic singly-linked list. It has
two classes:

- `LL_Node` holds a value and a reference to the next node.
- `LinkedList` holds a reference to the first node (`start`). It offers
  appending, prepending, length, membership, search, positional lookup, reads,
  splice inserts, removal by position and by value, and conversion to a
  Python list.

The model keeps the source's imperative form.

- `Node<T>` and `LinkedList<T>` are Dafny classes with the same fields. Every
  operation is a method that walks the nodes with `while` loops and relinks
  `next` fields in place, as the Python code does.
- The list carries two ghost fields: `nodes`, the nodes reached from `start`
  in order, and `contents`, the values they hold. `Valid()` states that
  `nodes` is an acyclic, null-terminated chain from `start` whose values are
  `contents`.
- Every method keeps `Valid()`. Its `ensures` says what it does to `contents`,
  which is what `toList()` returns.
- Every mutator may change the list and the nodes of its chain, and promises
  that its chain afterwards holds only those nodes and freshly allocated ones.
  Calls can therefore follow one another on the same list; module `Scenarios`
  runs a few such sequences on concrete values.
- Every exception the Python code raises becomes an `ok == false` (or `Err`)
  outcome. That outcome leaves `contents` unchanged, because in the source
  each crash happens before any link is rewritten. Exception classes are not
  distinguished.

`list_spec.dfy` (module `ListSpec`) holds the sequence functions the methods
are specified against, and the lemmas about them:

- `IndexOf`, the lowest index of a value.
- `RemoveFirst`.
- `Filter`, which removes every occurrence of a value.
- `RemoveAllAsWritten`, what `remove(v, False)` actually leaves.

`linked_list.dfy` (module `LinkedLists`) holds the classes.

Where a doc comment and the code disagree, the model follows the code:

- `insert_value_at_index` (lines 217-230) is documented to append when the
  index is past the end. On a non-empty list with `index > len` it assigns
  `.next` on `None` (line 230), so the model fails there. On an empty list every index
  inserts.
- `add_all_to_end([])` on an empty list reads `items[0]` and fails.
- `remove_first_item` fails on a one-element list.
- `remove_last_item` fails on a one-element list: `p1` is still `None` at
  line 321.
- `item_at_end` returns `None` (`Option.None`) on an empty list.
- `insert_all_at_index` fails on an empty list, and fails when `in_list` is
  empty (`in_list[0]`).
- `remove(v, False)` does not remove every occurrence when the first two
  elements both equal `v`; see "Findings".

## Model

| member | source | states |
|---|---|---|
| LinkedLists.Node.constructor | LinkedListFile.py:6-8 | the new node holds the given value and successor |
| LinkedLists.Node.HasNext | LinkedListFile.py:10-11 | true exactly when the node has a successor |
| LinkedLists.Node.GetNext | LinkedListFile.py:13-14 | the node's successor |
| LinkedLists.Node.GetValue | LinkedListFile.py:16-17 | the node's value |
| LinkedLists.Node.SetValue | LinkedListFile.py:19-20 | the value becomes the argument; the link is untouched |
| LinkedLists.Node.SetNext | LinkedListFile.py:22-23 | the successor becomes the argument; the value is untouched |
| LinkedLists.LinkedList.constructor | LinkedListFile.py:26-27 | a new list is a valid chain holding nothing |
| LinkedLists.LinkedList.IsEmpty | LinkedListFile.py:29-30 | true exactly when the list holds no element |
| LinkedLists.LinkedList.AddToEnd | LinkedListFile.py:32-45 | the list afterwards holds its old elements followed by `item`, still as an acyclic chain |
| LinkedLists.LinkedList.LastNode | LinkedListFile.py:42-44 | the walk from `start` stops on the last node of the chain |
| LinkedLists.LinkedList.LinkAtEnd | LinkedListFile.py:45 | linking a new node after the last one appends its value and leaves any detached chain intact |
| LinkedLists.LinkedList.AddToStart | LinkedListFile.py:47-57 | the list afterwards is `item` followed by its old elements |
| LinkedLists.LinkedList.AddAllToEnd | LinkedListFile.py:60-81 | succeeds unless both the list and `items` are empty; then the list is its old elements followed by `items` in order, otherwise unchanged |
| LinkedLists.LinkedList.Length | LinkedListFile.py:84-98 | the count is the number of elements |
| LinkedLists.LinkedList.Contains | LinkedListFile.py:102-119 | true exactly when some element equals `item` |
| LinkedLists.LinkedList.Index | LinkedListFile.py:121-139 | succeeds exactly when `item` occurs, with an index that holds `item` and before which it does not occur; fails otherwise, including on an empty list |
| LinkedLists.LinkedList.PointersForIndex | LinkedListFile.py:141-163 | index 0 gives the head and no predecessor; an index inside the list gives that node and the one before; the index one past the end gives no node and the last node; any larger index gives neither |
| LinkedLists.LinkedList.ItemAtIndex | LinkedListFile.py:165-176 | the element at `index` when it exists, a failure otherwise |
| LinkedLists.LinkedList.ItemAtStart | LinkedListFile.py:178-184 | the first element, a failure on an empty list |
| LinkedLists.LinkedList.ItemAtEnd | LinkedListFile.py:186-198 | the last element, `None` on an empty list |
| LinkedLists.LinkedList.InsertValueAtStart | LinkedListFile.py:204-214 | the list afterwards is `value` followed by its old elements, with one fresh node at the front |
| LinkedLists.LinkedList.InsertValueAtIndex | LinkedListFile.py:217-230 | succeeds exactly when the index is at most the length or the list is empty; then `value` sits at `index` with the old elements around it in order (alone on an empty list); otherwise the list is unchanged |
| LinkedLists.LinkedList.LinkAfter | LinkedListFile.py:230 | a new node linked in after position `i - 1` puts `value` at position `i` and shifts the rest |
| LinkedLists.LinkedList.InsertAllAtIndex | LinkedListFile.py:232-255 | succeeds exactly when the list is non-empty, the index is at most its length and `in_list` is non-empty; then the items sit at `index`, in order, between the old prefix and suffix; otherwise the list is unchanged |
| LinkedLists.LinkedList.SpliceFirst | LinkedListFile.py:241-248 | the first new node goes in at `index` and ends the list; the old nodes from `index` on stay a chain holding the old suffix |
| LinkedLists.LinkedList.CutAfter | LinkedListFile.py:247-248 | linking a new node after position `k - 1` keeps the first `k` elements, adds the new one, and leaves the old rest as a detached chain |
| LinkedLists.LinkedList.LinkChainAtEnd | LinkedListFile.py:253 | linking the detached chain back after the last node appends its values |
| LinkedLists.LinkedList.RemoveFirstItem | LinkedListFile.py:260-272 | succeeds exactly when there are at least two elements, and then drops the first; otherwise the list is unchanged |
| LinkedLists.LinkedList.RemoveItemAtIndex | LinkedListFile.py:275-298 | succeeds exactly when `i` is 0 with at least two elements, or `1 <= i < len`; then the element at `i` is gone and the rest keep their order; otherwise the list is unchanged |
| LinkedLists.LinkedList.UnlinkAfter | LinkedListFile.py:296 | relinking `prev` past its successor removes that element when both are in the list, and leaves the list alone when `prev` is detached |
| LinkedLists.LinkedList.RemoveLastItem | LinkedListFile.py:306-321 | succeeds exactly when there are at least two elements, and then drops the last; otherwise the list is unchanged |
| LinkedLists.LinkedList.Remove | LinkedListFile.py:329-352 | fails exactly on an empty list, changing nothing; with `firstOnly` it removes the lowest-index occurrence of `val` (nothing when absent); without it the list becomes `RemoveAllAsWritten` of the old elements |
| LinkedLists.LinkedList.WalkFrom | LinkedListFile.py:344-352 | the scan loop of `remove` ends with the first occurrence removed, or with what `RemoveAllAsWritten` keeps |
| LinkedLists.LinkedList.WalkStep | LinkedListFile.py:345-352 | one scan step either stops after removing the first match or advances the walk one node, keeping its invariant |
| LinkedLists.LinkedList.SkipMatch | LinkedListFile.py:346-350 | unlinking a match removes it from the list when the walk is on a listed node, and leaves the list as it is when it is on the detached head |
| LinkedLists.LinkedList.KeepMismatch | LinkedListFile.py:351-352 | a non-matching node is kept and becomes the new back pointer |
| LinkedLists.LinkedList.WalkStart | LinkedListFile.py:338-343 | after the head check the walk starts on the old head, detached exactly when it matched |
| LinkedLists.LinkedList.DropHead | LinkedListFile.py:341 | moving `start` to its successor drops the first element |
| LinkedLists.LinkedList.RemoveAll | LinkedListFile.py:329-352 | corrected remove-all: fails exactly on an empty list; otherwise the list becomes its old elements without any occurrence of `val`, in order |
| LinkedLists.LinkedList.ToList | LinkedListFile.py:360-370 | the result is the list's elements in order |
| LinkedLists.InsertRemoveRoundTrip | LinkedListFile.py:217-298 | for every index `i`, inserting at `i` and then removing at `i` restores a non-empty list (past the end both steps fail); an empty list keeps the inserted value, because a one-element list cannot lose its element |
| ListSpec.IndexOf | LinkedListFile.py:121-139 | the lowest index at which the value occurs |
| ListSpec.RemoveFirst | LinkedListFile.py:340-349 | removing the first occurrence changes nothing when the value is absent, and otherwise shortens the sequence by exactly one |
| ListSpec.RemoveAllAsWritten | LinkedListFile.py:340-352 | the as-written remove-all walk never lengthens the sequence |
| ListSpec.RemoveAllOnlyDropsMatches | LinkedListFile.py:340-352 | the as-written walk drops only copies of `val`: every other element stays exactly as often as before |
| ListSpec.RemoveFirstCount | LinkedListFile.py:340-349 | removing the first occurrence takes exactly one copy of the value out and keeps every other element, and changes nothing when the value is absent |
| ListSpec.RemoveFirstAt | LinkedListFile.py:346-349 | when the first occurrence is at `k`, removing it splices out position `k` |
| ListSpec.Filter | LinkedListFile.py:331 | the filtered sequence never holds the value and is no longer than the input |
| ListSpec.FilterCount | LinkedListFile.py:331 | filtering keeps every other element exactly as often as before and drops every copy of the value |
| ListSpec.FilterCons | LinkedListFile.py:340-341 | filtering from the front drops a matching head and filters the rest |
| ListSpec.RemoveAllHeadDiffers | LinkedListFile.py:340-352 | when the head does not match, the as-written walk removes every occurrence |
| ListSpec.RemoveAllLeadingRun | LinkedListFile.py:340-350 | when the head and everything after it match, the walk removes only the head |
| ListSpec.RemoveAllAfterRun | LinkedListFile.py:340-352 | after a matching head, the walk keeps the run of matches behind it and filters everything from the first mismatch on |
| ListSpec.RemoveAllStep | LinkedListFile.py:344-352 | one more step of the walk keeps the next element when it differs from `val`, or while everything from the head to it matches |
| ListSpec.RemoveAllLeavesMatch | LinkedListFile.py:340-350 | the walk leaves an occurrence behind exactly when the first two elements both match |
| ListSpec.RemoveAllKeepsSecondMatch | LinkedListFile.py:340-350 | on `[1, 1, 2]` the walk keeps `[1, 2]` where removing every `1` gives `[2]` |
| Scenarios.AppendOneByOne | LinkedListFile.py:32-45 | appending 3, 1, 4, 1, 5 one call at a time to a new list lists them in that order |
| Scenarios.SearchThenRemove | LinkedListFile.py:121-352 | on 3, 1, 4, 1, 5 the first 1 is found at index 1; removing the first 1 leaves 3, 4, 1, 5, and removing all 1s after that leaves 3, 4, 5 |
| Scenarios.RemoveOnes | LinkedListFile.py:329-352 | on a list holding 3, 1, 4, 1, 5, `remove(1, True)` leaves 3, 4, 1, 5 and a following `remove(1)` leaves 3, 4, 5 |
| Scenarios.FirstOneAtOne | LinkedListFile.py:121-139 | any index `index` may return for 1 in 3, 1, 4, 1, 5 is 1 |
| Scenarios.RemoveFirstOne | LinkedListFile.py:340-349 | removing the first 1 from 3, 1, 4, 1, 5 gives 3, 4, 1, 5 |
| Scenarios.RemoveEveryOne | LinkedListFile.py:340-352 | the as-written walk removes the one 1 from 3, 4, 1, 5, whose head does not match |
| Scenarios.SpliceIntoMiddle | LinkedListFile.py:232-255 | splicing 98, 99 in at index 1 of 10, 20, 30 gives 10, 98, 99, 20, 30 |
| Scenarios.RemoveLastRepeatedly | LinkedListFile.py:306-321 | removing the last element of 10, 20, 30 twice leaves 10, and a third removal fails and leaves 10 |
| Scenarios.EmptyThenAppend | LinkedListFile.py:178-184 | a new list is empty and has no first element; after appending 7 it lists 7 |

## Left out

- Exception classes: `IndexError`, `RuntimeError` and the `AttributeError` of a `None` dereference all become one failure outcome that leaves the list unchanged.
- LinkedLists.LinkedList.PointersForIndex: the index is a `nat`. A negative index makes the loop not run and returns the head; that case is not modelled.
- LinkedLists.LinkedList.ItemAtIndex: the index is a `nat`, so the negative indices that read the head are not modelled. The source calls `pointers_for_index` twice; the call has no side effects, so the model calls it once.
- LinkedLists.LinkedList.InsertValueAtIndex: the index is a `nat`, so negative indices, which insert at the front, are not modelled.
- LinkedLists.LinkedList.InsertAllAtIndex: the index is a `nat`, so negative indices are not modelled.
- Equality: Python's `__eq__` on values is modelled as Dafny's `==` on `T(==)`. The identity comparison of nodes (`p == self.start`, `is None`) is reference equality.
- `remove`'s default `first_only=False` (line 329): Dafny has no default arguments, so every call to `Remove` passes `firstOnly` explicitly; `remove(v)` is `Remove(v, false)`.
- `LL_Node`'s default arguments (`value=None`, `next=None`): every construction passes the value and the successor explicitly.
- Aliasing between lists: each list owns its chain. Two lists sharing nodes are not modelled.
- Detached nodes: the model does not track reclamation of unlinked nodes.
- The `sys` and `typing` imports and the O(n) remarks in the doc comments: these are not behaviour.

## Findings

| source | as written | input that shows it | evidently intended | confidence | as-written member | corrected member |
|---|---|---|---|---|---|---|
| LinkedListFile.py:340-350 | `remove(v, False)` with a matching head moves `start` on, but keeps walking from the detached head through `p1`. The matches directly behind the head are then unlinked from the detached node only, and they stay in the list. | `[1, 1, 2]`, `remove(1)` leaves `[1, 2]` | every occurrence removed: `[2]` | not executed | LinkedLists.LinkedList.Remove, ListSpec.RemoveAllKeepsSecondMatch, ListSpec.RemoveAllLeavesMatch | LinkedLists.LinkedList.RemoveAll |

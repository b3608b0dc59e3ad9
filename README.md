# PriorityHeap in Dafny

A verified model of `PriorityHeap.py`. The file has four parts:

- `Node` is a key/value pair. Nodes are ordered by key, and ties are broken by value.
- `PriorityQueue` is a binary min-heap of nodes, stored in the list `data`.
- `MaxHeap` is a max-heap of integers. It stores each `k` as `Node(-k, k)` inside a `PriorityQueue`.
- `heap_sort` and `find_ranking` use the two heaps.

The files are:

- `wrappers.dfy`: `Option`, which stands for the source's `None` results.
- `nodes.dfy`: the node order, and proof that it is a strict total order.
- `heaps.dfy`: the pure part of the queue.
  - The index helpers `prepare_index`, the child and parent indices, and `get_min_child_index`.
  - The heap property.
  - `SiftUp` and `SiftDown`, which are `percolate_up` and `percolate_down` written as functions over the list's contents, with proofs that they restore the heap property.
- `priority_queue.dfy`: the class `PriorityQueue`.
  - The field `data: seq<Node>` is updated in place by `Swap`, `Push` and `Pop`.
  - `PercolateUp` and `PercolateDown` are loops, proved equal to `SiftUp` and `SiftDown`.
  - The object invariant `Valid()` is the heap property.
- `max_heap.dfy`: the class `MaxHeap`.
  - It has a ghost multiset `Contents` of the integers it holds.
  - Its invariant says that the inner queue holds exactly `Node(-v, v)` for each `v` in `Contents`, as often as `v` occurs.
- `sorting.dfy`: sortedness, and a reference insertion sort `Sort`.
  - It proves that a multiset of nodes has only one sorted arrangement.
  - That result gives `find_ranking` a specification that does not depend on the heap.
- `drivers.dfy`: `HeapSort` and `FindRanking`, with each of their loops as its own method.

Keys are `int`. Values are `Value = Int(i) | Str(s)`: integers for `MaxHeap`, and team names for `find_ranking`. Strings compare by code point, and a proper prefix comes first, as Python's `<` on `str` does.

How indices are handled:

- Negative indices count from the end, as `prepare_index` does (PriorityHeap.py:134-135). Anything still outside the list after that is rejected.
- The parent of index 0, and of any rejected index, is None, because `get_parent_index` tests `not index` (PriorityHeap.py:172).
- `_swap(0, -1)` in `pop` is modelled as a swap with the last index, `Len() - 1` (PriorityHeap.py:207).

## Model

| member | source | states |
|---|---|---|
| Nodes.StrLess | PriorityHeap.py:25 | string comparison by code point: a proper prefix comes first, and no string is less than an equal one |
| Nodes.ValueLess | PriorityHeap.py:25 | the value tie-break never holds between equal values |
| Nodes.Less | PriorityHeap.py:19-25 | `__lt__`: a smaller key always decides, and a less node is a different node whose key is no larger |
| Nodes.Greater | PriorityHeap.py:27-33 | `__gt__`: a larger key always decides, and a greater node is a different node whose key is no smaller |
| Nodes.Equal | PriorityHeap.py:35-41 | `__eq__`, field by field, is exactly equality of the nodes |
| Nodes.LessStrictTotal | PriorityHeap.py:19-25 | `__lt__` is irreflexive and transitive, and any two distinct nodes are comparable |
| Nodes.ValueLessStrictTotal | PriorityHeap.py:25 | the value tie-break (integers, or strings by code point) is itself a strict total order |
| Nodes.StrLessIrreflexive | PriorityHeap.py:25 | no string is less than itself |
| Nodes.StrLessTransitive | PriorityHeap.py:25 | string comparison is transitive |
| Nodes.StrLessTotal | PriorityHeap.py:25 | any two distinct strings are comparable |
| Nodes.GreaterIsConverse | PriorityHeap.py:27-33 | `__gt__`, written field by field, holds exactly when `__lt__` holds with the arguments swapped |
| Nodes.EqualIffIncomparable | PriorityHeap.py:35-41 | `__eq__` holds exactly when neither node is less than the other |
| Nodes.NotGreaterIsLessEq | PriorityHeap.py:229-257 | the sifts' stopping test `not a > b` is exactly `a <= b` |
| Nodes.LessEqTransitive | PriorityHeap.py:19-41 | `<=` on nodes is transitive |
| Nodes.LessEqTotal | PriorityHeap.py:19-41 | `<=` on nodes is total |
| Nodes.LessEqAntisymmetric | PriorityHeap.py:19-41 | two nodes each `<=` the other are equal |
| Heaps.PrepareIndex | PriorityHeap.py:126-139 | an index is accepted exactly when `-len <= index < len`; the result is the index itself, or the index plus len when it was negative, and always below len |
| Heaps.LeftChildIndex | PriorityHeap.py:141-151 | the result is `2i+1` for the prepared index i, present exactly when that is below len |
| Heaps.RightChildIndex | PriorityHeap.py:153-163 | the result is `2i+2` for the prepared index i, present exactly when that is below len |
| Heaps.ParentIndex | PriorityHeap.py:165-175 | a parent exists exactly for an accepted index other than 0; it is `(i-1)//2` of the prepared index i, strictly before i |
| Heaps.ParentOfChild | PriorityHeap.py:141-175 | the parent of the left or the right child of i is i |
| Heaps.ChildOfParent | PriorityHeap.py:141-175 | every index but the root is the left or the right child of its parent |
| Heaps.Swapped | PriorityHeap.py:177-186 | exchanging two slots keeps the length and the multiset, and the two slots trade their nodes |
| Heaps.MinChildIndex | PriorityHeap.py:212-227 | None exactly when there is no left child; otherwise a child no larger than each existing child; the right child only when it is strictly smaller than the left, so ties go left |
| Heaps.MinChildIsLeast | PriorityHeap.py:212-227 | the chosen child is no larger than any child of the index |
| Heaps.HeapOrdered | PriorityHeap.py:188-257 | the queue's invariant, that every node is no smaller than its parent; an empty or one-node list has it |
| Heaps.HeapOrderedByChildren | PriorityHeap.py:141-163 | "every node is no smaller than its parent" is the same as "every node is no larger than each existing child at 2i+1 and 2i+2" |
| Heaps.RootIsMinimum | PriorityHeap.py:119-124 | under the heap property the root is no larger than the node at any index |
| Heaps.RootIsMinimumOfAll | PriorityHeap.py:119-124 | under the heap property the root is no larger than every stored node |
| Heaps.SiftUp | PriorityHeap.py:229-242 | percolate_up's result keeps the length and the multiset of nodes |
| Heaps.AppendOrderedExceptUp | PriorityHeap.py:194-196 | appending to a heap breaks the heap property at most at the new last slot |
| Heaps.UpStep | PriorityHeap.py:238-242 | one swap with a greater parent moves the only possible violation up to the parent |
| Heaps.SiftUpOrders | PriorityHeap.py:229-242 | sifting up from the one slot that may be out of order leaves a heap |
| Heaps.SiftDown | PriorityHeap.py:244-257 | percolate_down's result keeps the length and the multiset of nodes |
| Heaps.DropRoot | PriorityHeap.py:207-208 | swapping the root with the last slot and removing that slot removes exactly the root, and the length drops by one |
| Heaps.DropRootOrderedExceptDown | PriorityHeap.py:207-209 | after that removal the heap property can fail only below the new root |
| Heaps.DownStep | PriorityHeap.py:253-257 | one swap with a smaller minimum child moves the only possible violation down to that child |
| Heaps.SiftDownOrders | PriorityHeap.py:244-257 | sifting down from the one slot that may be out of order leaves a heap |
| PriorityQueues.PriorityQueue.constructor | PriorityHeap.py:59-63 | a new queue is empty and is a heap |
| PriorityQueues.PriorityQueue.Len | PriorityHeap.py:105-110 | the length is the number of stored nodes |
| PriorityQueues.PriorityQueue.Empty | PriorityHeap.py:112-117 | empty exactly when no node is stored |
| PriorityQueues.PriorityQueue.Top | PriorityHeap.py:119-124 | None exactly when empty; otherwise `data[0]`, which is no larger than any stored node |
| PriorityQueues.PriorityQueue.Swap | PriorityHeap.py:177-186 | `data` becomes its contents with slots i and j exchanged |
| PriorityQueues.PriorityQueue.PercolateUp | PriorityHeap.py:229-242 | the loop leaves `data` equal to `SiftUp` of its old contents; it ends because the index strictly decreases |
| PriorityQueues.PriorityQueue.PercolateDown | PriorityHeap.py:244-257 | the loop leaves `data` equal to `SiftDown` of its old contents; it ends because the index strictly increases |
| PriorityQueues.PriorityQueue.Push | PriorityHeap.py:188-197 | the new node is appended and sifted up; the multiset gains exactly the new node; the length grows by one; the heap property is kept |
| PriorityQueues.PriorityQueue.Pop | PriorityHeap.py:199-210 | on an empty queue, None with `data` unchanged; otherwise it returns the old root, which is no larger than any node held, and `data` becomes the sifted-down remainder, with exactly that node removed, one fewer node, and the heap property kept |
| MaxHeaps.Stored | PriorityHeap.py:319 | push stores k with the negated key -k and the value k itself |
| MaxHeaps.StoredOrder | PriorityHeap.py:317-319 | storing k as `Node(-k, k)` reverses the order: `Stored(a) <= Stored(b)` exactly when `b <= a` |
| MaxHeaps.RepresentsAdd | PriorityHeap.py:311-320 | adding `Node(-k, k)` to the nodes adds k to the integers they represent |
| MaxHeaps.RepresentsRemove | PriorityHeap.py:322-329 | removing `Node(-k, k)` from the nodes removes k from the integers they represent |
| MaxHeaps.AllStoredSubset | PriorityHeap.py:322-329 | a queue holding only nodes from a queue of stored nodes holds only stored nodes |
| MaxHeaps.StoredMaximum | PriorityHeap.py:302-309 | the queue's smallest node holds an integer that is held, and no held integer is larger |
| MaxHeaps.PopStored | PriorityHeap.py:322-329 | when the queue's pop removes its smallest node, that node holds the largest integer, and the rest represent the integers without it |
| MaxHeaps.MaxHeap.constructor | PriorityHeap.py:266-270 | a new MaxHeap holds nothing, in a fresh empty queue |
| MaxHeaps.MaxHeap.Len | PriorityHeap.py:279-284 | the length is the number of integers held |
| MaxHeaps.MaxHeap.Empty | PriorityHeap.py:295-300 | empty exactly when nothing is held |
| MaxHeaps.MaxHeap.Top | PriorityHeap.py:302-309 | None exactly when empty; otherwise a held integer that no held integer exceeds (the value, not the negated key) |
| MaxHeaps.MaxHeap.Push | PriorityHeap.py:311-320 | the integers held gain exactly the key; the queue gains exactly `Node(-key, key)` |
| MaxHeaps.MaxHeap.Pop | PriorityHeap.py:322-329 | None with nothing changed when empty; otherwise a held integer that no held integer exceeds, removed exactly once |
| Sorting.Insert | PriorityHeap.py:347-364 | inserting into a sorted sequence gives a sorted sequence with exactly one more node |
| Sorting.Sort | PriorityHeap.py:347-364 | the reference ranking order: a sorted permutation of the nodes |
| Sorting.SortedHeadIsLeast | PriorityHeap.py:347-364 | the first node of a sorted sequence is no larger than any node in it |
| Sorting.SortedTail | PriorityHeap.py:347-364 | dropping the first node keeps a sequence sorted and removes exactly that node |
| Sorting.SortedUnique | PriorityHeap.py:347-364 | two sorted sequences with the same multiset of nodes are equal |
| Drivers.AscendingIsSorted | PriorityHeap.py:342-343 | a sequence whose adjacent pairs ascend is sorted |
| Drivers.PrependLargest | PriorityHeap.py:342-343 | placing the largest held integer before the already placed suffix keeps that suffix ascending and no smaller than what is still held |
| Drivers.UpdateBeforeSuffix | PriorityHeap.py:343 | writing slot k in front of a placed suffix extends that suffix by the value written |
| Drivers.Place | PriorityHeap.py:343 | the write `array[-i] = ...` puts the value in front of the suffix already placed |
| Drivers.PrefixMultiset | PriorityHeap.py:340-341 | one more element of the array adds exactly that element to the multiset of the prefix |
| Drivers.PushAll | PriorityHeap.py:338-341 | the first loop leaves a fresh MaxHeap holding exactly the array's entries |
| Drivers.PopInto | PriorityHeap.py:342-343 | the second loop leaves the array ascending and holding exactly what the heap held |
| Drivers.HeapSort | PriorityHeap.py:332-344 | the array ends sorted in ascending order and is a permutation of its old contents |
| Drivers.RankNodes | PriorityHeap.py:356-357 | find_ranking pushes one node per result |
| Drivers.RankNodesPrefix | PriorityHeap.py:356-357 | each result adds the node with its losses as key and its team name as value |
| Drivers.RankNodesNamed | PriorityHeap.py:356-357 | every node find_ranking pushes holds a team name |
| Drivers.AllNamedSubset | PriorityHeap.py:362-364 | nodes taken from named nodes are named |
| Drivers.PushResults | PriorityHeap.py:354-357 | the first loop adds exactly the result nodes to the queue and keeps it a heap |
| Drivers.PopInOrder | PriorityHeap.py:361-362 | when the queue holds a sorted arrangement from position `taken` on, a pop returns the node at `taken` and leaves the nodes after it |
| Drivers.SortedArrangement | PriorityHeap.py:349 | the results have a sorted arrangement |
| Drivers.RankedName | PriorityHeap.py:364 | the node at position k of any sorted arrangement holds the same team name as position k of the reference sort |
| Drivers.PopTimes | PriorityHeap.py:358-362 | after `count` pops the last result is the node at position `count - 1` of the sorted arrangement, or None when count is 0 or larger than the number of nodes |
| Drivers.FindRanking | PriorityHeap.py:347-364 | None exactly when rank is below 1 or above the number of results; otherwise the team name at position rank - 1 of the results sorted by losses, ties broken by name |

## Left out

- String rendering is not modelled: `Node.__str__` and `__repr__`, `PriorityQueue.__str__`, `to_tree_format_string` and `MaxHeap.__str__`. These only format text.
- `MaxHeap.print_tree_format` is not modelled. It calls `tree_format`, which `PriorityQueue` does not define, so it has no behaviour to state.
- Keys and values of any type: the model uses `int` keys and `Int`/`Str` values.
  - Python raises an error when it compares an integer with a string. The model orders integers before strings, so the order stays total.
  - No caller in the file mixes the two.
- Python's negative list indexing in general is not modelled. `_swap(0, -1)` is the only negative index into the queue, and it is modelled as `Len() - 1`. `heap_sort`'s `array[-i]` is written as `a[n - i]`. `prepare_index` is modelled with its own negative-index handling.
- Recursion depth and memory allocation: `percolate_up` and `percolate_down` are tail-recursive in the source and are loops in the model.
- HeapSort: the source also returns the list it sorted. The model sorts the array in place and returns nothing. Each loop of `heap_sort` is its own method, `PushAll` and `PopInto`.
- FindRanking: its first loop is `PushResults` and its second is `PopTimes`.
  - The result is specified through the reference `Sort`.
  - It is also specified through a sorted arrangement chosen as a ghost value. `SortedUnique` shows that the two agree.

# ova-lib containers and algorithms in Dafny

This project models the core of ova-lib, a C library of generic containers
and algorithms, and proves properties of the model. Each source file of the
core has one module:

- lists: `ArrayList` (array_list.c, with its capacity policy in `Growth` and
  its element shifting in `Memmove`), `LinkedList` (linked_list.c) and
  `SortedList` (sorted_list.c), all specified against `ListSpec`;
- stacks and queues: `Stack` (stack.c), `LinkedQueue` (linked_queue.c) and
  `HeapQueue` (the priority queue built on a heap);
- heaps: `BinaryHeap` (binary_heap.c) and `FibonacciHeap` (fibonacci_heap.c);
- `Sorter` (sort.c: quicksort with Lomuto partition, reverse, copy, shuffle,
  min/max and binary search), with the segment reasoning in `QuickSortSegments`;
- trees: `SearchTree` and `Trees` (tree.c: the plain binary search tree and its
  search, min, max, successor, predecessor, range and in-order walks),
  `AvlTree` (avl_tree.c) and `RedBlackTree` (red_black_tree.c);
- `Tries` (trie.c: insert, search, delete, prefix counts and word collection);
- maps and sets: `HashFunctions` and `HashMap` (map.c, hash_map.c), `Sets`,
  `HashSets` and `TreeSets` (set.c, hash_set.c, tree_set.c);
- `BloomFilters` (bloom_filter.c) and `Matrices` (matrix.c);
- graphs: `Graphs` (graph.c) over the two storage backends `AdjacencyLists`
  and `AdjacencyMatrices`, and the algorithms of graph_algorithms.c in
  `Traversals` (BFS and both DFS variants), `ShortestPaths` (Dijkstra,
  Bellman-Ford, Floyd-Warshall), `Components` (connected components and
  Tarjan's strongly connected components), `Orderings` (Kahn's topological
  sort), `CycleSearch`, `SpanningTrees` (Prim), `SpanningForests` (Kruskal)
  and `UnionFind`.

Containers whose C functions update a struct in place are classes whose
methods carry `modifies` clauses and state their new contents through a ghost
or specification view (`Contents`, `Elements`, `Entries`, `Keys`). The graph
algorithms read the graph through `Graphs.Graph.View`, which yields a value
of type `GraphNets.Net` (present flags and per-vertex out-edges in the order
the backend lists them); reachability, paths and walks are defined on that
value in `GraphNets`, and every algorithm is proved against those definitions
(every reachable vertex visited once with the start first, shortest-path
tables, partitions into components, topological orders, spanning trees with
the cut and cycle properties). Comparator callbacks become integer keys or a
total order on `int`; `void *` payloads become a type parameter.

## Model

| member | source | states |
|---|---|---|
| ListSpec.RemoveAfterInsert | src/list/array_list.c:62-82 | removing at the position just inserted at gives back the original items (insert and remove are inverse) |
| ListSpec.InsertAfterRemove | src/list/array_list.c:62-82 | re-inserting a removed item at its old position restores the list |
| ListSpec.InsertAtMultiset | src/list/array_list.c:62-69 | an insert adds exactly one occurrence of the item and loses none |
| ListSpec.RemoveAtMultiset | src/list/array_list.c:77-82 | a remove takes away exactly one occurrence of the removed item |
| Growth.Doubled | src/list/array_list.c:51-60 | the grown capacity is strictly larger and at least 1, and equals the doubling the source performs whenever the capacity is positive |
| Growth.DoubledAsWritten | src/list/array_list.c:53 | capacity * 2 as written; Growth.GrownAsWrittenRoomIff states that it leaves a capacity of 0 with no room |
| Growth.GrownAsWritten | src/list/array_list.c:51-60 | ensure_capacity as written, doubling a full buffer; Growth.GrownAsWrittenRoomIff states when it gives room |
| Growth.GrownAsWrittenRoomIff | src/list/array_list.c:51-60 | as written, a full buffer gains room for the next item exactly when its capacity was not zero |
| Memmove.OpenGap | src/list/array_list.c:62-69 | shifting slots lo..hi-1 up by one moves each item to the next slot and leaves everything outside lo..hi unchanged |
| Memmove.CloseGap | src/list/array_list.c:77-82 | shifting slots lo+1..hi-1 down by one moves each item to the previous slot and leaves everything outside lo..hi unchanged |
| ArrayList.ArrayList.constructor | src/list/array_list.c:23-44 | a new list is empty, with a buffer of the requested capacity, and counts one more live buffer |
| ArrayList.ArrayList.EnsureCapacity | src/list/array_list.c:51-60 | a full buffer is replaced by a larger one holding the same items; a non-full one is kept |
| ArrayList.ArrayList.Insert | src/list/array_list.c:62-69 | for 0 <= index <= size the contents become InsertAt(old contents, index, item); any other index leaves the contents unchanged |
| ArrayList.ArrayList.Get | src/list/array_list.c:71-75 | the item at index for 0 <= index < size, NULL otherwise; nothing changes |
| ArrayList.ArrayList.Remove | src/list/array_list.c:77-82 | for 0 <= index < size the contents become RemoveAt(old contents, index); any other index changes nothing |
| ArrayList.ArrayList.Size | src/list/array_list.c:84-87 | the number of items in the list |
| ArrayList.ArrayList.Free | src/list/array_list.c:89-105 | the live-buffer count drops by one |
| ArrayList.CreateThenFree | src/list/array_list.c:107-109 | creating and freeing a list leaves the active-buffer count unchanged |
| LinkedList.LinkedList.constructor | src/list/linked_list.c:22-43 | a new list has no nodes and size 0 |
| LinkedList.LinkedList.Insert | src/list/linked_list.c:45-91 | for 0 <= index <= size (see Left out) the contents become InsertAt(old contents, index, item), with head and tail kept consistent |
| LinkedList.LinkedList.LinkFirst | src/list/linked_list.c:54-61 | the new node becomes the head: the node sequence gains it in front and the contents gain its item in front |
| LinkedList.LinkedList.LinkLast | src/list/linked_list.c:62-67 | the new node becomes the tail: the node sequence and the contents gain it at the end |
| LinkedList.LinkedList.Seek | src/list/linked_list.c:71-85 | the walk from the nearer end reaches the node at the requested index |
| LinkedList.LinkedList.LinkBefore | src/list/linked_list.c:75-83 | the new node is spliced in before the node at index: nodes and contents become InsertAt of the old ones at that index |
| LinkedList.LinkedList.WalkIndex | src/list/linked_list.c:96-98 | the position the head walk stops at, the head for a negative index; LinkedList.LinkedList.Walk states where it lands |
| LinkedList.LinkedList.Walk | src/list/linked_list.c:95-98 | the walk from the head that get and remove share reaches the node at WalkIndex(index), or NULL past the end |
| LinkedList.LinkedList.Get | src/list/linked_list.c:93-100 | the item WalkIndex(index) steps from the head (the head for a negative index), NULL past the end; nothing changes |
| LinkedList.LinkedList.Remove | src/list/linked_list.c:102-122 | within range the contents lose the item at WalkIndex(index) and the size drops by one; past the end nothing changes |
| LinkedList.LinkedList.Unlink | src/list/linked_list.c:108-121 | unlinking the node at i fixes head and tail: nodes and contents become RemoveAt of the old ones at i |
| LinkedList.LinkedList.Size | src/list/linked_list.c:124-128 | the number of items in the list |
| Stack.Stack.constructor | src/stack/stack.c:12-40 | a new stack of either kind is empty |
| Stack.Stack.Push | src/stack/array_stack.c:5-8 | the item becomes the new top and the rest of the stack is unchanged (the linked kind, linked_stack.c:5-8, behaves the same) |
| Stack.Stack.Pop | src/stack/array_stack.c:10-16 | NULL on an empty stack; otherwise the top item, which is removed while the rest stays (same for linked_stack.c:10-16) |
| Stack.Stack.Top | src/stack/stack.c:42-46 | NULL on an empty stack, otherwise the top item; the stack does not change |
| Stack.Stack.IsEmpty | src/stack/stack.c:48-51 | true exactly when the stack holds no items |
| Stack.Stack.Size | src/stack/stack.c:53-56 | the number of items on the stack |
| Stack.CreateStack | src/stack/stack.c:12-40 | an empty stack for the ARRAY_STACK and LINKED_STACK codes, NULL for any other code |
| Stack.PushThenPop | src/stack/array_stack.c:5-16 | last in, first out: pushing xs and popping once per item yields xs reversed |
| SortedList.ClampInitialCapacity | src/list/sorted_list.c:18-20 | the capacity is always positive: a positive request is kept and a non-positive one becomes 4 |
| SortedList.LowerBound | src/list/sorted_list.c:74-87 | the count of keys below k, at most the length; SortedList.LowerBoundSplits and LowerBoundUnique state that it is the insert position |
| SortedList.LowerBoundSplits | src/list/sorted_list.c:74-87 | in a sorted list every item before the insert position has a smaller key and every item from it on a key that is not smaller |
| SortedList.LowerBoundUnique | src/list/sorted_list.c:74-87 | the insert position is the only position that splits the smaller keys from the rest |
| SortedList.InsertAtLowerBoundSorted | src/list/sorted_list.c:89-106 | inserting at the insert position keeps the list sorted |
| SortedList.RemoveAtSorted | src/list/sorted_list.c:116-125 | removing any item keeps the list sorted |
| SortedList.SortedList.constructor | src/list/sorted_list.c:22-55 | a new sorted list is empty and its capacity is the clamped request |
| SortedList.SortedList.EnsureCapacity | src/list/sorted_list.c:61-72 | a full buffer doubles and keeps its items; a non-full one is left alone; afterwards there is room for one more |
| SortedList.SortedList.FindInsertPosition | src/list/sorted_list.c:74-87 | the binary search returns the first position whose key is not smaller than the item's: smaller keys lie before it, the rest from it on |
| SortedList.SortedList.Insert | src/list/sorted_list.c:89-106 | whatever index is passed, the item is inserted at its lower-bound position, so the list stays sorted and gains exactly that item |
| SortedList.SortedList.Place | src/list/sorted_list.c:97-104 | the items from pos on move up one slot and item is stored at pos |
| SortedList.SortedList.Get | src/list/sorted_list.c:108-114 | the item at index for 0 <= index < size, NULL otherwise |
| SortedList.SortedList.Remove | src/list/sorted_list.c:116-125 | for 0 <= index < size the item at index is dropped; otherwise nothing changes |
| SortedList.SortedList.Size | src/list/sorted_list.c:127-130 | the number of items |
| SortedList.CreateSortedList | src/list/sorted_list.c:22-55 | NULL exactly when no comparator is given; otherwise an empty list with the clamped capacity |
| LinkedQueue.LinkedQueue.constructor | src/queue/linked_queue.c:67-82 | a new linked queue is empty |
| LinkedQueue.LinkedQueue.Initialize | src/queue/linked_queue.c:4-8 | front and rear become NULL and the length 0 |
| LinkedQueue.LinkedQueue.Enqueue | src/queue/linked_queue.c:19-34 | the item is appended at the rear and the result is 1 |
| LinkedQueue.LinkedQueue.Dequeue | src/queue/linked_queue.c:36-50 | NULL on an empty queue; otherwise the front item, which is removed while the rest keeps its order |
| LinkedQueue.LinkedQueue.IsEmpty | src/queue/linked_queue.c:52-54 | true exactly when the queue holds no items (and then rear is NULL too) |
| LinkedQueue.LinkedQueue.Size | src/queue/linked_queue.c:63-65 | the number of queued items |
| LinkedQueue.LinkedQueue.Free | src/queue/linked_queue.c:56-61 | every entry is dequeued, leaving the queue empty |
| LinkedQueue.EnqueueThenDequeue | src/queue/linked_queue.c:19-50 | first in, first out: enqueueing xs and dequeueing once per item yields xs in order |
| HeapQueue.HeapQueue.constructor | src/queue/heap_queue.c:16-34 | a new priority queue is empty; it has a heap exactly when the capacity is not negative |
| HeapQueue.HeapQueue.Initialize | src/queue/heap_queue.c:45-54 | front, rear and length are reset; the heap and its items are untouched |
| HeapQueue.HeapQueue.Enqueue | src/queue/heap_queue.c:66-71 | without a heap the result is 0 and nothing changes; otherwise the heap gains the item and the result is 1 |
| HeapQueue.HeapQueue.Dequeue | src/queue/heap_queue.c:81-103 | NULL exactly when the queue is empty; otherwise an item of highest priority, which is removed |
| HeapQueue.HeapQueue.IsEmpty | src/queue/heap_queue.c:114-128 | true exactly when the queue holds no items (including when it has no heap) |
| HeapQueue.HeapQueue.Size | src/queue/heap_queue.c:154-159 | the number of queued items, 0 without a heap |
| BinaryHeap.AncestorDominates | src/heap/binary_heap.c:81-113 | in a heap-ordered array no item ranks above the root |
| BinaryHeap.Parent | src/heap/binary_heap.c:84 | the parent slot (i - 1) / 2; the heap order and BinaryHeap.RisingHoleStep are stated through it |
| BinaryHeap.RootIsMaximum | src/heap/binary_heap.c:45-49 | the root of a non-empty heap ranks at least as high as every item, so peek and pop return a maximum |
| BinaryHeap.RisingHoleStep | src/heap/binary_heap.c:81-90 | one sift_up step (the parent moves down into the hole) keeps the partial heap order around the rising hole |
| BinaryHeap.HoleMovesMultiset | src/heap/binary_heap.c:81-90 | moving the hole keeps the same items once it is filled |
| BinaryHeap.RisingHoleFills | src/heap/binary_heap.c:81-90 | when sift_up stops, storing the item in the hole leaves the array heap-ordered |
| BinaryHeap.SinkingItemStep | src/heap/binary_heap.c:92-113 | swapping the sinking item with its larger, strictly greater child keeps the order everywhere except below the item's new slot |
| BinaryHeap.LastToRoot | src/heap/binary_heap.c:34-43 | moving the last item to the root and shrinking drops exactly the old root and leaves only the root to repair |
| BinaryHeap.SinkingItemRests | src/heap/binary_heap.c:92-113 | when no child outranks the sinking item the array is heap-ordered |
| BinaryHeap.BinaryHeap.constructor | src/heap/binary_heap.c:7-21 | a new heap is empty with the requested capacity |
| BinaryHeap.BinaryHeap.Put | src/heap/binary_heap.c:23-32 | the heap gains exactly the item and stays heap-ordered; a full buffer grows to Doubled(capacity), the corrected growth that also gives a capacity-0 heap room (see Findings) |
| BinaryHeap.BinaryHeap.Append | src/heap/binary_heap.c:28-31 | storing the item at the end and sifting it up adds exactly that item and keeps heap order |
| BinaryHeap.BinaryHeap.Grow | src/heap/binary_heap.c:24-27 | the buffer is replaced by one of Doubled(capacity) slots holding the same items (at least one slot, where the C code keeps 0; see Findings) |
| BinaryHeap.BinaryHeap.SiftUp | src/heap/binary_heap.c:81-90 | given a heap-ordered prefix, the prefix one longer becomes heap-ordered with the same items and nothing after it changes |
| BinaryHeap.BinaryHeap.Pop | src/heap/binary_heap.c:34-43 | NULL exactly when empty; otherwise an item ranking at least as high as every item, which is removed (one occurrence) |
| BinaryHeap.BinaryHeap.MoveLastToRoot | src/heap/binary_heap.c:34-43 | the last item overwrites the root, size drops by one, and the items lose exactly the old root |
| BinaryHeap.BinaryHeap.SiftDown | src/heap/binary_heap.c:92-113 | an item sinking from start leaves the array heap-ordered with the same items |
| BinaryHeap.BinaryHeap.Swap | src/heap/binary_heap.c:92-113 | two slots exchange their items and nothing else changes |
| BinaryHeap.BinaryHeap.Peek | src/heap/binary_heap.c:45-49 | NULL exactly when empty; otherwise an item ranking at least as high as every item; nothing changes |
| BinaryHeap.BinaryHeap.Size | src/heap/binary_heap.c:51-54 | the number of items |
| FibonacciHeap.BoundedBelow | src/heap/fibonacci_heap.c:18-34 | in a heap-ordered tree every item ranks no lower than the root's key bound |
| FibonacciHeap.MinRootIsMinimum | src/heap/fibonacci_heap.c:161-164 | when the minimum root is first in a root list of heap-ordered trees, it is an item and no item ranks above it |
| FibonacciHeap.Link | src/heap/fibonacci_heap.c:18-34 | linking a tree under a root of no larger key keeps heap order, raises the parent's degree by one and holds the items of both |
| FibonacciHeap.SpliceRoot | src/heap/fibonacci_heap.c:102-119 | a tree spliced into the root list adds one root, and the list's first root (the min pointer) has a key no larger than the new root and the old minimum |
| FibonacciHeap.SpliceRootItems | src/heap/fibonacci_heap.c:102-119 | splicing a tree into the root list adds exactly its items |
| FibonacciHeap.SpliceRootMinFirst | src/heap/fibonacci_heap.c:102-119 | splicing keeps the minimum root at the front of the root list |
| FibonacciHeap.SpliceRootGood | src/heap/fibonacci_heap.c:102-119 | splicing a heap-ordered tree keeps every root heap-ordered |
| FibonacciHeap.SpliceRootDistinct | src/heap/fibonacci_heap.c:36-100 | splicing a tree whose degree no root has keeps the root degrees distinct |
| FibonacciHeap.TableItemsUpdate | src/heap/fibonacci_heap.c:36-100 | replacing one slot of the degree table changes the items held by exactly the old and new slot contents |
| FibonacciHeap.Merge | src/heap/fibonacci_heap.c:56-75 | linking two trees of equal degree gives a heap-ordered tree one degree higher, rooted at the smaller key and holding both trees' items |
| FibonacciHeap.MergeFromTable | src/heap/fibonacci_heap.c:56-75 | merging the carried tree with the one parked at its degree empties that slot and keeps all items |
| FibonacciHeap.Park | src/heap/fibonacci_heap.c:76-79 | a tree parked in its empty degree slot keeps the table well formed, growing it when the degree is past its end |
| FibonacciHeap.ParkItems | src/heap/fibonacci_heap.c:76-79 | parking a tree adds exactly its items to the table |
| FibonacciHeap.ReadBackItems | src/heap/fibonacci_heap.c:82-99 | reading one more table slot back into the root list moves its items from the table to the list |
| FibonacciHeap.FibonacciHeap.constructor | src/heap/fibonacci_heap.c:194-215 | a new heap is empty |
| FibonacciHeap.FibonacciHeap.Put | src/heap/fibonacci_heap.c:102-119 | the heap gains exactly the item and stays well formed |
| FibonacciHeap.FibonacciHeap.Peek | src/heap/fibonacci_heap.c:161-164 | NULL exactly when empty; otherwise an item no other item ranks above |
| FibonacciHeap.FibonacciHeap.Size | src/heap/fibonacci_heap.c:166-169 | the number of items |
| FibonacciHeap.FibonacciHeap.Pop | src/heap/fibonacci_heap.c:121-159 | NULL exactly when empty; otherwise removes and returns an item no other item ranks above, consolidates the ring Spliced leaves, and leaves roots of distinct degrees |
| FibonacciHeap.Spliced | src/heap/fibonacci_heap.c:125-143 | the children join the root ring rotated by one: position i holds child i + 1 (modulo their number), so the first child lands last |
| FibonacciHeap.ItemsOfSpliced | src/heap/fibonacci_heap.c:125-143 | the splice keeps exactly the children's items |
| FibonacciHeap.PopRing | src/heap/fibonacci_heap.c:121-152 | the ring handed to consolidate holds heap-ordered trees with exactly the old roots' items less the popped one |
| FibonacciHeap.FibonacciHeap.Consolidate | src/heap/fibonacci_heap.c:36-100 | consolidation keeps exactly the same items, keeps every tree heap-ordered, puts the minimum root first and leaves no two roots of the same degree |
| FibonacciHeap.FibonacciHeap.Absorb | src/heap/fibonacci_heap.c:56-80 | carrying one root through the degree table keeps the table well formed and adds exactly its items |
| FibonacciHeap.FibonacciHeap.ReadBack | src/heap/fibonacci_heap.c:82-99 | the table read back into a root list holds the same items, minimum first, with distinct degrees |
| FibonacciHeap.LeastNegationIsTen | test/test_fibonacci_heap.c:9-18 | of 5, 3, 10, 1 and 4 under the reversing comparator, 10 is the only item no other ranks above |
| FibonacciHeap.PopWithReversedOrder | test/test_fibonacci_heap.c:9-18 | with the reversing comparator, putting 5, 3, 10, 1 and 4 and popping returns 10 |
| SearchTree.Lookup | src/tree/tree.c:6-22 | the lookup finds nothing exactly when the key is not stored |
| SearchTree.UpsertFacts | src/tree/tree.c:147-157 | inserting into the sorted in-order pairs keeps them sorted, adds the key to the key set, grows the size only for a new key, and makes the key map to the new value while every other key keeps its value |
| SearchTree.EraseFacts | src/tree/tree.c:171-181 | deleting from the sorted in-order pairs keeps them sorted, removes the key from the key set, shrinks the size only when the key was present, and leaves every other key's value unchanged |
| SearchTree.UpsertNode | src/tree/avl_tree.c:86-141 | at an ordered node, a smaller key is inserted among the left subtree's pairs, a larger among the right's, and an equal key replaces the node's value |
| SearchTree.EraseNode | src/tree/avl_tree.c:153-221 | at an ordered node, a smaller key is deleted from the left subtree's pairs, a larger from the right's, and an equal key removes the node's own pair |
| SearchTree.LookupNode | src/tree/tree.c:6-22 | at an ordered node the comparison with the node's key tells which subtree can hold the key |
| SearchTree.SearchNode | src/tree/tree.c:6-22 | the walk returns the value stored under the key, and nothing exactly when the key is absent |
| SearchTree.MinNode | src/tree/tree.c:24-34 | following left children yields the value of the smallest key, nothing exactly for an empty tree |
| SearchTree.MaxNode | src/tree/tree.c:36-46 | following right children yields the value of the largest key, nothing exactly for an empty tree |
| SearchTree.EndsAreExtremes | src/tree/tree.c:24-46 | in sorted pairs the first key is the smallest and the last the largest |
| SearchTree.PredecessorNode | src/tree/tree.c:207-230 | at an ordered node the predecessor of k lies in the left subtree when k is not above the node's key, otherwise it is the right subtree's predecessor or else the node itself |
| SearchTree.SuccessorNode | src/tree/tree.c:232-255 | the mirror image: the successor lies in the right subtree when k is not below the node's key, otherwise it is the left subtree's successor or else the node itself |
| SearchTree.PredecessorIs | src/tree/tree.c:207-230 | the predecessor is the value at the last position whose key is below k |
| SearchTree.PredecessorNone | src/tree/tree.c:207-230 | with no key below k there is no predecessor |
| SearchTree.SuccessorIs | src/tree/tree.c:232-255 | the successor is the value at the first position whose key is above k |
| SearchTree.SuccessorNone | src/tree/tree.c:232-255 | with no key above k there is no successor |
| SearchTree.PredecessorWalk | src/tree/tree.c:207-230 | the walk returns the value of the largest stored key strictly below k, or nothing |
| SearchTree.SuccessorWalk | src/tree/tree.c:232-255 | the walk returns the value of the smallest stored key strictly above k, or nothing |
| SearchTree.RangeQuery | src/tree/tree.c:68-87 | the pruned walk yields exactly the values whose keys lie in [low, high], in key order |
| SearchTree.RangeSplit | src/tree/tree.c:68-87 | skipping a subtree whose keys the node's key puts out of range loses no in-range pair |
| SearchTree.KeepSorted | src/tree/tree.c:68-87 | the in-range pairs of sorted pairs are sorted, in range and stored keys |
| Trees.BalancedTree.constructor | src/tree/tree.c:89-125 | a new tree of either variant is empty |
| Trees.BalancedTree.Insert | src/tree/tree.c:147-157 | a NULL key changes nothing; otherwise the in-order pairs become Upsert(old pairs, key, value), so key maps to value and nothing else changes |
| Trees.BalancedTree.Delete | src/tree/tree.c:171-181 | a NULL key changes nothing; otherwise the in-order pairs become Erase(old pairs, key) |
| Trees.BalancedTree.Search | src/tree/tree.c:159-169 | nothing for a NULL key; otherwise the value stored under the key, or nothing when absent |
| Trees.BalancedTree.Min | src/tree/tree.c:183-193 | the value of the smallest key, nothing exactly when the tree is empty |
| Trees.BalancedTree.Max | src/tree/tree.c:195-205 | the value of the largest key, nothing exactly when the tree is empty |
| Trees.BalancedTree.Predecessor | src/tree/tree.c:207-230 | nothing for a NULL key; otherwise the value of the largest key strictly below it, if any |
| Trees.BalancedTree.Successor | src/tree/tree.c:232-255 | nothing for a NULL key; otherwise the value of the smallest key strictly above it, if any |
| Trees.BalancedTree.RangeQuery | src/tree/tree.c:257-273 | no list exactly when a bound is NULL or low > high; otherwise the values with keys in [low, high] in key order |
| Trees.BalancedTree.InOrder | src/tree/tree.c:275-280 | the callback visits every stored pair once, in strictly ascending key order |
| Trees.BalancedTree.Size | src/tree/tree.c:282-287 | the number of stored pairs |
| Trees.CreateTree | src/tree/tree.c:89-125 | NULL exactly without a comparator or for an unknown variant; otherwise an empty tree of the requested variant |
| AvlTree.RotateRight | src/tree/avl_tree.c:42-62 | a right rotation keeps the in-order pairs |
| AvlTree.Height | src/tree/avl_tree.c:9-11 | the stored height of a node, 0 for an empty subtree; its contract is carried by AvlTree.Avl, which every balance lemma states through it |
| AvlTree.UpdateHeight | src/tree/avl_tree.c:13-18 | one more than the taller child, an empty subtree left alone; AvlTree.InsertNodeBalanced and AvlTree.DeleteNodeBalanced state the heights it produces |
| AvlTree.BalanceOf | src/tree/avl_tree.c:20-25 | left height minus right height, 0 for an empty subtree; the AVL condition of AvlTree.Avl bounds it by 1 either way |
| AvlTree.NewNode | src/tree/avl_tree.c:27-40 | a leaf of height 1 holding the key and value; AvlTree.InsertNodePairs and InsertNodeBalanced state that it adds exactly one pair and is AVL |
| AvlTree.RotateLeft | src/tree/avl_tree.c:64-84 | a left rotation keeps the in-order pairs |
| AvlTree.RebalanceAfterInsert | src/tree/avl_tree.c:113-141 | the four insertion rotation cases keep the in-order pairs |
| AvlTree.RebalanceAfterDelete | src/tree/avl_tree.c:195-221 | the four deletion rotation cases keep the in-order pairs |
| AvlTree.InsertNode | src/tree/avl_tree.c:86-141 | the recursive insert; its contract is carried by AvlTree.InsertNodePairs (the pairs become Upsert and a node is created exactly for a new key) and AvlTree.InsertNodeBalanced (AVL kept, height up by at most one) |
| AvlTree.DeleteNode | src/tree/avl_tree.c:153-221 | the recursive delete; its contract is carried by AvlTree.DeleteNodePairs (the pairs become Erase and a node is freed exactly for a present key) and AvlTree.DeleteNodeBalanced (AVL kept, height down by at most one) |
| AvlTree.MinPair | src/tree/avl_tree.c:143-151 | the leftmost node holds the first (smallest) in-order pair |
| AvlTree.DeleteTwoChildrenPairs | src/tree/avl_tree.c:184-192 | deleting a node with two children by copying in its successor and deleting that from the right subtree drops exactly the node's own pair |
| AvlTree.InsertNodePairs | src/tree/avl_tree.c:86-141 | AVL insertion turns the in-order pairs into Upsert(pairs, k, v) and reports a new node exactly when k was absent |
| AvlTree.DeleteNodePairs | src/tree/avl_tree.c:153-221 | AVL deletion turns the in-order pairs into Erase(pairs, k) and reports a removal exactly when k was present |
| AvlTree.RotateRightBalanced | src/tree/avl_tree.c:42-62 | a right rotation of a left-heavy node whose left child is not right-heavy gives an AVL tree of known height |
| AvlTree.RotateLeftBalanced | src/tree/avl_tree.c:64-84 | a left rotation of a right-heavy node whose right child is not left-heavy gives an AVL tree of known height |
| AvlTree.RotateLeftRightBalanced | src/tree/avl_tree.c:124-130 | the left-right double rotation restores the AVL property with height one below the unbalanced node |
| AvlTree.RotateRightLeftBalanced | src/tree/avl_tree.c:132-138 | the right-left double rotation restores the AVL property with height one below the unbalanced node |
| AvlTree.InsertNodeBalanced | src/tree/avl_tree.c:86-141 | insertion into an AVL tree gives an AVL tree whose height grows by at most one, and when it grows the root leans toward the inserted side |
| AvlTree.RebalanceInsertBalanced | src/tree/avl_tree.c:113-141 | after one insertion, the balance cases chosen by comparing k with the child's key restore the AVL property |
| AvlTree.RebalanceBalanced | src/tree/avl_tree.c:195-221 | after one deletion, the balance cases chosen by the child's balance restore the AVL property and lower the height by at most one |
| AvlTree.DeleteNodeBalanced | src/tree/avl_tree.c:153-221 | deletion from an AVL tree gives an AVL tree whose height drops by at most one |
| RedBlackTree.LeftRotate | src/tree/red_black_tree.c:5-24 | a left rotation keeps the in-order pairs |
| RedBlackTree.RightRotate | src/tree/red_black_tree.c:26-45 | a right rotation keeps the in-order pairs |
| RedBlackTree.PlugFits | src/tree/red_black_tree.c:47-84 | a subtree with equal black heights and no red-red edge, hung under a path that fits its colour and black height, gives such a tree |
| RedBlackTree.FocusDown | src/tree/red_black_tree.c:179-187 | stepping left on a smaller key and right on a larger one keeps every key before the path below k and every key after it above k |
| RedBlackTree.UpdateFacts | src/tree/red_black_tree.c:182-185 | replacing the value of the node whose key equals k gives a red-black tree whose pairs are Upsert(old pairs, k, v), and k was present |
| RedBlackTree.LeafFacts | src/tree/red_black_tree.c:189-211 | a red leaf hung where the search fell off starts the insert fix-up toward Upsert(old pairs, k, v), and k was absent |
| RedBlackTree.RecolorUp | src/tree/red_black_tree.c:51-55 | the red-uncle case of the insert fix-up (its mirror at lines 67-71 is the same function on the other side); RedBlackTree.RecolorUpFacts states that it keeps the fix-up invariant two levels up |
| RedBlackTree.RecolorUpFacts | src/tree/red_black_tree.c:51-55 | the red-uncle case (recolour parent, uncle and grandparent and move up two levels) keeps the insert fix-up invariant |
| RedBlackTree.InsertRotate | src/tree/red_black_tree.c:56-80 | the black-uncle cases of the insert fix-up on both sides; RedBlackTree.InsertRotateFacts states that the result is a black subtree fitting the rest of the path with the target pairs |
| RedBlackTree.InsertRotateFacts | src/tree/red_black_tree.c:56-64 | the black-uncle case (optional inner rotation, recolour, outer rotation) leaves a black subtree that fits the rest of the path, with the target pairs |
| RedBlackTree.InsertFinish | src/tree/red_black_tree.c:83 | when the fix-up loop stops, painting the root black gives a red-black tree with the target pairs |
| RedBlackTree.Insert | src/tree/red_black_tree.c:171-212 | insertion keeps the red-black properties, makes the pairs Upsert(old pairs, k, v), and creates a node exactly when k was absent |
| RedBlackTree.PaintBlack | src/tree/red_black_tree.c:83 | painting a node black keeps the tree balanced and its pairs, raising the black height by one for a red node |
| RedBlackTree.MissingFacts | src/tree/red_black_tree.c:219-222 | when the search finds no node with key k, erasing k changes nothing |
| RedBlackTree.OneChildFacts | src/tree/red_black_tree.c:228-233 | replacing a node with at most one child by that child removes exactly the pair with key k |
| RedBlackTree.SuccessorFacts | src/tree/red_black_tree.c:234-249 | for a node with two children, moving its in-order successor into its place (taking its colour) removes exactly the pair with key k |
| RedBlackTree.EraseAtFocus | src/tree/red_black_tree.c:219-249 | erasing the key of the found node leaves the pairs around it and those of its two subtrees |
| RedBlackTree.RedSiblingPath | src/tree/red_black_tree.c:120-125 | the red-sibling case of the delete fix-up (mirror at lines 144-149) as the new path above x; RedBlackTree.RedSiblingFacts states that it keeps the invariant and leaves a black sibling |
| RedBlackTree.RedSiblingFacts | src/tree/red_black_tree.c:120-125 | the red-sibling case (recolour, rotate at the parent) keeps the delete fix-up invariant and leaves a black sibling |
| RedBlackTree.MoveUp | src/tree/red_black_tree.c:126-128 | the black sibling with two black children turns red and the parent becomes x (mirror at lines 150-152); RedBlackTree.MoveUpFacts states that the invariant holds one level up |
| RedBlackTree.MoveUpFacts | src/tree/red_black_tree.c:126-128 | the black sibling with two black children turns red and the extra black moves up to the parent, keeping the delete fix-up invariant |
| RedBlackTree.Restructure | src/tree/red_black_tree.c:129-141 | the black sibling with a red child: the optional sibling rotation, the recolouring and the parent rotation (mirror at lines 153-165); RedBlackTree.RestructureFacts states that it ends the fix-up with the target pairs |
| RedBlackTree.RestructureFacts | src/tree/red_black_tree.c:129-141 | the black sibling with a red child ends the fix-up with rotations and recolouring that leave the target pairs under a well-formed root |
| RedBlackTree.DeleteFinish | src/tree/red_black_tree.c:168 | when x is red or the root, painting it black gives a red-black tree with the target pairs |
| RedBlackTree.RemovedRedFinish | src/tree/red_black_tree.c:256-258 | unlinking a red node needs no fix-up: the tree is already red-black with the target pairs |
| RedBlackTree.RemovedBlackFixup | src/tree/red_black_tree.c:256-258 | unlinking a black node establishes the delete fix-up invariant |
| RedBlackTree.Minimum | src/tree/red_black_tree.c:109-114 | walking left from the right child reaches a node without a left child, the in-order successor |
| RedBlackTree.DeleteFixupLoop | src/tree/red_black_tree.c:116-169 | the fix-up loop ends in a red-black tree with the target pairs |
| RedBlackTree.Delete | src/tree/red_black_tree.c:214-259 | deletion keeps the red-black properties, makes the pairs Erase(old pairs, k), and removes a node exactly when k was present |
| Sets.PtrCompare | src/set/set.c:8-12 | the default comparator returns -1, 0 or 1, negative exactly when a < b and zero exactly when a == b |
| Sets.PtrCompareAntisymmetric | src/set/set.c:8-12 | swapping the arguments of the default comparator negates its result |
| Sets.Mix | src/set/set.c:19-25 | the shift-xor and multiply rounds on a 64-bit address, wrapping; Sets.PtrHash states where the reduced result lands |
| Sets.PtrHash | src/set/set.c:14-28 | the default hash is 0 for a NULL key or a non-positive capacity, and otherwise lies in [0, capacity) |
| Sets.DefaultHasher | src/set/set.c:14-28 | the default hash callback; Sets.DefaultHashInRange states that it always yields a valid bucket |
| Sets.DefaultHashInRange | src/set/set.c:14-28 | the default hash always yields a valid bucket index |
| Sets.Set.Hash | src/set/set.c:30-76 | a new hash-backed set is empty and keeps its comparator and hash function |
| Sets.Set.Tree | src/set/set.c:30-76 | a new tree-backed set is empty, keeps its comparator and has no hash function |
| Sets.Set.Add | src/set/set.c:92-97 | NULL adds nothing; otherwise the element joins the set; the result is true exactly when it was new |
| Sets.Set.Contains | src/set/set.c:99-104 | true exactly for a non-NULL element of the set |
| Sets.Set.Remove | src/set/set.c:106-111 | NULL removes nothing; otherwise the element leaves the set; the result is true exactly when it was there |
| Sets.Set.Size | src/set/set.c:113-118 | the number of elements |
| Sets.Set.ToList | src/set/set.c:120-125 | a list without repeats holding exactly the elements, in ascending order for a tree-backed set |
| Sets.CreateWithCapacity | src/set/set.c:30-76 | NULL exactly for an unknown variant or a hash set given only one of comparator and hash; otherwise an empty set with the given or default comparator and, for a hash set, the given or default hash |
| Sets.CreateSet | src/set/set.c:78-80 | the same as create_set_with_capacity with the default capacity |
| Sets.SetAdd | src/set/set.c:92-97 | false and no change for a NULL set; otherwise as Set.Add |
| Sets.SetContains | src/set/set.c:99-104 | false for a NULL set or element; otherwise membership |
| Sets.SetRemove | src/set/set.c:106-111 | false and no change for a NULL set; otherwise as Set.Remove |
| Sets.SetSize | src/set/set.c:113-118 | 0 for a NULL set; otherwise the number of elements |
| Sets.SetToList | src/set/set.c:120-125 | no list for a NULL set; otherwise the elements without repeats, ascending for a tree-backed set |
| Sets.AddAll | src/set/set.c:174-176 | adding every listed element makes the set exactly the old elements plus the listed ones |
| Sets.AddCommon | src/set/set.c:216-221 | adding the listed elements the other set contains makes the set the old elements plus the listed ones in the other set |
| Sets.AddMissing | src/set/set.c:244-249 | adding the listed elements the other set lacks makes the set the old elements plus the listed ones not in the other set |
| Sets.OrderBySize | src/set/set.c:197-202 | the iterated set is a unless b is strictly smaller, and the pair has the same intersection either way |
| Sets.CreateLike | src/set/set.c:164 | a new empty set with a's variant and comparator, as each set operation creates its result |
| Sets.CreateForUnion | src/set/set.c:158-164 | a new empty set like a, created with the sum of the sizes clamped to INT_MAX as capacity hint |
| Sets.CreateSized | src/set/set.c:204-205 | a new empty set like a, created with the other set's size as capacity hint |
| Sets.ListOf | src/set/set.c:169 | the list the set algebra iterates over holds exactly the set's elements |
| Sets.AddBoth | src/set/set.c:174-186 | the two add loops of set_union leave the result holding its old elements plus every element of both lists |
| Sets.AddWhen | src/set/set.c:217-220 | one round of the intersection and difference loops: the element is added exactly when the other set's answer to contains is the wanted one |
| Sets.CommonOf | src/set/set.c:204-224 | a set like a, sized like the iterated set, holding exactly the elements common to both |
| Sets.UnionOf | src/set/set.c:164-189 | for compatible sets the result holds exactly the elements of a and of b, with a's variant and comparator |
| Sets.Union | src/set/set.c:153-190 | NULL exactly for incompatible sets; otherwise a new set holding exactly the elements of either |
| Sets.IntersectionOf | src/set/set.c:197-224 | for compatible sets the result holds exactly the elements of both |
| Sets.Intersection | src/set/set.c:192-225 | NULL exactly for incompatible sets; otherwise a new set holding exactly the common elements |
| Sets.DifferenceOf | src/set/set.c:232-252 | for compatible sets the result holds exactly the elements of a that are not in b |
| Sets.Difference | src/set/set.c:227-253 | NULL exactly for incompatible sets; otherwise a new set holding exactly the elements of a not in b |
| Sets.IsSubset | src/set/set.c:255-275 | true exactly when the sets are compatible and every element of a is in b |
| TreeSets.KeysCount | src/set/tree_set.c:62-68 | the sorted in-order pairs of a tree have as many entries as distinct keys, so the tree size is the set size |
| TreeSets.CollectKeys | src/set/tree_set.c:72-97 | the list holds the visited keys in visiting order |
| TreeSets.TreeSet.constructor | src/set/tree_set.c:115-133 | a new tree set is empty |
| TreeSets.TreeSet.Add | src/set/tree_set.c:15-32 | NULL adds nothing; otherwise the element joins the set; true exactly when it was new |
| TreeSets.TreeSet.Contains | src/set/tree_set.c:34-45 | true exactly for a non-NULL element of the set |
| TreeSets.TreeSet.Remove | src/set/tree_set.c:47-60 | NULL removes nothing; otherwise the element leaves the set; true exactly when it was there |
| TreeSets.TreeSet.Size | src/set/tree_set.c:62-68 | the number of elements |
| TreeSets.TreeSet.ToList | src/set/tree_set.c:80-97 | the elements in strictly ascending order, each exactly once |
| HashSets.KeysCount | src/set/hash_set.c:62-68 | the map keys standing for the elements are as many as the elements |
| HashSets.KeysFacts | src/set/hash_set.c:17-60 | the map keys never include NULL and track adding and removing an element |
| HashSets.AppendChain | src/set/hash_set.c:70-91 | appending one bucket's keys keeps the list free of repeats and adds exactly that bucket's keys |
| HashSets.CollectKeys | src/set/hash_set.c:70-91 | walking every bucket lists each key of the map exactly once |
| HashSets.HashSet.constructor | src/set/hash_set.c:109-127 | a new hash set is empty over a map of at least the initial capacity |
| HashSets.HashSet.Add | src/set/hash_set.c:17-34 | NULL adds nothing; otherwise the element joins the set; true exactly when it was new |
| HashSets.HashSet.Contains | src/set/hash_set.c:36-47 | true exactly for a non-NULL element of the set |
| HashSets.HashSet.Remove | src/set/hash_set.c:49-60 | NULL removes nothing; otherwise the element leaves the set; true exactly when it was there |
| HashSets.HashSet.Size | src/set/hash_set.c:62-68 | the number of elements |
| HashSets.HashSet.ToList | src/set/hash_set.c:70-91 | a list without repeats of exactly the elements |
| HashMap.Lookup | src/map/hash_map.c:148-164 | a lookup finds data exactly for a stored key |
| HashMap.Find | src/map/hash_map.c:153-160 | the chain walk returns the data of the first entry with the key; HashMap.FindFirst, FindNone, FindOverwrite and FindUnlink state what it finds |
| HashMap.FindFirst | src/map/hash_map.c:117-124 | walking a chain stops at the first entry with the key and yields its data |
| HashMap.FindNone | src/map/hash_map.c:153-163 | walking a chain finds nothing exactly when no entry has the key |
| HashMap.FindOverwrite | src/map/hash_map.c:117-122 | overwriting the first entry with a key changes the lookup of that key only |
| HashMap.FindUnlink | src/map/hash_map.c:180-193 | unlinking an entry from a chain without repeated keys makes its key unfindable and leaves other lookups alone |
| HashMap.IndexOf | src/map/hash_map.c:117-124 | the position of the first entry with the key, or -1 exactly when no entry has it |
| HashMap.Prepend | src/map/hash_map.c:126-133 | linking an entry for a new key at the head of its bucket adds exactly that key and data to the table |
| HashMap.Overwrite | src/map/hash_map.c:117-122 | replacing an entry's data maps its key to the new data and changes nothing else |
| HashMap.Unlink | src/map/hash_map.c:180-189 | unlinking an entry removes exactly its key from the table |
| HashMap.TableBucket | src/map/hash_map.c:148-164 | in a well-formed table every entry sits in the bucket its key hashes to, so a bucket holds all the keys hashing to it |
| HashMap.MoveChain | src/map/hash_map.c:80-87 | moving one old chain into the new buckets keeps the table well formed and adds exactly that chain's keys and data |
| HashMap.Redistribute | src/map/hash_map.c:69-92 | rehashing every entry into a new bucket array of the new capacity gives a well-formed table with the same contents |
| HashMap.DefaultHashInRange | src/map/hash_map.c:24-58 | the default hash always yields a valid bucket index and sends the NULL key to bucket 0 |
| HashMap.DefaultHash | src/map/hash_map.c:37 | bernstein_hash is the hash when none is given; HashMap.DefaultHashInRange states that it yields a valid bucket and sends NULL to 0 |
| HashMap.HashMap.constructor | src/map/hash_map.c:24-58 | a new map is empty, its capacity the request raised to the minimum, and it uses the given hash or the default |
| HashMap.HashMap.Rehash | src/map/hash_map.c:69-92 | the capacity doubles and the contents stay the same |
| HashMap.HashMap.Put | src/map/hash_map.c:106-136 | the key maps to the data afterwards and nothing else changes; the capacity doubles exactly when the load factor was above 3/4 |
| HashMap.HashMap.Get | src/map/hash_map.c:148-164 | the data stored under the key, NULL when absent; the NULL key is looked up in bucket 0 only, so it is missed when the hash puts it elsewhere |
| HashMap.HashMap.Remove | src/map/hash_map.c:173-201 | the data stored under the key (NULL when absent), and the key is no longer stored |
| HashMap.HashMap.Size | src/map/hash_map.c:106-201 | the number of stored keys |
| HashMap.CreateMap | src/map/map.c:18-27 | NULL exactly for an unknown map type; otherwise an empty map, thread-safe exactly for the hash-table type |
| HashMapExamples.NullKeyRoundTrip | test/test_hash.c:128-135 | data stored under the NULL key is found again |
| HashMapExamples.DuplicateKeyKeepsLast | test/test_hash.c:116-126 | a second put under the same key replaces the data and keeps one entry |
| HashMapExamples.RemovedKeyIsGone | test/test_hash.c:75-84 | removing a key returns its data and a later get finds nothing |
| HashMapExamples.PutRemoveCycles | test/test_hash.c:152-164 | any number of put/remove rounds on one key leaves the map empty |
| HashMapExamples.FifteenKeys | test/test_hash.c:97-114 | fifteen distinct keys give size fifteen, each found right after its put |
| HashFunctions.NulIndex | src/map/map.c:46-57 | the position of the first zero byte, or the buffer length when there is none |
| HashFunctions.CString | src/map/map.c:46-57 | the key text is the prefix of the buffer before the first zero byte and holds no zero byte |
| HashFunctions.NulAt | src/map/map.c:46-57 | a zero byte with none before it ends the key text |
| HashFunctions.Reduce | src/map/map.c:46-57 | the final hash % capacity lies in [0, capacity) |
| HashFunctions.FoldBytes | src/map/map.c:51-55 | the byte loop every hash runs, from its seed; HashFunctions.Accumulate states that the loop computes it |
| HashFunctions.BernsteinStep | src/map/map.c:54 | hash * 33 + c on 64 bits; HashFunctions.BernsteinHash states the range of its fold |
| HashFunctions.Fnv1aStep | src/map/map.c:75-76 | xor the byte in, then multiply by 16777619 on 64 bits; HashFunctions.Fnv1aHash states the range of its fold |
| HashFunctions.XorStep | src/map/map.c:97 | the shift-xor step on 64 bits; HashFunctions.XorHash states the range of its fold |
| HashFunctions.RotationalStep | src/map/map.c:118 | the rotate-like step on 64 bits; HashFunctions.RotationalHash states the range of its fold |
| HashFunctions.AdditiveStep | src/map/map.c:139 | the byte added modulo 2^64; HashFunctions.AdditiveStepCommutes states that its steps commute |
| HashFunctions.BernsteinHash | src/map/map.c:46-57 | the djb2 hash is a bucket index in [0, capacity), 0 for a NULL key |
| HashFunctions.Fnv1aHash | src/map/map.c:68-79 | the FNV-1a hash is a bucket index in [0, capacity), 0 for a NULL key |
| HashFunctions.XorHash | src/map/map.c:90-100 | the shift-xor hash is a bucket index in [0, capacity), 0 for a NULL key |
| HashFunctions.RotationalHash | src/map/map.c:111-121 | the rotational hash is a bucket index in [0, capacity), 0 for a NULL key |
| HashFunctions.AdditiveHash | src/map/map.c:132-142 | the additive hash is a bucket index in [0, capacity), 0 for a NULL key |
| HashFunctions.AdditiveStepCommutes | src/map/map.c:132-142 | adding bytes in either order gives the same sum |
| HashFunctions.FoldPermutation | src/map/map.c:132-142 | a hash whose step commutes gives the same value for any rearrangement of the key's bytes |
| HashFunctions.AdditiveHashIgnoresOrder | src/map/map.c:132-142 | keys whose texts hold the same bytes in any order collide under the additive hash |
| HashFunctions.HashAt | src/map/map.c:46-142 | each of the five hashes yields a bucket index in [0, capacity), 0 for a NULL key |
| HashFunctions.Accumulate | src/map/map.c:46-57 | the loop over the key's bytes computes the fold of the step over the text before its zero byte |
| HashFunctions.Hash | src/map/map.c:46-142 | the selected hash function returns HashAt(kind, key, capacity), a bucket index |
| BloomFilters.Fnv1a64Seeded | src/bloom_filter/bloom_filter.c:19-27 | the loop computes the 64-bit FNV-1a fold of the bytes starting from the offset basis xor the seed |
| BloomFilters.Fnv64Step | src/bloom_filter/bloom_filter.c:23-24 | one FNV-1a 64 round; BloomFilters.Fnv1a64Seeded states that the loop folds it over the bytes |
| BloomFilters.Stride | src/bloom_filter/bloom_filter.c:134-137 | the second hash is never zero: it is the seeded FNV-1a hash, replaced by the fixed fallback exactly when that hash is zero |
| BloomFilters.Start | src/bloom_filter/bloom_filter.c:133 | the first hash, seeded with 0x243f6a8885a308d3; BloomFilters.AddProbesBits and NoFalseNegatives state the probes it starts |
| BloomFilters.ProbeIndex | src/bloom_filter/bloom_filter.c:37-40 | the probe (h1 + i * h2 on 64 bits) mod m is a bit position below m |
| BloomFilters.Probe | src/bloom_filter/bloom_filter.c:139-140 | the i-th probe of an element; BloomFilters.AddProbesBits states that exactly these bits get set |
| BloomFilters.ByteCount | src/bloom_filter/bloom_filter.c:81 | the ceil(m / 8) bytes that hold m bits; BloomFilters.ByteInRange states that every bit below m has its byte |
| BloomFilters.ByteInRange | src/bloom_filter/bloom_filter.c:29-35 | every bit position below m falls in a byte of the ceil(m / 8)-byte array |
| BloomFilters.WithBit | src/bloom_filter/bloom_filter.c:29-31 | setting a bit keeps the array length |
| BloomFilters.ByteBit | src/bloom_filter/bloom_filter.c:29-35 | or-ing bit k into a byte sets bit k and leaves the other seven bits as they were |
| BloomFilters.SetThenGet | src/bloom_filter/bloom_filter.c:29-35 | after setting bit idx, bit j reads set exactly when j is idx or it was set before |
| BloomFilters.SetBit | src/bloom_filter/bloom_filter.c:29-31 | the array becomes WithBit(old array, idx) |
| BloomFilters.GetBit | src/bloom_filter/bloom_filter.c:33-35 | bit idx % 8 of byte idx / 8; BloomFilters.SetThenGet and ByteBit state how it reads after a set |
| BloomFilters.AddProbes | src/bloom_filter/bloom_filter.c:139-142 | setting the k probe bits keeps the array length |
| BloomFilters.AddProbesBits | src/bloom_filter/bloom_filter.c:139-142 | after an add, a bit is set exactly when it was set before or it is one of the element's k probes |
| BloomFilters.NoFalseNegatives | src/bloom_filter/bloom_filter.c:128-165 | after an element is added, every one of its probes is set, so might_contain answers true for it |
| BloomFilters.StaysSet | src/bloom_filter/bloom_filter.c:128-145 | adding other elements never clears the probes of an element already added |
| BloomFilters.ClearedHoldsNothing | src/bloom_filter/bloom_filter.c:147-175 | on an all-zero array (with k > 0) no element's probes are all set, so after a clear nothing might be contained |
| BloomFilters.BloomFilter.constructor | src/bloom_filter/bloom_filter.c:91-117 | a new filter has m and k as given, all bits zero and nothing added |
| BloomFilters.BloomFilter.Add | src/bloom_filter/bloom_filter.c:128-145 | a NULL or empty element (or m or k zero) changes nothing; otherwise the element's k probe bits are set and the item count grows by one |
| BloomFilters.BloomFilter.MightContain | src/bloom_filter/bloom_filter.c:147-165 | true exactly for a usable element all of whose k probe bits are set |
| BloomFilters.BloomFilter.Clear | src/bloom_filter/bloom_filter.c:167-175 | with m zero nothing changes; otherwise every byte becomes zero and the item count 0 |
| BloomFilters.CreateBloomFilter | src/bloom_filter/bloom_filter.c:91-117 | NULL exactly when the expected count is not positive or the rate is outside (0, 1); otherwise an empty filter with the given m and k |
| Matrices.TransposeTwice | src/matrix/matrix.c:241-260 | transposing twice gives back the original entries |
| Matrices.TransposeSum | src/matrix/matrix.c:125-142 | the transpose of a sum is the sum of the transposes |
| Matrices.DotTransposed | src/matrix/matrix.c:163-183 | the dot product of row i and column j equals that of the transposes' row j and column i |
| Matrices.TransposeProduct | src/matrix/matrix.c:163-183 | the transpose of a product AB is the product of the transposes in reverse order |
| Matrices.Matrix.constructor | src/matrix/matrix.c:21-65 | a new matrix has the requested positive dimensions (its entries are not initialised) |
| Matrices.Matrix.Add | src/matrix/matrix.c:125-142 | NULL exactly for a NULL operand or different dimensions; otherwise a new matrix of the entrywise sums |
| Matrices.Matrix.Subtract | src/matrix/matrix.c:144-161 | NULL exactly for a NULL operand or different dimensions; otherwise a new matrix of the entrywise differences |
| Matrices.Matrix.Multiply | src/matrix/matrix.c:163-183 | NULL exactly for a NULL operand or when the column count differs from the other's row count; otherwise a new rows x other.cols matrix whose entry (i, j) is the dot product of row i and column j |
| Matrices.Matrix.Determinant | src/matrix/matrix.c:185-239 | error is set to 1 and the result is 0 exactly for a non-square matrix; otherwise error 0 and the elimination's value |
| Matrices.Matrix.Transpose | src/matrix/matrix.c:241-260 | a new cols x rows matrix whose entry (j, i) is the original's (i, j) |
| Matrices.Matrix.Inverse | src/matrix/matrix.c:262-336 | NULL for a non-square matrix or a singular one (no elimination result); otherwise a new square matrix holding the elimination's result |
| Matrices.Matrix.Resize | src/matrix/matrix.c:338-373 | the matrix takes the new dimensions, entries within both old and new bounds are kept and every entry of an added row is 0 |
| Matrices.Matrix.Copy | src/matrix/matrix.c:375-386 | a new matrix of the same dimensions and entries |
| Matrices.RowTimesColumn | src/matrix/matrix.c:172-178 | the inner loop accumulates the product entry (i, j) |
| Matrices.ProductAt | src/matrix/matrix.c:163-183 | every entry of the product is the dot product of a row and a column |
| Matrices.CreateMatrix | src/matrix/matrix.c:21-65 | NULL exactly when a dimension is not positive; otherwise a matrix of those dimensions |
| Matrices.Resized | src/matrix/matrix.c:87-102 | the resized data has the new length, keeps the old values where they fit and is 0 in the added slots |
| Matrices.GrowThenShrink | src/matrix/matrix.c:87-102 | growing a vector and shrinking it back to its old size restores it |
| Matrices.ResizeTwice | src/matrix/matrix.c:87-102 | resizing to n and then to a smaller m is the same as resizing to m directly |
| Matrices.Vector.constructor | src/matrix/matrix.c:67-85 | a new vector has the requested size and all entries 0 |
| Matrices.Vector.Resize | src/matrix/matrix.c:87-102 | a negative size changes nothing; otherwise the size becomes newSize and the data Resized(old data, newSize) |
| Matrices.CreateVector | src/matrix/matrix.c:67-85 | NULL exactly for a negative size; otherwise a vector of that size, all entries 0 |
| Sorter.Swap | src/sort/sort.c:21-29 | for two valid indices the items at i and j trade places and nothing else changes |
| Sorter.Partition | src/sort/sort.c:45-57 | the segment [low, high] is rearranged in place (nothing outside it moves) so that the returned pivot position has no larger key before it and only larger keys after it |
| Sorter.Round | src/sort/sort.c:76-89 | one pass of the loop: items kept, stack entries matching the pending segments, order kept outside them, pending width strictly smaller |
| Sorter.PartitionScan | src/sort/sort.c:49-54 | after the scan, [low, i] holds keys not above the pivot and (i, high) keys above it, with the pivot still at high |
| Sorter.ScanStep | src/sort/sort.c:50-53 | one scan step keeps the partition invariant one position further |
| Sorter.ScanSwaps | src/sort/sort.c:50-53 | swapping an item not above the pivot to position i + 1 keeps the partition invariant |
| Sorter.Sort | src/sort/sort.c:68-91 | the list ends sorted by key and holds the same items (a permutation of the old contents) |
| Sorter.Push | src/sort/sort.c:81-88 | the sides of two or more items are pushed, left first, so the stack holds the pending segments after the partition |
| Sorter.Shuffle | src/sort/sort.c:103-109 | whatever the random draws, the list holds the same items afterwards |
| Sorter.Reverse | src/sort/sort.c:120-128 | the list becomes its reversal |
| Sorter.BinarySearch | src/sort/sort.c:143-160 | either -1 or an index whose item has the searched key; on a sorted list -1 means no item has that key |
| Sorter.Copy | src/sort/sort.c:172-178 | the source items are inserted in order at the front of the destination; the source is unchanged |
| Sorter.Min | src/sort/sort.c:261-275 | NULL exactly for an empty list; otherwise the first item of least key |
| Sorter.Max | src/sort/sort.c:235-249 | NULL exactly for an empty list; otherwise the first item of greatest key |
| Sorter.PairUpdate | src/sort/sort.c:205-214 | one pair step keeps a minimum no larger and a maximum no smaller than both items and the previous extremes, each taken from them |
| Sorter.ScanPairsAsWritten | src/sort/sort.c:202-215 | the as-written pair loop from position i on yields items of the list or the starting extremes |
| Sorter.MinMaxAsWritten | src/sort/sort.c:191-222 | as written, NULL/NULL exactly for an empty list, otherwise two items of the list (not necessarily the extremes) |
| Sorter.MinMaxAsWrittenSkipsIndexOne | src/sort/sort.c:202-204 | as written, [5, 1, 9] reports minimum 5: item 1 is never compared |
| Sorter.MinMaxAsWrittenSkipsLastIndex | src/sort/sort.c:202-204 | as written, [1, 2, 3, 0] reports minimum 1: the last item is never compared |
| Sorter.MinMax | src/sort/sort.c:191-222 | corrected: NULL/NULL exactly for an empty list, otherwise an item of least key and an item of greatest key |
| Sorter.SwapAsWritten | src/sort/sort.c:21-29 | as written, with both indices valid the two items trade places |
| Sorter.GetOrNull | src/list/array_list.c:71-75 | the item at the index, NULL outside 0 <= index < size |
| Sorter.RemoveIfPresent | src/list/array_list.c:77-82 | RemoveAt in range, no change outside it |
| Sorter.InsertIfInRange | src/list/array_list.c:62-69 | InsertAt for 0 <= index <= size, no change otherwise, NULL stored like any pointer |
| Sorter.EmptyQuickSortAsWrittenAddsNull | src/sort/sort.c:68-91 | as written, sorting an empty list performs swap(0, -1), which leaves the list holding one NULL item |
| QuickSortSegments.NothingPendingIsSorted | src/sort/sort.c:76-89 | when no segment is pending the list is sorted |
| QuickSortSegments.WholeListPending | src/sort/sort.c:72-74 | the first pushed segment [0, n-1] covers the whole list, so everything outside it is trivially sorted |
| QuickSortSegments.AfterPartition | src/sort/sort.c:77-88 | popping a segment and pushing its sides adds at most one segment to the stack |
| QuickSortSegments.PivotLands | src/sort/sort.c:55-56 | the final swap puts the pivot at i + 1 with no larger key before it and only larger keys after it |
| QuickSortSegments.RearrangedKeepsItems | src/sort/sort.c:45-57 | rearranging within a segment keeps the list's items |
| QuickSortSegments.AfterPartitionWellFormed | src/sort/sort.c:77-88 | the pushed segments stay disjoint, inside the list and at most n of them, so the 2n-int stack never overflows |
| QuickSortSegments.AfterPartitionShrinks | src/sort/sort.c:77-88 | every round lowers the total width of the pending segments, so the loop ends |
| QuickSortSegments.PartitionStep | src/sort/sort.c:77-88 | after partitioning the top segment, every pair of positions not in one pending segment is in order |
| QuickSortSegments.QuickStep | src/sort/sort.c:76-89 | one round keeps the items, keeps the stack well formed, keeps the order outside pending segments and shrinks the pending width |
| Graphs.GrownCapacity | src/graph/graph.c:64-73 | the grown capacity is at least the old one and the one required, stays put when the old one suffices, and is minimal among doublings (half of it would be too small) |
| Graphs.GrownIsCapacity | src/graph/graph.c:69-73 | doubling from a capacity of the form 8 * 2^k yields another capacity of that form |
| Graphs.CapacityAtLeast8 | src/graph/graph.c:70 | every capacity the graph reaches is at least the initial 8 |
| Graphs.Pad | src/graph/graph.c:105-114 | copying the old per-vertex arrays into zero-filled larger ones keeps the old prefix and fills the rest with the empty value |
| Graphs.CopyInto | src/graph/graph.c:105-114 | the destination's first part becomes the source array and its tail is unchanged |
| Graphs.NoEdgeCells | src/graph/graph.c:94-102 | a fresh cap x cap matrix with every cell holding the no-edge sentinel |
| Graphs.CopyCells | src/graph/graph.c:116-120 | every old cell is copied to the same (row, column) of the larger matrix, other cells untouched |
| Graphs.Graph.View | src/graph/graph_internal.h:14-25 | the graph read as an abstract network: its kind, presence flags, vertex count and for every slot the outgoing edges held by the chosen representation |
| Graphs.Graph.ViewWellFormed | src/graph/graph.c:188-236 | in a valid graph the abstract network is well formed and its edge weights are the graph's stored weights |
| Graphs.Graph.ViewUnique | src/graph/adjacency_list.c:38-58 | no vertex has two outgoing records to the same target |
| Graphs.Graph.ViewWeight | src/graph/graph.c:261-270 | the weight of (u, v) in the abstract network equals the stored weight |
| Graphs.Graph.EdgesBetweenPresent | src/graph/graph.c:219-236 | an edge is stored only between two present vertices |
| Graphs.Graph.constructor | src/graph/graph.c:134-155 | a new graph of the given kind and representation has capacity 8, no vertex and no edge |
| Graphs.Graph.EnsureCapacity | src/graph/graph.c:59-132 | a negative id changes nothing; otherwise capacity becomes the grown capacity, presence flags and adjacency lists are padded, matrix cells are copied and the new ones hold no edge, and the vertex count and every edge weight are unchanged |
| Graphs.Graph.GrowLists | src/graph/graph.c:86-92 | growing an adjacency-list graph pads the flags and list slots and keeps every edge |
| Graphs.Graph.GrowCells | src/graph/graph.c:93-120 | growing an adjacency-matrix graph copies the old cells, marks new ones as no edge and keeps every edge |
| Graphs.Graph.GrownFlags | src/graph/graph.c:75-107 | a fresh flag buffer of the new capacity holding the old flags then false, with the same vertices marked |
| Graphs.Graph.GrownSlots | src/graph/graph.c:86-114 | a fresh list buffer of the new capacity holding the old lists then NULL slots |
| Graphs.Graph.HasVertex | src/graph/graph.c:177-182 | true exactly when the id is within capacity and its slot is marked present |
| Graphs.Graph.VertexCount | src/graph/graph.c:184-186 | the count equals the number of marked presence flags |
| Graphs.Graph.MarkPresent | src/graph/graph.c:198-210 | the slot is marked present and the count grows by one exactly when it was not present before; edges untouched |
| Graphs.Graph.AddVertex | src/graph/graph.c:188-217 | a negative id is ignored; otherwise capacity grows to fit the id, the id becomes present, the count grows by one exactly when it was new, and no edge changes |
| Graphs.Graph.AddEndpoints | src/graph/graph.c:224-225 | both endpoints become present after growing capacity for each in turn, the count grows by the number of new distinct endpoints |
| Graphs.Graph.LinkLists | src/graph/adjacency_list.c:80-89 | the edge (and its reverse in an undirected graph) gets the new weight, the touched lists are updated in place or appended, all other weights unchanged |
| Graphs.Graph.LinkCells | src/graph/adjacency_matrix.c:27-36 | the cell (and its mirror in an undirected graph) gets the new weight, all other weights unchanged |
| Graphs.Graph.AddEdge | src/graph/graph.c:219-236 | negative ids change nothing; otherwise both endpoints are added and the weight of (from, to), and of (to, from) when undirected, becomes the given weight, every other weight unchanged |
| Graphs.Graph.UnlinkLists | src/graph/adjacency_list.c:91-100 | the record (and its reverse when undirected) is removed from the lists, every other weight unchanged |
| Graphs.Graph.UnlinkCells | src/graph/adjacency_matrix.c:38-47 | the cell (and its mirror when undirected) becomes no edge, every other weight unchanged |
| Graphs.Graph.RemoveEdge | src/graph/graph.c:238-248 | when both endpoints are present the edge (and its reverse when undirected) is gone and nothing else changes; otherwise nothing changes |
| Graphs.Graph.HasEdge | src/graph/graph.c:250-259 | true exactly when both endpoints are present and a finite weight is stored from one to the other |
| Graphs.Graph.GetEdgeWeight | src/graph/graph.c:261-270 | the stored weight when both endpoints are present, the no-edge sentinel otherwise |
| Graphs.Graph.NeighborsLinked | src/graph/graph.c:272-281 | a target is listed among a present vertex's out-edges exactly when it is present and the edge has a finite weight |
| Graphs.Graph.GetNeighbors | src/graph/graph.c:272-281 | empty for an absent vertex; otherwise the out-edge targets in stored order, and a vertex is listed exactly when it is present and joined by an edge |
| Graphs.Graph.Free | src/graph/graph.c:157-175 | every adjacency list is released |
| AdjacencyLists.FirstIndex | src/graph/adjacency_list.c:16-36 | -1 when no record has that target, otherwise the index of the first record that does |
| AdjacencyLists.FirstIndexLookup | src/graph/adjacency_list.c:111-119 | the first matching record carries the weight lookup returns; none means no edge |
| AdjacencyLists.Put | src/graph/adjacency_list.c:38-58 | overwrite the first record for the target or append one; AdjacencyLists.PutLookup and PutPlace state its lookups and its shape |
| AdjacencyLists.PutLookup | src/graph/adjacency_list.c:38-58 | adding keeps targets unique and afterwards the target maps to the new weight while every other lookup is unchanged |
| AdjacencyLists.PutPlace | src/graph/adjacency_list.c:44-57 | a new target is appended at the end; an existing one is updated in place without changing the list's targets or length |
| AdjacencyLists.Drop | src/graph/adjacency_list.c:60-78 | drop the first record for the target, keeping the others in order; AdjacencyLists.DropLookup, DropShifts and DropIsWithout state its lookups and its shape |
| AdjacencyLists.DropLookup | src/graph/adjacency_list.c:60-78 | removal keeps targets unique, the target then has no edge and every other lookup is unchanged |
| AdjacencyLists.DropShifts | src/graph/adjacency_list.c:70-77 | removing the found record shifts the later records down by one, as an array list removal does |
| AdjacencyLists.DropIsWithout | src/graph/adjacency_list.c:60-78 | with unique targets, removing the first match equals filtering out every record with that target |
| AdjacencyLists.FindEdge | src/graph/adjacency_list.c:16-36 | the linear scan returns the index of the first record with that target, -1 when none or when the list is missing |
| AdjacencyLists.AddOneEdge | src/graph/adjacency_list.c:38-58 | only the from list changes: it becomes the old records with the target's weight updated or the edge appended |
| AdjacencyLists.RemoveOneEdge | src/graph/adjacency_list.c:60-78 | only the from list changes: its first record for the target is removed, a missing list stays missing |
| AdjacencyLists.AddEdge | src/graph/adjacency_list.c:80-89 | one list updated for a directed graph or a self loop, both endpoint lists otherwise |
| AdjacencyLists.RemoveEdge | src/graph/adjacency_list.c:91-100 | one record removed for a directed graph or a self loop, the record in each endpoint's list otherwise |
| AdjacencyLists.HasEdge | src/graph/adjacency_list.c:102-109 | true exactly when the from list holds a record for the target |
| AdjacencyLists.GetEdgeWeight | src/graph/adjacency_list.c:111-119 | the weight of the first record for the target, or no edge |
| AdjacencyLists.LiveTargets | src/graph/adjacency_list.c:136-146 | a vertex is listed exactly when it is in range, present and the target of some record |
| AdjacencyLists.LiveTargetsAll | src/graph/adjacency_list.c:142-144 | when every record points to a present vertex, filtering skips nothing |
| AdjacencyLists.GetNeighbors | src/graph/adjacency_list.c:121-148 | empty for an out-of-range vertex; otherwise the record targets that are present, in list order |
| AdjacencyLists.FreeEdges | src/graph/adjacency_list.c:150-168 | every slot is left without a list |
| AdjacencyMatrices.RowEdges | src/graph/adjacency_matrix.c:73-81 | the records drawn from a matrix row point to present vertices below the bound whose cell holds that finite weight, in strictly increasing target order |
| AdjacencyMatrices.RowEdgesComplete | src/graph/adjacency_matrix.c:73-81 | every present target below the bound whose cell has a finite weight is among the records |
| AdjacencyMatrices.RowLookup | src/graph/adjacency_matrix.c:56-61 | the row records have unique targets and a present target's lookup equals its cell |
| AdjacencyMatrices.AddEdge | src/graph/adjacency_matrix.c:27-36 | the cell (from, to), and (to, from) when undirected, receives the weight; every other cell is unchanged |
| AdjacencyMatrices.RemoveEdge | src/graph/adjacency_matrix.c:38-47 | the cell (from, to), and (to, from) when undirected, becomes no edge; every other cell is unchanged |
| AdjacencyMatrices.HasEdge | src/graph/adjacency_matrix.c:49-54 | true exactly when the cell holds a finite weight |
| AdjacencyMatrices.GetEdgeWeight | src/graph/adjacency_matrix.c:56-61 | the cell's content |
| AdjacencyMatrices.GetNeighbors | src/graph/adjacency_matrix.c:63-84 | empty for an out-of-range vertex; otherwise the present columns with a finite cell, in increasing order |
| AdjacencyMatrices.ScanRow | src/graph/adjacency_matrix.c:73-81 | the column scan collects exactly the targets of the row's records |
| GraphNets.Targets | src/graph/graph.c:272-281 | the targets of a vertex's out-records, one per record and in record order |
| GraphNets.RecordIsArc | src/graph/graph_internal.h:9-12 | every out-record of a vertex is an arc to a vertex, and the arc's weight is the record's weight |
| GraphNets.TargetsAreArcs | src/graph/graph.c:272-281 | a vertex is among a vertex's record targets exactly when there is an arc to it |
| GraphNets.RelaxedIsShortest | src/graph/graph_algorithms.c:380-414 | a distance table that no arc can relax, with every finite entry witnessed by a path from the source and the source at most 0, gives 0 at the source, finite entries exactly at reachable vertices, shortest weights there, and rules out a negative cycle reachable from the source |
| GraphNets.ShortenPath | src/graph/graph_algorithms.c:334-378 | without a reachable negative cycle every path from the source can be replaced by a simple path to the same end that is no heavier |
| GraphNets.DistinctPathBounded | src/graph/graph_algorithms.c:334-335 | a simple path has at most as many vertices as the graph, which is why count - 1 relaxation rounds suffice |
| Traversals.ClosedListing | src/graph/graph_algorithms.c:57-86 | a listing that holds the start, lists only vertices reachable from it and is closed under arcs lists exactly the vertices reachable from the start |
| Traversals.DfsFromExtends | src/graph/graph_algorithms.c:116-145 | the depth-first worklist only appends to what is already listed, keeps it duplicate free and lists every vertex it is given |
| Traversals.DfsFromClosed | src/graph/graph_algorithms.c:116-145 | when every arc out of the listed vertices leads to a listed or pending vertex, the finished listing is closed under arcs |
| Traversals.DfsFromReachable | src/graph/graph_algorithms.c:116-145 | when the listing and the worklist hold only vertices reachable from the start, so does the finished listing |
| Traversals.DfsSkips | src/graph/graph_algorithms.c:117-120 | a visited or invalid worklist entry can be dropped from anywhere in the worklist without changing the result, as the visited check on pop does |
| Traversals.DfsOrderTraverses | src/graph/graph_algorithms.c:93-199 | the depth-first preorder starts at the start vertex, has no repeats and lists exactly the vertices reachable from it (empty for a non-vertex) |
| Traversals.Bfs | src/graph/graph_algorithms.c:33-91 | the breadth-first order is empty for a non-vertex, otherwise starts at the start vertex, repeats nothing and lists exactly the vertices reachable from it |
| Traversals.DfsIterative | src/graph/graph_algorithms.c:93-150 | the stack-based order equals the depth-first preorder specification (targets pushed in reverse so the first record is visited first) and is therefore a traversal |
| Traversals.PushTargets | src/graph/graph_algorithms.c:124-144 | pushing the unvisited targets in reverse record order leaves a stack whose pops continue the preorder as if the targets, in record order, came before the old stack |
| Traversals.Visit | src/graph/graph_algorithms.c:152-177 | visiting an unvisited vertex lists it and all unvisited vertices reached from it in preorder, exactly as the specification's worklist would |
| Traversals.VisitTarget | src/graph/graph_algorithms.c:159-165 | a target is skipped when invalid or visited and visited recursively otherwise, matching one worklist step |
| Traversals.DfsRecursive | src/graph/graph_algorithms.c:179-199 | the recursive order equals the same depth-first preorder specification as the iterative one, and is a traversal |
| ShortestPaths.MinEntry | src/graph/graph_algorithms.c:206-213 | the entry the min-priority queue pops has no smaller distance than any queued entry |
| ShortestPaths.PopStale | src/graph/graph_algorithms.c:259-261 | dropping a popped entry whose distance exceeds the vertex's current one keeps the queue invariants |
| ShortestPaths.PopFresh | src/graph/graph_algorithms.c:249-262 | with non-negative weights a popped minimal, current entry carries its vertex's final shortest distance, so relaxing its records can start |
| ShortestPaths.RelaxFrom | src/graph/graph_algorithms.c:263-304 | relaxing every record of the popped vertex lowers targets only along real arcs, queues every lowered target and settles the vertex |
| ShortestPaths.DijkstraStep | src/graph/graph_algorithms.c:249-305 | one queue iteration keeps the frontier invariant and either shrinks the queue or settles one more vertex, so the loop ends |
| ShortestPaths.Dijkstra | src/graph/graph_algorithms.c:215-314 | no table for a start that is not a vertex; otherwise 0 at the start, a finite distance exactly at the reachable vertices and there the least weight of any path |
| ShortestPaths.RelaxRecords | src/graph/graph_algorithms.c:343-372 | relaxing one vertex's records only lowers entries, keeps every finite entry the weight of a real path from the start, and reports no update only when none of those records can relax |
| ShortestPaths.Pass | src/graph/graph_algorithms.c:336-377 | one round over all vertices keeps the table sound, relaxes every record seen, and reports no update only when the table is fully relaxed |
| ShortestPaths.BoundsStep | src/graph/graph_algorithms.c:335-378 | after k rounds every entry is at most the weight of every path of at most k arcs from the start |
| ShortestPaths.PassesSettle | src/graph/graph_algorithms.c:334-378 | after count - 1 rounds the table is fully relaxed whenever no negative cycle is reachable from the start |
| ShortestPaths.CheckRelaxed | src/graph/graph_algorithms.c:380-414 | the final scan succeeds exactly when no record out of a reached vertex can still lower its target |
| ShortestPaths.BellmanFord | src/graph/graph_algorithms.c:316-418 | fails for a start that is not a vertex and exactly when a negative cycle is reachable from the start; otherwise returns the shortest-distance table |
| ShortestPaths.LowerEntry | src/graph/graph_algorithms.c:455-456 | lowering one matrix entry to the weight of a real path changes that entry only and keeps the table sound |
| ShortestPaths.PairsInit | src/graph/graph_algorithms.c:425-473 | the initial matrix is sound, holds 0 on the diagonal of present vertices and for every arc at most its weight |
| ShortestPaths.RecordsIntoRow | src/graph/graph_algorithms.c:442-473 | loading one vertex's records leaves, for every arc out of it, an entry no larger than the arc's weight, keeping the table sound |
| ShortestPaths.PairsRow | src/graph/graph_algorithms.c:479-492 | relaxing row i through k makes every entry (i, j) at most the sum through k, keeping the table sound |
| ShortestPaths.PairsRound | src/graph/graph_algorithms.c:475-493 | after the round for k the table covers and bounds all simple paths whose inner vertices are below k + 1 |
| ShortestPaths.SplitDistinct | src/graph/graph_algorithms.c:475-493 | a simple path whose inner vertices are below k + 1 but not all below k splits at k into two such paths below k whose weights add up |
| ShortestPaths.FinishedTable | src/graph/graph_algorithms.c:475-496 | a table that covers and bounds through every id is the all-pairs answer |
| ShortestPaths.CoveredReachable | src/graph/graph_algorithms.c:475-496 | a finished entry is finite exactly when the column vertex is reachable from the row vertex |
| ShortestPaths.BoundedWalks | src/graph/graph_algorithms.c:475-496 | each finished entry is at most the weight of every simple path between the two vertices, and of every path when there is no negative cycle |
| ShortestPaths.NegativeDiagonal | src/graph/graph_algorithms.c:475-496 | a negative diagonal entry exposes a negative cycle through that vertex |
| ShortestPaths.FloydWarshall | src/graph/graph_algorithms.c:420-496 | no matrix for a graph without capacity; otherwise a square table whose entries are finite exactly for reachable pairs, are weights of real paths, are at most every simple path's weight, and with no negative cycle equal the shortest distances with 0 on the diagonal |
| Components.Component | src/graph/graph_algorithms.c:793-830 | the breadth-first sweep from an unvisited vertex of an undirected graph collects, start first and without repeats, exactly the vertices reachable from it, and marks them visited |
| Components.ClassesClosed | src/graph/graph_algorithms.c:788-833 | components that are each a reachability class together form a set no arc leaves |
| Components.ConnectedComponents | src/graph/graph_algorithms.c:767-838 | no answer for a directed graph; otherwise the components split the vertices into non-empty, disjoint lists, each exactly the vertices reachable from its first vertex |
| Components.TarjanVisit | src/graph/graph_algorithms.c:840-915 | visiting an unnumbered vertex numbers it and everything it reaches, keeps the stack and emitted components sound, emits only complete strong components, and returns a low link no larger than the vertex's index |
| Components.Push | src/graph/graph_algorithms.c:848-853 | numbering a new vertex gives it index and low link equal to the counter, bumps the counter and pushes it on the stack, keeping the invariant |
| Components.TarjanRecord | src/graph/graph_algorithms.c:858-875 | one record: an unnumbered target is visited and its low link taken, an on-stack target's index lowers the low link, anything else is skipped; the invariant and progress through the records are kept |
| Components.PopComponent | src/graph/graph_algorithms.c:898-914 | when the low link equals the index the stack above and including the vertex is popped and emitted as a complete strong component |
| Components.PopLoop | src/graph/graph_algorithms.c:904-911 | popping until the vertex leaves the stack below it, clears exactly the popped on-stack flags, and returns the popped vertices in pop order |
| Components.ReachDown | src/graph/graph_algorithms.c:898-911 | every vertex above a root on the stack reaches the root |
| Components.StrongComponents | src/graph/graph_algorithms.c:917-960 | a partition whose lists are rooted, closed downwards and reach their roots groups two vertices together exactly when each reaches the other |
| Components.SharedMutual | src/graph/graph_algorithms.c:917-960 | two vertices in one emitted component reach each other |
| Components.MutualShared | src/graph/graph_algorithms.c:917-960 | two vertices that reach each other are emitted in one component |
| Components.StronglyConnectedComponents | src/graph/graph_algorithms.c:917-960 | no answer for an undirected graph; otherwise a partition of the vertices, each component emitted after every component it reaches, and two vertices share a component exactly when each reaches the other |
| Orderings.CycleFromPredecessors | src/graph/graph_algorithms.c:1048-1056 | a non-empty set of vertices each entered by an arc from inside the set contains a directed cycle |
| Orderings.ForwardOrderAcyclic | src/graph/graph_algorithms.c:962-1058 | a listing of every vertex in which every arc goes forward rules out a directed cycle |
| Orderings.CountFrom | src/graph/graph_algorithms.c:986-1006 | scanning one vertex's records adds one to the in-degree of exactly the vertices it has an arc to |
| Orderings.CountIndegrees | src/graph/graph_algorithms.c:981-1007 | every entry is the number of vertices with an arc into that id |
| Orderings.ZeroQueue | src/graph/graph_algorithms.c:1009-1013 | the initial queue holds, once each, exactly the vertices of in-degree 0 |
| Orderings.KahnStart | src/graph/graph_algorithms.c:1009-1013 | the counted in-degrees with the zero queue start the Kahn invariant with an empty order |
| Orderings.Dequeue | src/graph/graph_algorithms.c:1015-1017 | taking the queue head and appending it to the order starts releasing its records under the invariant |
| Orderings.ReleaseOne | src/graph/graph_algorithms.c:1023-1030 | one record lowers its target's in-degree by one and queues the target exactly when that reaches 0 |
| Orderings.ReleaseAt | src/graph/graph_algorithms.c:1023-1030 | releasing record i of the dequeued vertex keeps the release invariant and moves it on to record i + 1 |
| Orderings.ReleaseStep | src/graph/graph_algorithms.c:1022-1031 | each released record keeps every in-degree equal to the arcs from vertices not yet ordered |
| Orderings.Release | src/graph/graph_algorithms.c:1019-1045 | after all records of the dequeued vertex are released the Kahn invariant holds again |
| Orderings.Stuck | src/graph/graph_algorithms.c:1048-1056 | when the queue empties before every vertex is ordered the graph has a directed cycle |
| Orderings.AllOrdered | src/graph/graph_algorithms.c:1048 | an order of vertex-count distinct vertices holds every vertex |
| Orderings.ForwardRespected | src/graph/graph_algorithms.c:1015-1046 | in the Kahn order every arc between ordered vertices goes from an earlier to a later position |
| Orderings.TopologicalSort | src/graph/graph_algorithms.c:962-1058 | no order exactly when the graph is undirected or has a directed cycle; otherwise every vertex once, with every arc going forward |
| CycleSearch.GrayCycle | src/graph/graph_algorithms.c:1072-1074 | an arc from the current search path back to a vertex on it closes a directed cycle |
| CycleSearch.FinishGray | src/graph/graph_algorithms.c:1096 | a vertex all of whose targets are finished becomes finished, keeping the colouring invariant |
| CycleSearch.DirectedDfs | src/graph/graph_algorithms.c:1060-1098 | reports a cycle only when one exists; otherwise the vertex and all it reaches end finished with the colouring invariant kept |
| CycleSearch.FinishedAcyclic | src/graph/graph_algorithms.c:1151-1161 | when every vertex is finished with every target finished before it there is no directed cycle |
| CycleSearch.DirectedHasCycle | src/graph/graph_algorithms.c:1146-1162 | true exactly when the directed graph has a cycle |
| CycleSearch.ActiveCycle | src/graph/graph_algorithms.c:1116-1118 | an arc from the current vertex to a vertex on the active path other than its parent closes a cycle |
| CycleSearch.BackEdge | src/graph/graph_algorithms.c:1116-1118 | an arc to an already visited vertex other than the parent can only lead to a vertex on the active path, so it exposes a cycle |
| CycleSearch.UndirectedDfs | src/graph/graph_algorithms.c:1100-1139 | reports a cycle only when one exists; otherwise the discovered vertices with their parents form a search forest whose only arcs are tree arcs |
| CycleSearch.ForestAcyclic | src/graph/graph_algorithms.c:1164-1178 | a search forest covering every vertex whose arcs are all tree arcs has neither a self-loop nor a simple cycle |
| CycleSearch.UndirectedHasCycle | src/graph/graph_algorithms.c:1164-1178 | true exactly when the undirected graph has a self-loop or a simple cycle through at least three vertices |
| CycleSearch.HasCycle | src/graph/graph_algorithms.c:1141-1179 | for a directed graph true exactly when there is a directed cycle, for an undirected one exactly when there is a self-loop or a simple cycle |
| SpanningTrees.FirstIsLeast | src/graph/graph_algorithms.c:16-26 | the first-vertex search gives -1 exactly when no vertex lies at or above the bound, and otherwise the least vertex there |
| SpanningTrees.FirstVertex | src/graph/graph_algorithms.c:16-26 | the scan returns the least present id, or -1 when there is none |
| SpanningTrees.Offers | src/graph/graph_algorithms.c:507-549 | every heap entry pushed for a vertex starts there and ends at a present vertex outside the tree |
| SpanningTrees.OffersArcs | src/graph/graph_algorithms.c:507-549 | the pushed entries are exactly the arcs, with their weights, from the vertex to present vertices outside the tree |
| SpanningTrees.PushEdges | src/graph/graph_algorithms.c:507-549 | the queue grows by exactly the entries offered for the vertex, in record order |
| SpanningTrees.MinEdge | src/graph/graph_algorithms.c:498-505 | the entry the min-heap pops weighs no more than any queued entry |
| SpanningTrees.PrimBegin | src/graph/graph_algorithms.c:581-582 | marking the start and pushing its arcs sets up the tree invariant with no tree edge |
| SpanningTrees.PrimStale | src/graph/graph_algorithms.c:589-592 | dropping a popped entry whose end is already in the tree keeps the invariant |
| SpanningTrees.PrimAccept | src/graph/graph_algorithms.c:594-596 | accepting the lightest entry to a vertex outside the tree adds the lightest arc leaving the tree, and pushing the new vertex's arcs keeps the invariant |
| SpanningTrees.TreeGrows | src/graph/graph_algorithms.c:594-595 | adding an attached edge keeps the tree's vertices distinct, marked and reachable from the start |
| SpanningTrees.HeapDry | src/graph/graph_algorithms.c:584 | once the queue is empty no arc leaves the tree |
| SpanningTrees.TreeFull | src/graph/graph_algorithms.c:584 | a tree of vertex-count distinct vertices reachable from the start holds every vertex reachable from it |
| SpanningTrees.PrimDone | src/graph/graph_algorithms.c:584-597 | when the loop stops the tree's vertices are exactly those reachable from the start |
| SpanningTrees.PrimRootVertex | src/graph/graph_algorithms.c:565 | the chosen start, the given vertex or else the first present one, is a vertex whenever the graph has one |
| SpanningTrees.Prim | src/graph/graph_algorithms.c:551-606 | no answer for a directed graph; empty for an empty graph; otherwise each edge is an arc from the tree grown so far to a new vertex and no arc leaving that tree is lighter, at most count - 1 edges, spanning exactly the vertices reachable from the start |
| SpanningForests.Upward | src/graph/graph_algorithms.c:680-701 | the candidates collected from one vertex's records go from it to a larger present id |
| SpanningForests.UpwardExact | src/graph/graph_algorithms.c:680-722 | a candidate is collected from a vertex exactly when it is an arc with its weight to a larger id |
| SpanningForests.CandidatesExact | src/graph/graph_algorithms.c:675-723 | the collected list holds exactly the arcs, with their weights, from a smaller to a larger id |
| SpanningForests.CollectEdges | src/graph/graph_algorithms.c:675-723 | the scan over all vertices gives the candidate list |
| SpanningForests.Candidates | src/graph/graph_algorithms.c:675-723 | the edges collected from the vertices below v are edges from those vertices; SpanningForests.CandidatesExact states that they are exactly the upward arcs |
| SpanningForests.Insert | src/graph/graph_algorithms.c:725 | inserting into a weight-sorted list adds exactly that edge and keeps it sorted by weight |
| SpanningForests.SortByWeight | src/graph/graph_algorithms.c:725 | the result is a permutation of the candidates sorted by non-decreasing weight |
| SpanningForests.SortedEdges | src/graph/graph_algorithms.c:675-725 | the collected and sorted edge list holds every arc of the graph once, from the smaller id to the larger |
| SpanningForests.LinkedSameLabel | src/graph/graph_algorithms.c:744-755 | vertices joined by chosen edges share a union-find label when every chosen edge joins equal labels |
| SpanningForests.KruskalBegin | src/graph/graph_algorithms.c:740-742 | every vertex in its own set, with nothing chosen, starts the invariant |
| SpanningForests.KruskalSkip | src/graph/graph_algorithms.c:751-753 | an edge whose ends already share a set is dropped; its ends are already joined by lighter chosen edges |
| SpanningForests.JoinAcyclic | src/graph/graph_algorithms.c:748-750 | an edge between different sets does not close a cycle with the chosen edges |
| SpanningForests.JoinCycle | src/graph/graph_algorithms.c:748-750 | after choosing an edge, every edge scanned so far still has its ends joined by chosen edges no heavier than it |
| SpanningForests.KruskalJoin | src/graph/graph_algorithms.c:746-750 | choosing an edge between different sets and uniting them keeps the invariant with one set fewer |
| SpanningForests.KruskalStep | src/graph/graph_algorithms.c:745-754 | one loop iteration keeps the Kruskal invariant whether the edge is chosen or dropped |
| SpanningForests.KruskalSpans | src/graph/graph_algorithms.c:744-755 | when the loop stops, the ends of every arc are joined by chosen edges no heavier than the arc |
| SpanningForests.KruskalSize | src/graph/graph_algorithms.c:744 | fewer edges are chosen than there are vertices |
| SpanningForests.Kruskal | src/graph/graph_algorithms.c:663-765 | no answer for a directed graph; otherwise chosen edges are arcs from a smaller to a larger id, none closes a cycle with those before it, the ends of every arc are joined by chosen edges no heavier than it (the cycle condition), and fewer than vertex-count edges |
| SpanningForests.ForestComponents | src/graph/graph_algorithms.c:663-765 | two vertices are joined in the chosen forest exactly when one is reachable from the other |
| UnionFind.RepIsRoot | src/graph/graph_algorithms.c:639-645 | every present vertex's representative is a root and every root represents itself |
| UnionFind.RankBelowRep | src/graph/graph_algorithms.c:653-660 | a non-root vertex has a smaller rank than its representative |
| UnionFind.Compress | src/graph/graph_algorithms.c:643 | pointing a vertex straight at its representative keeps the structure sound and its roots |
| UnionFind.Find | src/graph/graph_algorithms.c:639-645 | returns the vertex's representative and, after path compression, the structure is sound with the same roots |
| UnionFind.LinkRoots | src/graph/graph_algorithms.c:653-659 | hanging one root under another removes just that root from the roots |
| UnionFind.Union | src/graph/graph_algorithms.c:647-661 | the same set changes nothing; otherwise the lower-ranked root goes under the other and its class is relabelled, and on a tie the second root goes under the first whose rank grows by one |
| UnionFind.MakeSets | src/graph/graph_algorithms.c:740-742 | each present vertex is its own root and representative, absent ids hold -1 |
| Tries.EmptyNode | src/trie/trie.c:27-29 | a fresh node has no child, is not a word end and counts no word |
| Tries.Walk | src/trie/trie.c:70-86 | following the prefix character by character gives the node reached, or nothing as soon as a child is missing |
| Tries.InsertPath | src/trie/trie.c:93-129 | the creating descent and the counting ascent of trie_insert as one recursion; Tries.InsertLookup and Tries.InsertCount state its lookups, its added flag and its counts |
| Tries.WalkLookup | src/trie/trie.c:132-138 | looking a suffix up below the node reached by a prefix equals looking up prefix + suffix from the root, and a failed walk means no word has that prefix |
| Tries.WalkWellFormed | src/trie/trie.c:70-86 | every node reached by a walk is a well-formed subtree |
| Tries.InsertLookup | src/trie/trie.c:88-130 | after inserting, the word maps to the new value and every other word keeps its value |
| Tries.InsertCount | src/trie/trie.c:109-129 | a word is added exactly when it was absent; the node stays well formed and its subtree word count grows by one exactly then, so an existing word only has its value replaced |
| Tries.DeleteNode | src/trie/trie.c:235-281 | the recursive delete with its prune flag; Tries.DeleteCount and Tries.DeleteLookup state its removed flag, its counts, its pruning and its lookups |
| Tries.DeleteCount | src/trie/trie.c:235-281 | the word is removed exactly when it was present, otherwise the node is unchanged; the node stays well formed with one word fewer and no empty non-root node left behind |
| Tries.DeleteLookup | src/trie/trie.c:235-281 | after deletion the word has no value and every other word keeps its value |
| Tries.CountZeroShape | src/trie/trie.c:254 | in a well-formed node no word below exactly when it is not a word end and has no child, which is when the node is pruned |
| Tries.Collect | src/trie/trie.c:163-199 | appends to the output exactly the node's enumeration: the word at the node first, then each child's words in ascending character order |
| Tries.EnumerateMember | src/trie/trie.c:163-199 | a word is enumerated from a node under a prefix exactly when it starts with the prefix and its rest is a word below the node |
| Tries.EnumerateLength | src/trie/trie.c:163-199 | the enumeration has as many words as are stored below the node |
| Tries.EnumerateAscending | src/trie/trie.c:177-198 | the enumeration is in strictly increasing order of unsigned byte comparison |
| Tries.AscendingDistinct | src/trie/trie.c:163-199 | a strictly ascending word list has no repeats |
| Tries.PrefixedSize | src/trie/trie.c:155-161 | the words with a prefix are none when the walk fails, and otherwise exactly the enumeration below the reached node, as many as its subtree count |
| Tries.Trie.constructor | src/trie/trie.c:45-59 | a new trie holds no word |
| Tries.Trie.Insert | src/trie/trie.c:88-130 | a missing word changes nothing; otherwise the word maps to the value, every other word is unchanged, and the word count grows by one exactly when the word was new |
| Tries.Trie.Search | src/trie/trie.c:132-138 | the stored value of the word, nothing for a missing word or a non-word |
| Tries.Trie.StartsWith | src/trie/trie.c:140-146 | true exactly when some stored word starts with the prefix |
| Tries.Trie.CountWords | src/trie/trie.c:148-153 | the number of stored words |
| Tries.Trie.CountPrefixes | src/trie/trie.c:155-161 | the number of stored words starting with the prefix, 0 for a missing prefix |
| Tries.Trie.WordsWithPrefix | src/trie/trie.c:201-233 | nothing for a missing prefix; otherwise exactly the stored words starting with it, in ascending order without repeats |
| Tries.Trie.Delete | src/trie/trie.c:283-294 | true exactly when the word was stored; then it is gone, every other word is unchanged and the count drops by one; otherwise nothing changes |

## Left out

- ShortestPaths.Dijkstra: requires non-negative weights, the precondition of Dijkstra's algorithm, which graph_dijkstra does not check. The C loop (src/graph/graph_algorithms.c:249-305) keeps no settled set: it skips only stale heap entries and re-pushes every vertex whose distance improves, so with negative edges and no reachable negative cycle it still ends with shortest distances, and on a reachable negative cycle it does not terminate. The model does not cover negative weights. ShortestPaths.PopFresh and ShortestPaths.DijkstraStep carry the same precondition.
- ShortestPaths.Dijkstra, SpanningTrees.Prim: the priority queue is a sequence from which a least entry is removed, so the order among entries with equal keys is not fixed to the binary heap's.
- SpanningTrees.Prim, SpanningForests.Kruskal: the results are stated through the cut condition (each Prim edge is a lightest arc leaving the tree grown so far) and the cycle condition (the ends of every arc are joined by Kruskal edges no heavier than it). Minimality of the total weight, and the equal total weights of the Prim tree and the Kruskal forest on a connected undirected graph, follow from these by the exchange argument of spanning-tree theory, which is not proved here; the model has no notion of total weight.
- Traversals.Bfs: states that every reachable vertex appears once with the start first; the level-by-level order is not stated.
- LinkedList.LinkedList.Insert: requires 0 <= index <= size; for other indexes the C code appends or links at the wrong place while still bumping the size, which is not modelled.
- Matrices.Matrix.Resize: requires positive dimensions; the contents of columns that existing rows gain are uninitialised in C and left unstated.
- Matrices.Vector.Resize: a negative size leaves the vector unchanged (realloc fails); realloc to size 0 possibly freeing the buffer is not modelled.
- Matrices.Matrix.Determinant, Matrices.Matrix.Inverse: only the shape checks are modelled; the Gaussian elimination that computes the determinant and the inverse is left out. Add, subtract, multiply and transpose are modelled entry by entry over `real`, so only floating-point rounding is left out for them.
- Floating point: `double` weights and entries are `real`, with the "no edge" sentinel as an explicit constructor; NaN and infinities are not expressible. The hash map's load-factor comparison is done in integer arithmetic.
- Integer width: Dafny integers are unbounded, so C `int` overflow (capacity doubling in src/graph/graph.c:64-73, `cap*cap` matrix sizes, the doubling of list and heap capacities) is not modelled. The `unsigned long` hash accumulators are modelled as 64-bit bit-vectors and wrap modulo 2^64 as in the C code.
- BinaryHeap.BinaryHeap.Put, BinaryHeap.BinaryHeap.Grow, HeapQueue.HeapQueue.Enqueue: a full heap of capacity 0 grows to one slot; the C code doubles 0 to 0 and writes past the buffer. This is corrected rather than modelled (see Findings).
- Allocation failure: every malloc/calloc/realloc is assumed to succeed; the NULL-returning failure branches and half-done resizes (including the unchecked realloc in binary_heap_put) are not modelled.
- Concurrency: the hash map's mutex is not modelled; the map is the unlocked one.
- Printing: matrix_print, vector_print and the other console-output functions are not modelled.
- BloomFilters: the bit count m and probe count k are parameters; bloom_compute_params and bloom_filter_current_fpp use floating-point logarithms and powers and are not modelled.
- FibonacciHeap: the degree table capped at 45 and the silent dropping of roots with NULL data during consolidation are excluded; payloads are never NULL.
- Trees: parent pointers are not kept; the trees are recursive values inside their classes, and freeing nodes is not modelled.
- Tries: keys are strings over the characters 1..255 (C strings); trie_free and the freeing of emptied nodes are not modelled.
- TreeSets: the static collector list used by tree_set_to_list is replaced by the in-order sequence of the tree.
- Sorter: works over ArrayList; rand() in collections_shuffle is a parameter sequence of draws.
- Graphs: per-vertex heap-allocated id integers are plain ids, and the ownership and free order of graph_free are not modelled.
- The factories src/list/list.c, src/heap/heap.c and src/queue/queue.c are plain switch dispatch and are not modelled; the concrete implementations are.
- src/linear/linear.c, src/solver/solver.c and src/solver/simplex.c (floating-point linear programming) are not part of this model.

## Findings

| source | as written | input that shows it | evidently intended | confidence | as-written member | corrected member |
|---|---|---|---|---|---|---|
| src/sort/sort.c:191-222 | collections_min_max starts its scan at index 1 or 2 after seeding min and max from the first one or two items, skipping an item it never compares | [5,1,9] gives (5,9) instead of (1,9); [1,2,3,0] gives (1,3) instead of (0,3) | min and max over every item | not executed | Sorter.MinMaxAsWritten, Sorter.MinMaxAsWrittenSkipsIndexOne, Sorter.MinMaxAsWrittenSkipsLastIndex | Sorter.MinMax |
| src/sort/sort.c:68-91 | quicksort on an empty list calls the partition with high = -1, whose final swap with index -1 reaches set at an out-of-range index and appends a NULL item | the empty list | sorting an empty list leaves it empty | not executed | Sorter.SwapAsWritten, Sorter.EmptyQuickSortAsWrittenAddsNull | Sorter.Sort |
| src/heap/binary_heap.c:25-29 | binary_heap_put doubles a full capacity, so a heap created with capacity 0 (binary_heap_init accepts it, and create_heap_queue passes the caller's capacity) stays at capacity 0, and data[0] is written past a zero-size buffer | capacity 0, one put | the grown capacity always makes room for one more item | not executed | Growth.GrownAsWritten, Growth.GrownAsWrittenRoomIff | BinaryHeap.BinaryHeap.Put, BinaryHeap.BinaryHeap.Grow |
| src/list/array_list.c:51-60 | the growth step doubles the capacity, so a list created with capacity 0 stays at capacity 0 and has no room for its first item | capacity 0, one append | the grown capacity always makes room for one more item | not executed | Growth.GrownAsWritten, Growth.GrownAsWrittenRoomIff | Growth.Doubled |

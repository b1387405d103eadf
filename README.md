# Road network and vehicle fleet containers, modelled in Dafny

The Python program keeps a road network of named locations joined by
two-way roads, and a fleet of vehicles. It is built from hand-written
containers:

- a doubly linked list, with a stack and a queue over it;
- a graph of locations with traversal and reachability queries;
- an open-addressing hash table of vehicles keyed by id;
- an array-backed max-heap with heap-sort;
- three textbook array sorts, plus quicksort and heap-sort orderings of vehicles.

This project models each of those containers in its own form and proves the
promises each operation makes.

- **Linked list, stack and queue** (`linked_list.dfy`, `stack_queue.dfy`).
  `DList` is a class over heap-allocated `Node`s with `prev`/`next` links.
  Its ghost `Nodes`/`Contents`/`Repr` tie the links to the sequence of
  stored values. `DSAStack` pushes and pops at the list's head; `DSAQueue`
  enqueues at its tail and dequeues at its head.
- **Road graph** (`road_spec.dfy`, `search_order.dfy`, `road_graph.dfy`).
  - `DSAGraph` holds the vertex labels in insertion order, the directed edge
    records in insertion order, and the set of labels whose visited flag is up.
  - Each method is proved against value-level definitions in `RoadSpec`:
    - the pairing of a road's two records;
    - cutting records out of the edge list;
    - the labels adjacent to a vertex;
    - reachability by walks;
    - the (parent, child) list that a traversal records.
  - Labels are compared with Python's `<` on strings (`string_order.dfy`),
    which is proved to be a strict weak order.
  - The order in which the two searches record their pairs is given by
    value definitions in `SearchOrder` (`search_order.dfy`): `Bfs` for the
    queue and `Dfs` for the stack. Both take a vertex's unflagged neighbours
    least label first.
- **Hash table** (`primes.dfy`, `hash_probe.dfy`, `hash_table.dfy`).
  - The slot array is an `array<HashEntry>`, with never-used, occupied and
    formerly-used states.
  - The Shift-Add-XOR hash is written out exactly over unbounded integers, as
    Python computes it. The step hash and the double-hashing probe sequence
    are written out as well.
  - Table sizes come from `_nextPrime`, which is proved to return the least
    prime above its argument.
  - The table's meaning is a map from id to vehicle (`TableContents`).
    `insert`, `delete`, `search`, `hasKey`, `export`, `getVehicleList` and
    `_resize` are proved against that map.
- **Heap** (`heap.dfy`). `DSAHeap` is a class over
  `array<Option<HeapEntry<V>>>`, where `None` is Python's `None`. Trickle-up,
  trickle-down, heapify and heap-sort are proved on the array's sequence
  value.
- **Sorts** (`sorts.dfy`, `vehicle_sort.dfy`).
  - Bubble, insertion and selection sort work in place on an array and are
    generic over a strict weak order.
  - Quicksort by battery level works in place on an array of vehicles.
  - The two heap-sorts by distance go through `DSAHeap`.

Where the written description of the program and its code disagree, the
model follows the code:

- `_nextPrime` returns the least prime strictly above its argument, not
  "the next prime at least" the requested size.
- `heapSortDistanceAsc` files each vehicle under its negated distance, so it
  returns vehicles in descending distance order, whatever its name says.

## Model

| member | source | states |
|---|---|---|
| `LinkedList.Node.constructor` | DSALinkedList.py:19-22 | a new node holds the given data and has no neighbours |
| `LinkedList.DList.constructor` | DSALinkedList.py:51-54 | a new list is well formed and empty |
| `LinkedList.DList.IsEmpty` | DSALinkedList.py:57-58 | empty exactly when the head is null, the size is 0 and the contents are empty |
| `LinkedList.DList.PeekFirst` | DSALinkedList.py:61-68 | nothing for an empty list, else the first stored value |
| `LinkedList.DList.PeekLast` | DSALinkedList.py:71-78 | nothing for an empty list, else the last stored value |
| `LinkedList.DList.InsertFirst` | DSALinkedList.py:81-95 | the list stays well formed, the value is prepended and the size grows by one |
| `LinkedList.DList.InsertLast` | DSALinkedList.py:98-112 | the list stays well formed, the value is appended and the size grows by one |
| `LinkedList.DList.RemoveFirst` | DSALinkedList.py:115-132 | ListEmptyError on an empty list; otherwise returns the first value and leaves the rest |
| `LinkedList.DList.RemoveLast` | DSALinkedList.py:135-154 | ListEmptyError on an empty list; otherwise returns the last value, leaves the rest, and clears head and tail when one value was left |
| `Stack.DSAStack.constructor` | DSAStack.py:18-19 | a new stack is empty |
| `Stack.DSAStack.IsEmpty` | DSAStack.py:23-24 | true exactly when nothing is stacked |
| `Stack.DSAStack.Push` | DSAStack.py:28-29 | the value goes on top of the old contents |
| `Stack.DSAStack.Pop` | DSAStack.py:33-38 | StackUnderflowError when empty; otherwise returns the top value and removes it |
| `Stack.DSAStack.Top` | DSAStack.py:41-46 | StackUnderflowError when empty; otherwise the top value, with nothing changed |
| `Stack.PushThenPop` | DSAStack.py:28-38 | popping right after a push returns the pushed value and restores the stack |
| `Queue.DSAQueue.constructor` | DSAQueue.py:18-19 | a new queue is empty |
| `Queue.DSAQueue.IsEmpty` | DSAQueue.py:23-24 | true exactly when nothing is queued |
| `Queue.DSAQueue.Enqueue` | DSAQueue.py:27-28 | the value joins the back of the queue |
| `Queue.DSAQueue.Dequeue` | DSAQueue.py:31-34 | QueueUnderflowError when empty; otherwise returns the front value and removes it |
| `Queue.DSAQueue.Peek` | DSAQueue.py:37-40 | QueueUnderflowError when empty; otherwise the front value, with nothing changed |
| `Queue.EnqueueTwiceDequeueTwice` | DSAQueue.py:27-34 | for any queue: two values enqueued behind its contents come out after them and in the order they joined (first in, first out); the two dequeued values and the remaining contents are stated for a queue of 0, 1 and 2 or more items |
| `StringOrder.LessIsStrictWeakOrder` | DSAsorts.py:37 | Python's `<` on strings is irreflexive and transitive, and so is its "not less", so the sorts apply to labels |
| `StringOrder.LessTotal` | DSARoadGraph.py:317-337 | any two different labels are ordered one way or the other, so a least label is unique |
| `StringOrder.SortedDistinctIsStrict` | DSARoadGraph.py:216-225 | a sorted list of distinct labels is strictly ascending |
| `Sorts.Swap` | DSAsorts.py:14 | exchanges two cells and keeps the array a permutation of itself |
| `Sorts.BubbleSort` | DSAsorts.py:6-18 | the array ends sorted and is a permutation of the input |
| `Sorts.BubblePass` | DSAsorts.py:10-16 | one pass leaves the tail untouched and the largest of the prefix last; a pass without swaps means the prefix is sorted |
| `Sorts.InsertionSort` | DSAsorts.py:20-29 | the array ends sorted and is a permutation of the input |
| `Sorts.SelectionSort` | DSAsorts.py:31-42 | the array ends sorted and is a permutation of the input |
| `Heap.UpStep` | DSAHeap.py:55-60 | swapping a node with a smaller parent moves the single out-of-order link one level up |
| `Heap.UpDone` | DSAHeap.py:55 | when the node is at the root or not above its parent, the whole array is a heap |
| `Heap.DownStep` | DSAHeap.py:87-103 | swapping a node with its larger child moves the single out-of-order link one level down |
| `Heap.DownDone` | DSAHeap.py:87-99 | when no child exceeds the node, the range is a heap |
| `Heap.RootIsMax` | DSAHeap.py:62-80 | in a heap, no entry has a priority above the root's |
| `Heap.SortStep` | DSAHeap.py:127-132 | moving the root behind the heap extends the sorted tail by one |
| `Heap.RootReplaced` | DSAHeap.py:70-73 | putting the last entry at the root leaves a heap below the root and loses only the old root |
| `Heap.DSAHeap.constructor` | DSAHeap.py:31-34 | a new heap has no entries and the requested capacity, 200 by default |
| `Heap.DSAHeap.Add` | DSAHeap.py:36-48 | the heap order is kept and the entry is added; the capacity doubles exactly when the heap was full |
| `Heap.DSAHeap.TrickleUp` | DSAHeap.py:51-60 | restores the heap order after a new leaf, keeping the entries |
| `Heap.DSAHeap.Remove` | DSAHeap.py:62-80 | HeapEmptyError on an empty heap; otherwise returns the old root, which has the highest priority, and removes exactly it |
| `Heap.DSAHeap.MoveLastToRoot` | DSAHeap.py:70-73 | the last entry replaces the root, its slot becomes None, and the rest stays a heap below the root |
| `Heap.DSAHeap.TrickleDown` | DSAHeap.py:82-103 | extends the heap order to the given index and permutes only the live range |
| `Heap.DSAHeap.ResizeHeap` | DSAHeap.py:105-111 | the capacity doubles, the live entries are copied in order and the new slots are None |
| `Heap.DSAHeap.Heapify` | DSAHeap.py:118-120 | the first `inSize` slots become a heap holding the same entries |
| `Heap.DSAHeap.HeapSort` | DSAHeap.py:122-132 | the live entries end in ascending priority order, with the same entries, and the slots from `count` on are left as they were |
| `Heap.DSAHeap.LoadEntries` | DSAHeap.py:134-144 | the entries are copied in order; the array is replaced only when they do not fit |
| `VehicleSort.DoPartitioning` | VehicleSort.py:17-30 | the pivot lands at the returned index, with higher batteries before it and lower or equal after; only the range moves, and as a permutation |
| `VehicleSort.QuickSortVehicles` | VehicleSort.py:9-14 | the range ends in non-increasing battery order as a permutation, and nothing outside it moves |
| `VehicleSort.LlToArr` | VehicleSort.py:82-91 | the array holds the list's vehicles in list order |
| `VehicleSort.QuickSortBattery` | VehicleSort.py:93-98 | a new array of the list's vehicles, highest battery first |
| `VehicleSort.FindVehicleWithHighestBattery` | VehicleSort.py:100-105 | None exactly for an empty list; otherwise a listed vehicle with no listed vehicle above its battery |
| `VehicleSort.FillHeap` | VehicleSort.py:33-42 | a heap of exactly the list's vehicles, each under its key |
| `VehicleSort.AddAll` | VehicleSort.py:36-42 | walking the list's nodes adds each vehicle under its key |
| `VehicleSort.Drain` | VehicleSort.py:46-48 | the array holds the heap's vehicles in slot order |
| `VehicleSort.HeapSortDistanceTo` | VehicleSort.py:32-50 | a new array of the list's vehicles in ascending distance to destination |
| `VehicleSort.HeapSortDistanceAsc` | VehicleSort.py:62-80 | a new array of the list's vehicles in descending distance to destination |
| `VehicleSort.FindNearestVehicle` | VehicleSort.py:52-60 | None exactly for an empty list; otherwise a listed vehicle no farther from its destination than any other |
| `VehicleSort.Unfiled` | VehicleSort.py:46-48 | reading the vehicles back from a heap built by filing gives exactly the filed vehicles |
| `Primes.Isqrt` | VehicleHashTable.py:85 | the integer square root: its square is at most n and the next square exceeds n |
| `Primes.TrialDivision` | VehicleHashTable.py:83-91 | true exactly when no odd divisor from 3 up to the root divides the candidate |
| `Primes.DivideUpTo` | VehicleHashTable.py:87-91 | either every odd candidate divisor up to the root fails, or an odd divisor within the root is found |
| `Primes.TrialDivisionDecides` | VehicleHashTable.py:83-91 | for an odd candidate of at least 3, passing trial division is the same as being prime |
| `Primes.SmallFactor` | VehicleHashTable.py:87-91 | an odd composite has an odd factor of at least 3 whose square is at most it |
| `Primes.PrimeAbove` | VehicleHashTable.py:81-82 | there is always a prime above any number, so the search ends |
| `Primes.NextPrime` | VehicleHashTable.py:73-93 | the least prime strictly above the start value |
| `Primes.NoZeroDivisors` | VehicleHashTable.py:131-134 | a product of two numbers below a prime p is not divisible by p |
| `HashProbe.HashIndex` | VehicleHashTable.py:55-61 | the home slot lies inside the table |
| `HashProbe.StepSize` | VehicleHashTable.py:65-70 | the stride lies between 1 and 5 |
| `HashProbe.ProbeClosedForm` | VehicleHashTable.py:131 | the j-th probe is the home slot plus j strides, modulo the size |
| `HashProbe.ProbeWraps` | VehicleHashTable.py:133-134 | after as many probes as slots, the sequence is back at the home slot |
| `HashProbe.ProbeInjective` | VehicleHashTable.py:131-134 | in a table of prime size, the first `len` probes are all different |
| `HashProbe.ProbeReturns` | VehicleHashTable.py:133-134 | in a table of prime size, the probe first returns to the home slot after exactly `len` strides |
| `HashProbe.ProbeSetSize` | VehicleHashTable.py:131-134 | the first n probes cover n different slots |
| `HashProbe.FindFrom` | VehicleHashTable.py:151-164 | a found index is an occupied slot holding the key |
| `HashProbe.StopFrom` | VehicleHashTable.py:113-134 | the slot where the insert probe stops is free or holds the key |
| `HashProbe.StopFromFound` | VehicleHashTable.py:113-134 | when fewer slots are occupied than exist, the insert probe stops somewhere |
| `HashProbe.FindFromContents` | VehicleHashTable.py:141-169 | for a well-formed table, the find probe misses exactly the ids that are not stored, and otherwise finds the slot with the stored vehicle |
| `HashProbe.FillFree` | VehicleHashTable.py:118-122 | storing an id that is not in the table at the insert probe's stop keeps the table well formed |
| `HashProbe.Overwrite` | VehicleHashTable.py:125-127 | replacing the vehicle of a stored id keeps the table well formed |
| `HashProbe.Tombstone` | VehicleHashTable.py:183 | marking an occupied slot formerly used keeps the table well formed |
| `HashProbe.Store` | VehicleHashTable.py:118-127 | storing a vehicle maps its id to it in the contents and counts a newly occupied slot |
| `HashProbe.Drop` | VehicleHashTable.py:183-184 | tombstoning a slot removes exactly its id from the contents and one occupied slot |
| `HashProbe.RehashStep` | VehicleHashTable.py:217-219 | reinserting slot by slot builds the old contents and count one slot at a time |
| `HashProbe.OccupiedPairsAreContents` | VehicleHashTable.py:196-203 | the exported (id, vehicle) pairs are the table's contents, one per occupied slot |
| `HashTable.VehicleHashTable.constructor` | VehicleHashTable.py:36-52 | an empty table whose size is the least prime above the requested size, with a floor of 5, and all slots never used |
| `HashTable.VehicleHashTable.Hash` | VehicleHashTable.py:55-61 | the loop computes the Shift-Add-XOR home slot |
| `HashTable.VehicleHashTable.StepHash` | VehicleHashTable.py:65-70 | the stride of the id, between 1 and 5 |
| `HashTable.VehicleHashTable.FindKey` | VehicleHashTable.py:141-169 | the probe loop returns the slot the find probe reaches, or -1 when it gives up |
| `HashTable.VehicleHashTable.Search` | VehicleHashTable.py:171-176 | the stored vehicle of the id, or KeyNotFoundError when the id is not stored |
| `HashTable.VehicleHashTable.HasKey` | VehicleHashTable.py:193-194 | true exactly when the id is stored |
| `HashTable.VehicleHashTable.Place` | VehicleHashTable.py:112-134 | the insert probe loop writes the vehicle at the first free or same-id slot, and counts it if the slot was not occupied |
| `HashTable.VehicleHashTable.Insert` | VehicleHashTable.py:98-139 | corrected insert (see ## Findings): the id maps to the vehicle afterwards and the rest is kept; the count grows only for a new id; when the load factor has reached 0.7 the table first grows to the least prime above twice its size, otherwise the array stays |
| `HashTable.VehicleHashTable.Resize` | VehicleHashTable.py:205-219 | a new array of the least prime size above the request, holding the same contents and count |
| `HashTable.VehicleHashTable.Delete` | VehicleHashTable.py:178-191 | KeyNotFoundError, with the count and every slot unchanged, when the id is not stored; otherwise only that id is removed and the count drops; when the new load factor is below 0.2 and the size above 5 the table shrinks to the least prime above `max(len // 2, 5)`, otherwise the array stays |
| `HashTable.VehicleHashTable.GetVehicleList` | VehicleHashTable.py:228-237 | a list of exactly the stored vehicles, in slot order, one per stored id |
| `HashTable.VehicleHashTable.Export` | VehicleHashTable.py:196-203 | a list of exactly the stored (id, vehicle) pairs, in slot order |
| `HashTable.Listed` | VehicleHashTable.py:196-237 | the occupied slots list each stored id once, with its vehicle |
| `TombstoneExample.DuplicateAfterTombstone` | VehicleHashTable.py:113-127 | the insert probe alone stores a second copy of an id past a formerly-used slot, and deleting the new copy brings the old one back |
| `RoadSpec.PairedReverse` | DSARoadGraph.py:77-115 | in a paired edge list, a record a→b implies a record b→a |
| `RoadSpec.RoadAdded` | DSARoadGraph.py:77-115 | adding a road's two records keeps the list paired, counts one more road, and makes getEdge find the road in both directions |
| `RoadSpec.WithoutMembers` | DSARoadGraph.py:482-515 | after a cut, a record remains exactly when it was there and is not cut |
| `RoadSpec.WithoutAppend` | DSARoadGraph.py:482-515 | a cut distributes over concatenation |
| `RoadSpec.WithoutShorter` | DSARoadGraph.py:576-612 | a cut removes something exactly when some record matches it |
| `RoadSpec.WithoutPaired` | DSARoadGraph.py:472-617 | cutting a vertex's or a road's records keeps the edge list paired |
| `RoadSpec.SpliceStep` | DSARoadGraph.py:482-515 | one step of the splice loop keeps the list equal to the cut prefix followed by the unvisited records |
| `RoadSpec.FirstCut` | DSARoadGraph.py:139-154 | nothing exactly when no record joins the pair; otherwise a listed record joining them |
| `RoadSpec.FirstCutSkips` | DSARoadGraph.py:139-154 | a prefix with no matching record does not affect the first match |
| `RoadSpec.Targets` | DSARoadGraph.py:194-203 | the listed labels are exactly those with a record from the vertex |
| `RoadSpec.ReachableStep` | DSARoadGraph.py:449-453 | a record from a reachable vertex reaches its target |
| `RoadSpec.ClosedHoldsReachable` | DSARoadGraph.py:443-453 | a label set closed under records and holding the start holds every reachable label |
| `RoadSpec.ReachableSymmetric` | DSARoadGraph.py:414-455 | with roads stored in both directions, reachability is symmetric |
| `RoadSpec.TreeCard` | DSARoadGraph.py:352-369 | a traversal tree has one entry per distinct child, none of which is the start |
| `RoadSpec.TreeInside` | DSARoadGraph.py:352-369 | every child in the tree is a target of some record |
| `RoadSpec.TreePairs` | DSARoadGraph.py:366-367 | each recorded (parent, child) pair is a record, no child is the start, and no child appears twice |
| `RoadSpec.TreeReaches` | DSARoadGraph.py:352-369 | every child in the tree is reachable from the start |
| `RoadSpec.TreeGrows` | DSARoadGraph.py:365-369 | recording a record from the tree to a fresh vertex keeps a tree and adds that child |
| `RoadSpec.TraversalReach` | DSARoadGraph.py:341-412 | a completed traversal visits exactly the vertices reachable from the start |
| `RoadSpec.SearchStarts` | DSARoadGraph.py:352-354 | the start alone, visited and pending, is a valid search state |
| `RoadSpec.SearchQueues` | DSARoadGraph.py:365-369 | visiting an unvisited neighbour and queueing it at the back keeps the search state valid |
| `RoadSpec.SearchStacks` | DSARoadGraph.py:400-405 | visiting an unvisited neighbour and pushing it on top keeps the search state valid |
| `RoadSpec.SearchExpands` | DSARoadGraph.py:356-371 | a vertex whose neighbours are all visited can leave the pending list |
| `RoadSpec.SearchEnds` | DSARoadGraph.py:356-371 | with nothing pending, the visited set is exactly the reachable set and the tree is a complete traversal |
| `RoadGraph.Remove` | DSARoadGraph.py:518-551 | removing a label's first occurrence drops exactly that label and keeps labels distinct |
| `RoadGraph.RemoveAt` | DSARoadGraph.py:520-548 | removal cuts out the first position holding the label |
| `RoadGraph.DistinctCount` | DSARoadGraph.py:136-137 | a list of distinct labels has as many labels as entries |
| `RoadGraph.SearchBounded` | DSARoadGraph.py:356-371 | the tree stays within the graph's vertices and has fewer entries than vertices, so traversals end |
| `RoadGraph.DSAGraph.constructor` | DSARoadGraph.py:60-62 | a new graph has no vertices, edges or visited flags |
| `RoadGraph.DSAGraph.AddVertex` | DSARoadGraph.py:65-74 | DuplicateVertexError for a known label; otherwise the label is appended |
| `RoadGraph.DSAGraph.AddEdge` | DSARoadGraph.py:77-115 | VertexNotFoundError for unknown or equal endpoints, DuplicateEdgeError for an existing road; otherwise both directed records are appended |
| `RoadGraph.DSAGraph.HasVertex` | DSARoadGraph.py:118-132 | true exactly when the label is a vertex |
| `RoadGraph.DSAGraph.GetVertexCount` | DSARoadGraph.py:136-137 | the number of distinct labels |
| `RoadGraph.DSAGraph.GetEdge` | DSARoadGraph.py:139-154 | VertexNotFoundError for an unknown label; otherwise the first record joining the two labels in either direction, if any |
| `RoadGraph.DSAGraph.GetEdgeCount` | DSARoadGraph.py:159-160 | half the number of directed records, which is the number of roads |
| `RoadGraph.DSAGraph.GetVertex` | DSARoadGraph.py:164-178 | None exactly for an unknown label; otherwise its first position |
| `RoadGraph.DSAGraph.GetAdjacent` | DSARoadGraph.py:182-225 | VertexNotFoundError for an unknown label; otherwise the targets of its records as a permutation, sorted by label |
| `RoadGraph.DSAGraph.IsAdjacent` | DSARoadGraph.py:229-260 | VertexNotFoundError for an unknown label; otherwise whether a record joins them |
| `RoadGraph.DSAGraph.ClearVisited` | DSARoadGraph.py:308-313 | every visited flag is cleared and nothing else changes |
| `RoadGraph.DSAGraph.GetLowestLabel` | DSARoadGraph.py:317-337 | None exactly for an empty graph; otherwise the position of the least label |
| `RoadGraph.DSAGraph.GetUnvisitedAdjacent` | DSARoadGraph.py:457-470 | VertexNotFoundError for an unknown label; otherwise the least unvisited neighbour, or none when all neighbours are visited |
| `RoadGraph.DSAGraph.FirstUnvisited` | DSARoadGraph.py:462-468 | the walk returns the first label whose flag is down, or none when every flag is up |
| `SearchOrder.LeastUnvisited` | DSARoadGraph.py:457-470 | in a sorted adjacency list the first unvisited label is below no other unvisited label |
| `SearchOrder.Begin` | DSARoadGraph.py:347-353 | both searches start with only the least label flagged and waiting, and nothing recorded |
| `SearchOrder.Least` | DSARoadGraph.py:457-470 | every non-empty set of labels has a label below none of the others |
| `SearchOrder.LeastUnique` | DSARoadGraph.py:457-470 | that label is unique, because Python's string order is total |
| `SearchOrder.LeastNeighbour` | DSARoadGraph.py:457-470 | the neighbour `getUnvisitedAdjacent` returns is the least unflagged neighbour |
| `SearchOrder.NoneLeft` | DSARoadGraph.py:457-470 | when `getUnvisitedAdjacent` returns none, no neighbour is unflagged |
| `SearchOrder.FirstIsLeast` | DSARoadGraph.py:361-371 | in the breadth-first walk over the sorted adjacency list, the first unflagged entry is the least unflagged neighbour |
| `SearchOrder.Expand` | DSARoadGraph.py:358-371 | expanding a dequeued vertex flags only its neighbours, and changes nothing when it flags nothing |
| `SearchOrder.Descend` | DSARoadGraph.py:397-405 | a depth-first step flags only neighbours of the popped vertex, and changes nothing when it flags nothing |
| `SearchOrder.Progress` | DSARoadGraph.py:355-371 | each step flags nothing or leaves fewer record targets unflagged, so both searches end |
| `SearchOrder.ExpandOrder` | DSARoadGraph.py:358-371 | expanding a vertex appends exactly one (vertex, neighbour) pair per unflagged neighbour, in strictly ascending label order, and flags exactly those neighbours |
| `SearchOrder.ExpandWalk` | DSARoadGraph.py:361-371 | one step of the walk over the sorted adjacency list records the neighbour `Expand` takes next |
| `SearchOrder.ExpandWalked` | DSARoadGraph.py:361-371 | after the walk no neighbour is unflagged and `Expand` has nothing left to do |
| `SearchOrder.ScanExpands` | DSARoadGraph.py:361-371 | the entry-by-entry walk over the sorted adjacency list computes `Expand` |
| `SearchOrder.ExpandSearches` | DSARoadGraph.py:358-371 | expanding the vertex at the front keeps a valid search state |
| `SearchOrder.DescendSearches` | DSARoadGraph.py:397-405 | a depth-first step keeps a valid search state |
| `SearchOrder.BfsTraversal` | DSARoadGraph.py:341-371 | from any valid search state, the breadth-first order of pairs ends in a finished traversal tree from the root |
| `SearchOrder.DfsTraversal` | DSARoadGraph.py:382-405 | from any valid search state, the depth-first order of pairs ends in a finished traversal tree from the root |
| `RoadGraph.DSAGraph.BreadthFirstSearch` | DSARoadGraph.py:341-378 | fails exactly on an empty graph; otherwise returns exactly the breadth-first order `Bfs` from the least label: parents in the order they were dequeued, and each parent's new children in ascending label order. That list is a traversal tree visiting exactly the vertices reachable from the start |
| `RoadGraph.DSAGraph.EnqueueUnvisited` | DSARoadGraph.py:358-371 | the new flags, pairs and queue are `Expand` of the old ones, and the search state stays valid |
| `RoadGraph.DSAGraph.EnqueueAll` | DSARoadGraph.py:361-371 | the walk over the sorted adjacency list leaves the flags, pairs and queue that `Expand` gives |
| `RoadGraph.DSAGraph.DepthFirstSearch` | DSARoadGraph.py:382-412 | fails exactly on an empty graph; otherwise returns exactly the depth-first order `Dfs` from the least label: the vertex on top of the stack records its least unflagged neighbour, and a vertex with none is popped for good. That list is a traversal tree visiting exactly the vertices reachable from the start |
| `RoadGraph.DSAGraph.PushUnvisited` | DSARoadGraph.py:399-405 | the new flags, pairs and stack are `Descend` of the old ones: the vertex and its least unflagged neighbour are pushed back, or the vertex is dropped when it has none; the search state stays valid |
| `RoadGraph.DSAGraph.IsPath` | DSARoadGraph.py:414-455 | VertexNotFoundError for an unknown label, with the flags unchanged; otherwise whether the destination is reachable from the source, and afterwards exactly the vertices reachable from the source have their flag up |
| `RoadGraph.DSAGraph.SpliceOut` | DSARoadGraph.py:480-515 | the splice loop leaves exactly the records the cut does not match, and reports whether it removed any |
| `RoadGraph.DSAGraph.UnlinkVertex` | DSARoadGraph.py:517-551 | the vertex loop unlinks the first vertex with the label and keeps every other vertex in its order; the records and flags are untouched |
| `RoadGraph.DSAGraph.DeleteVertex` | DSARoadGraph.py:472-551 | VertexNotFoundError for an unknown label; otherwise its records and the label are removed and the graph stays well formed |
| `RoadGraph.DSAGraph.DeleteEdge` | DSARoadGraph.py:555-617 | VertexNotFoundError for an unknown label; otherwise both records of the road are removed, with a report of whether the road existed |

## Left out

- Printing. These are not modelled:
  - `printList`, `displayAsList` and `display`;
  - `printVehicles`;
  - the traversal printouts at the end of `breadthFirstSearch` and `depthFirstSearch`;
  - the "Road Deleted" and "Road does not exist" messages of `deleteEdge`.

  The traversals instead return their (parent, child) list. `deleteEdge`
  returns the flag it prints from.
- Exception messages. Each raised error is a `Result` error value, and the
  message strings are not kept.
- The `Vehicle` class (Vehicle.py). It is reduced to an immutable record of
  the fields the containers read. Its setters and their validation are not
  part of this model.
- The menu, the CSV readers and the test driver (Menu.py, fileioNetwork.py,
  test.py). They are input and output around the core.
- Traversal containers. `breadthFirstSearch`, `depthFirstSearch` and
  `is_path` keep their queue, stack and tree buffer in local sequences. The
  sequences follow the same discipline: the queue's back and front, and the
  stack's top.
  - `DSAQueue` and `DSAStack` are modelled and proved on their own. The
    traversals do not allocate them.
  - The vertex objects are represented by their labels.
- `export` stores the (id, vehicle) pair of each slot. It does not store the
  formatted text line `"id,vehicle\n"`, because the string form of a vehicle
  is display code.
- The hash table's load factors 0.7 and 0.2 are compared as integer ratios
  (`10 * count >= 7 * len`, `5 * count < len`). Table sizes are primes of at
  least 7, so no ratio falls on a threshold and the comparison gives the
  same answers as the floating-point one.
- The graph's vertex and edge lists. `DSARoadGraph` keeps them in
  `DSALinkedList`s and unlinks a deleted vertex or record by relinking
  `prev` and `next` by hand. The model keeps them as sequence fields and
  unlinks by slicing (`SpliceOut`, `UnlinkVertex`). The order of the
  remaining entries is the same; the node objects and their links are not
  modelled.
- `numpy` arrays become Dafny arrays. `np.empty` slots that the code never
  reads before writing are `None` or never-used entries.
- `HashTable.VehicleHashTable.Place`: the give-up branch of the insert probe
  loop, which resizes and retries, is not modelled.
  - The method requires a table that is not full. `Insert` always provides
    one, because a table below a 0.7 load factor has a free slot on every
    probe cycle.
  - The retry recursion is therefore unreachable and not modelled.
- `HashTable.VehicleHashTable.FindKey`: requires a prime table size of at
  least 7. Every table the class builds has such a size.
- `Heap.DSAHeap.Add`: requires a capacity above zero. A `DSAHeap(0)` doubles
  to capacity 0 on its first `add`, and Python then fails with an IndexError
  that is not modelled. `heapSortDistanceTo` and `heapSortDistanceAsc` add
  nothing to a zero-capacity heap.

## Findings

| source | as written | input that shows it | evidently intended | confidence | as-written member | corrected member |
|---|---|---|---|---|---|---|
| VehicleHashTable.py:113-127 | the insert probe stores the vehicle in the first never-used or formerly-used slot, without checking whether the id sits further along the probe sequence | a 7-slot table after inserting "b", "a" and "h" and deleting "a". "a" and "h" both hash to slot 6, so "h" went to slot 3 and slot 6 is formerly used. Inserting "h" again fills slot 6, so "h" is stored twice. Deleting "h" then removes the new copy, and search still finds the old one | an id is stored at most once, so insert replaces the stored vehicle of a known id | not executed | `TombstoneExample.DuplicateAfterTombstone` | `HashTable.VehicleHashTable.Insert` |

`HashTable.VehicleHashTable.Insert` first looks the id up with the find
probe. A stored id gets its vehicle replaced; any other id goes to the slot
where the insert probe loop (`HashTable.VehicleHashTable.Place`) stops. The
table therefore keeps each id once, and `Insert` is proved to map the id to
the new vehicle and keep the rest of the contents.

# Data-structure exercises, modelled and verified in Dafny

This project models seven small C programs:

- two Fibonacci heaps;
- an array binary min-heap;
- a bucketed hash table with linear probing;
- an infix-to-postfix converter;
- a prefix-to-infix converter;
- a breadth-first traversal of an adjacency matrix.

Each C function becomes a Dafny method or function with the same branches, constants and error paths, except where the sections "Left out" and "Findings" below say otherwise. Its contract states what the function computes. Lemmas prove the properties the programs rely on, such as heap order, permutation, a round trip, or reachability.

**Fibonacci heaps (`HW2/hw2-2test.c`, `HW2/hw2-2.c`).**

- Both programs share one model of their node records, in modules `Rings`, `FibNodes`, `FibForest`, `FibCut` and `FibTable`:
  - A node is a handle into an arena of parallel columns: `key`, `degree`, `parent`, `child`, `left`, `right`, `mark`.
  - `NIL` plays the null pointer.
  - The heap record `FibHeap.Heap` holds the arena, `min` and `n`.
  - A ghost `Shape` names the forest the pointers encode: the live nodes, the root ring, each child ring, and a rank that grows from child to parent.
  - `Inv` (the `Valid` predicate of the heap) says the following. The pointers encode that forest. Every ring is a proper circular doubly linked list. Every degree is the length of its child ring. Every child's key is no smaller than its parent's. `min` is a root of least key, and `n` is the number of nodes.
- Module `FibHeap` follows `HW2/hw2-2test.c`. Its operations are methods of `FibHeap.Heap`, one per C function:
  - new roots go right of `min`;
  - extract-min promotes the children, unlinks `min` and consolidates;
  - consolidation snapshots the root list, merges equal degrees through a degree table, and rebuilds the ring;
  - decrease-key cuts and cascades;
  - delete is decrease-key followed by extract-min.
- Modules `FibHeapAlt`, `FibAltExtract` and `FibAltTable` follow `HW2/hw2-2.c`. It splices new and cut roots left of `min`, and links a child at the end of the child ring.

**Array min-heap (`hw1-3.c`).** `MinHeap.Heap` keeps `data`, a fixed buffer of `MAX_SIZE` cells, and `size`.

- Each method is proved against a function on the heap's contents: `SiftUp`, `SiftDown` and `Delete`.
- Lemmas prove permutation, and heap order after insert.
- Lemmas show that delete as written can break heap order, and that the corrected delete keeps it (see Findings).

**Hash table (`HW2/hw2-1.c`).** `HashTable.Table` keeps the fixed `MAX_BUCKETS` x `MAX_SLOTS` grid and the sizes `n` and `m`.

- Every operation probes buckets `key % n`, `key % n + 1`, ..., each once, and within a bucket it scans the slots in order.
- `Locate` is that search as a function.
- `LocateIsFirst` proves that the search finds the first matching slot in probe order, or reports correctly that there is none.

**Infix to postfix (`hw1-2.c`).**

- `InfixPostfix.Stack` is the array stack.
- `InfixToPostfix` is the conversion loop. It is proved to write `Postfix(text)` and a terminating NUL, where `Postfix` is the character-by-character step function `Step` folded over the input.
- Lemmas prove three facts about the output:
  - it keeps the operands in order;
  - it keeps the operators as a multiset;
  - it drops everything else.

**Prefix to infix (`hw1.c`).**

- `PrefixInfix.Stack` is the linked string stack.
- `PrefixToInfix` is the right-to-left conversion. It is proved equal to the function `Result`.
- `RoundTrip` proves that the prefix form of any expression tree converts to the fully parenthesised infix form of the same tree.
- `PrintWithoutParentheses` is proved to output the input with its parentheses removed. `StripInfix` proves that for a converted expression this is the in-order reading of the tree.

**Breadth-first traversal (`hw1-4.c`).**

- `Bfs.Queue` is the array queue.
- `Bfs.Bfs` returns the visiting order as 1-based vertex numbers. It is proved to start with the start vertex and to visit no vertex twice. It visits exactly the vertices reachable from the start through edges among the first `m` vertices.
- `Bfs.BfsOrder` is a reference breadth-first search on plain sequences, without the queue or the visited array. `Bfs.Discovery` expands the discovered vertices one at a time, appending each one's undiscovered neighbours in index order. `Bfs.Bfs` is proved to return exactly that order.

## Model

| member | source | states |
|---|---|---|
| `FibHeap.Heap.constructor` | HW2/hw2-2test.c:45-50 | an empty, valid heap: no nodes, no roots, `min` NIL, `n` 0 |
| `FibHeap.Heap.CreateFibNode` | HW2/hw2-2test.c:53-63 | a fresh node with the given key, degree 0, no parent, child or mark, alone on its own ring; the heap's entries are unchanged |
| `FibHeap.Heap.AddToRootList` | HW2/hw2-2test.c:293-305 | `x` becomes the only root of an empty heap, or is spliced into the root ring immediately right of `min`; `min` moves to `x` exactly when the heap was empty or `x`'s key is strictly smaller |
| `FibHeap.Heap.Insert` | HW2/hw2-2test.c:67-85 | the heap stays valid with one more node: its entries gain `x` with its key, `n` grows by one, `x` sits right of `min`, and `min` is `x` exactly on a strictly smaller key |
| `FibHeap.Heap.RemoveFromRootList` | HW2/hw2-2test.c:308-318 | `x` leaves the root ring and its neighbours are joined; a lone root leaves the ring unchanged and clears `min` when it was `min` |
| `FibHeap.Heap.Adopt` | HW2/hw2-2test.c:205-222 | `y` gets parent `x` and joins `x`'s child ring (or starts it), `x`'s degree grows by one and `y`'s mark is cleared |
| `FibHeap.Heap.Link` | HW2/hw2-2test.c:201-223 | linking is the arena and shape change `LinkArena`/`LinkShape`: `y` leaves the root ring and becomes a child of `x` |
| `FibForest.LinkEffects` | HW2/hw2-2test.c:201-223 | after a link, `y` has parent `x` and no mark, `x`'s degree is one more, `y` is off the root ring and in `x`'s child ring, and nothing else moves |
| `FibForest.LinkKeepsTree` | HW2/hw2-2test.c:201-223 | when `x`'s key is no larger than `y`'s, linking keeps a valid heap-ordered forest with the same nodes and entries |
| `FibForest.LinkRoots` | HW2/hw2-2test.c:203 | after the unlink, the root ring is the old one without `y` and is still a proper ring |
| `FibForest.LinkKids` | HW2/hw2-2test.c:209-222 | `x`'s new child ring is a proper ring, one longer, headed by `x.child`, and holds the old children plus `y` |
| `FibHeap.Heap.CountRoots` | HW2/hw2-2test.c:136-143 | the walk from `min` along `right` counts exactly the roots on the ring |
| `FibHeap.Heap.SnapshotRoots` | HW2/hw2-2test.c:145-150 | the snapshot array holds the root ring read from `min`, in order |
| `FibHeap.Heap.MergeRoots` | HW2/hw2-2test.c:152-169 | after merging, the forest is still valid with the same keys and nodes, and the degree table holds every root in the slot of its degree |
| `FibHeap.Heap.CarryUp` | HW2/hw2-2test.c:156-167 | the carry loop links equal-degree roots (smaller key on top), keeping the merge invariant, until it finds an empty slot for the result |
| `FibTable.MergeKeep` | HW2/hw2-2test.c:158-166 | one link of the carry loop keeps the merge invariant: the forest, its entries and the table of other degrees |
| `FibHeap.Heap.Rebuild` | HW2/hw2-2test.c:174-194 | the table's roots, and only they, form the new root ring; no two roots share a degree, and `min` is a root of least key |
| `FibTable.RebuildDone` | HW2/hw2-2test.c:174-194 | the rebuilt ring with the chosen `min` is a valid forest whose `min` is a root of least key, with keys and degrees unchanged |
| `FibHeap.Heap.Consolidate` | HW2/hw2-2test.c:126-197 | afterwards no two roots have the same degree, the forest and its keys and nodes are unchanged, and `min` is a root of least key |
| `FibHeap.Heap.MoveChildrenToRoots` | HW2/hw2-2test.c:92-105 | every child of `min` loses its parent and is spliced into the root ring right of `min`, in reverse child-ring order; nothing else changes |
| `FibHeap.Heap.Detach` | HW2/hw2-2test.c:92-108 | after the children are promoted and `min` is unlinked, the forest is valid without `min`, every old child is a root, and `min.right` is a root unless the ring is empty |
| `FibHeap.Heap.ExtractMin` | HW2/hw2-2test.c:88-119 | returns NIL and changes nothing on an empty heap; otherwise returns the old `min`, whose key is the least of all keys, removes exactly that node, decrements `n`, and keeps the heap valid |
| `FibHeap.ExtractTree` | HW2/hw2-2test.c:107 | taking `min` off a root ring that holds its promoted children leaves a heap-ordered forest of the other nodes |
| `FibHeap.Heap.Cut` | HW2/hw2-2test.c:242-261 | `x` leaves its parent `y`'s child ring (`y.child` and `y.degree` updated), is spliced right of `min` as an unmarked root, and the forest stays valid with the same entries |
| `FibCut.CutKeepsTree` | HW2/hw2-2test.c:242-261 | a forest that is out of order only between `x` and `y` is heap-ordered after the cut, with the same entries |
| `FibCut.CutParentKids` | HW2/hw2-2test.c:244-253 | `y`'s child ring after the cut is the old one without `x`, headed by `y.child`, and `y.degree` is its length |
| `FibHeap.Heap.CascadingCut` | HW2/hw2-2test.c:264-274 | a root is left alone; an unmarked non-root becomes marked and nothing else changes; a marked non-root becomes an unmarked root and the cascade goes on at its former parent, which ends up a root or marked; the parent and mark columns are exactly `Cascaded` of the old state, so only `y` and its ancestors change; `min` and the old roots' marks are kept |
| `FibCut.CascadeReach` | HW2/hw2-2test.c:264-274 | the cascade leaves `y` a root or marked, and changes the parent or mark of no node except `y` and its ancestors |
| `FibCut.CascadeMarksParent` | HW2/hw2-2test.c:269-272 | after a marked non-root is cut, the cascade leaves its former parent a root or marked |
| `FibCut.CascadeAfterCut` | HW2/hw2-2test.c:269-272 | cutting `y` first does not change the cascade from its former parent, except at `y` |
| `FibHeap.Heap.DecreaseKey` | HW2/hw2-2test.c:229-239 | `x`'s entry drops by `delta` and the heap stays valid; `x` is cut onto the root ring exactly when it is now below its parent; afterwards `min` is `x` exactly when `x`'s new key is below the old `min`'s, and otherwise the old `min`; a cut `x` is unmarked |
| `FibCut.DecreaseInPlace` | HW2/hw2-2test.c:230-236 | lowering a key that stays at or above the parent's keeps the heap invariant |
| `FibHeap.Heap.Delete` | HW2/hw2-2test.c:281-290 | with non-negative keys, exactly `x` leaves the heap and `n` drops by one; every other entry is kept |
| `FibHeap.Heap.RootsSortedByDegree` | HW2/hw2-2test.c:366-397 | the result holds every root exactly once (as a multiset), sorted by degree and then by key; the count is 0 exactly for an empty heap |
| `FibHeap.Heap.CollectRoots` | HW2/hw2-2test.c:371-382 | the array holds the root ring read from `min` |
| `FibHeap.SortByDegree` | HW2/hw2-2test.c:385-395 | the selection sort leaves the first `count` cells sorted by degree and then by key, permuted, and the rest untouched |
| `FibHeap.RootWalk` | HW2/hw2-2test.c:136-143 | read from `min`, the root ring is a rotation of the roots: a proper ring of the same members, no longer than `n` |
| `FibNodes.MinIsSmallest` | HW2/hw2-2test.c:110-115 | in a valid heap, `min`'s key is at most every node's key (through `RootOf`, each node's ancestor root) |
| `FibNodes.RootOf` | HW2/hw2-2test.c:231-236 | every node has an ancestor root whose key is no larger |
| `FibNodes.DegreeBound` | HW2/hw2-2test.c:152-169 | every degree is below the number of nodes, so the degree table indexes in range |
| `FibNodes.InsertKeepsInv` | HW2/hw2-2test.c:67-85 | splicing a detached node in right of `min` keeps the heap invariant with one more node |
| `FibHeapAlt.Insert` | HW2/hw2-2.c:58-74 | a new node with key `k` joins the root ring immediately left of `min` (last when read from `min`), `n` grows by one, and `min` moves to it exactly on a strictly smaller key or an empty heap |
| `FibHeapAlt.InsertLeftKeepsInv` | HW2/hw2-2.c:62-73 | splicing a detached node in left of `min` keeps the heap invariant |
| `FibHeapAlt.InsertedLast` | HW2/hw2-2.c:67-72 | read from `min`, the new root ring is the old one with the new node appended |
| `FibHeapAlt.LinkNodes` | HW2/hw2-2.c:77-93 | `y` leaves the root ring and becomes the last child of `x`, left of `x.child`; `x`'s child list is the old one plus `y` |
| `FibHeapAlt.CutToLeft` | HW2/hw2-2.c:228-243 | the cut node is spliced in between `min`'s left neighbour and `min`; the forest stays valid with the same entries, and the smallest root is kept or is `x` |
| `FibHeapAlt.CascadingCut` | HW2/hw2-2.c:183-212 | like fibHeapCascadingCut, but cut nodes land left of `min`: the parent and mark columns are exactly `Cascaded` of the old state, and the former parent of a cut node ends up a root or marked; a root of least key stays one |
| `FibHeapAlt.DecreaseKey` | HW2/hw2-2.c:215-249 | an unknown node or a larger new key is rejected and changes nothing; otherwise `x` holds `newKey`, the heap stays valid, and `min` is `x` exactly when `newKey` is below the old least key |
| `FibHeapAlt.Decrease` | HW2/hw2-2.c:225-248 | once accepted, the new key is stored, `x` is cut exactly when it is below its parent, and `min` is updated on a strictly smaller key |
| `FibHeapAlt.DeleteKey` | HW2/hw2-2.c:252-255 | a non-empty heap loses one node: `x` when every other key is above INT_MIN, the old minimum when `x` is unknown; it ends with the corrected `FibAltExtract.ExtractMin`, so the children of the removed node are kept |
| `FibAltExtract.ExtractMin` | HW2/hw2-2.c:152-180 | with the child splice corrected, removes exactly the old `min` (whose key is the least), keeps every other entry and a valid heap, and decrements `n` |
| `FibAltExtract.ClearParents` | HW2/hw2-2.c:156-161 | every child of `min` on its child ring loses its parent; nothing else changes |
| `FibAltExtract.Adjoin` | HW2/hw2-2.c:162-167 | the child ring is spliced in as one block after `min`, giving the ring `min`, children, other roots |
| `FibAltExtract.TakeOut` | HW2/hw2-2.c:156-174 | the forest without `min` is valid, the children are roots without parents, and `min.right` is a root unless none remain |
| `FibAltExtract.StaleUnlinkLosesChildren` | HW2/hw2-2.c:162-173 | on a valid three-node heap, the extract-min links as written leave the next root alone on its ring, so the child is lost; the corrected splice keeps it |
| `FibAltTable.Rebuild` | HW2/hw2-2.c:130-147 | the table's roots form the new ring, each spliced left of `min`; no two roots share a degree and `min` is a root of least key |
| `FibAltTable.Consolidate` | HW2/hw2-2.c:96-149 | afterwards no two roots share a degree, keys and nodes are unchanged, and `min` is a root of least key |
| `FibHeapAlt.GetRoots` | HW2/hw2-2.c:278-303 | 0 for an empty heap; otherwise the first `number` roots read from `min` (at least one, at most `size`), sorted by degree then key, and all roots when they fit |
| `FibHeapAlt.GatherRoots` | HW2/hw2-2.c:282-289 | copies the ring read from `min` until it returns to `min` or `size` slots are filled, with at least one slot filled |
| `MinHeap.Swap` | hw1-3.c:12-16 | the two cells are exchanged and nothing else changes |
| `MinHeap.Heap.constructor` | hw1-3.c:96-97 | an empty heap |
| `MinHeap.Heap.Insert` | hw1-3.c:19-40 | a full heap is unchanged; otherwise the value is appended and sifted up, the contents gain exactly that value, and heap order is kept |
| `MinHeap.Heap.HeapifyUp` | hw1-3.c:31-39 | the loop computes `SiftUp` of the contents |
| `MinHeap.SiftUpPermutes` | hw1-3.c:31-39 | sifting up only permutes the contents |
| `MinHeap.InsertOrders` | hw1-3.c:19-40 | appending any value to a heap and sifting it up gives a heap |
| `MinHeap.Heap.HeapifyDown` | hw1-3.c:43-60 | the recursion computes `SiftDown` of the contents |
| `MinHeap.Smallest` | hw1-3.c:44-54 | the chosen index is the node or an existing child, holding the least of the three values, and a child only when strictly smaller |
| `MinHeap.SiftDownPermutes` | hw1-3.c:43-60 | sifting down only permutes the contents |
| `MinHeap.SiftDownOrders` | hw1-3.c:43-60 | sifting down a node whose subtree is ordered except at that node orders that subtree |
| `MinHeap.Heap.Find` | hw1-3.c:64-72 | the index of the first occurrence of the value, or -1 when it is absent |
| `MinHeap.FirstIndex` | hw1-3.c:64-72 | the index holds the value and no earlier cell does |
| `MinHeap.Heap.MoveLastTo` | hw1-3.c:80-84 | the last cell replaces the found one, the size drops by one, and that cell is sifted down |
| `MinHeap.Heap.DeleteElement` | hw1-3.c:63-85 | an absent value changes nothing; otherwise exactly one copy leaves the contents (multiset), and heap order holds everywhere except possibly into the replaced cell |
| `MinHeap.DeleteRemovesOne` | hw1-3.c:63-85 | the delete as written, and the corrected one, remove exactly one copy of the value |
| `MinHeap.DeleteOrdersBelow` | hw1-3.c:80-84 | after the sift-down-only delete, the only possible break in heap order is between the replaced cell and its parent |
| `MinHeap.DeleteBreaksOrder` | hw1-3.c:80-84 | the heap `[1, 5, 2, 6, 7, 3]` loses its order when 6 is deleted as written |
| `MinHeap.DeleteFixedOrders` | hw1-3.c:80-84 | the corrected delete (sift up when the moved value is below its new parent, else sift down) keeps heap order |
| `HashTable.Probe` | HW2/hw2-1.c:27-38 | the `k`-th bucket probed is `(key % n + k) % n`, always a valid bucket |
| `HashTable.ProbeOnce` | HW2/hw2-1.c:37-38 | over the `n + 1` probes 0..n, only the first and the last land on the same bucket, so the do-while visits each bucket once |
| `HashTable.StepOfInverse` | HW2/hw2-1.c:27-38 | a bucket's probe step and its probe position are inverses |
| `HashTable.LocateIsFirst` | HW2/hw2-1.c:43-55 | the search result is the first slot holding the value in probe order, and it is None exactly when no slot holds it |
| `HashTable.Table.constructor` | HW2/hw2-1.c:13-14 | a table of `n` buckets of `m` slots within the fixed grid |
| `HashTable.Table.Initialize` | HW2/hw2-1.c:17-23 | every slot of the first `n` buckets, first `m` slots, is EMPTY; the rest of the grid is untouched |
| `HashTable.Table.InsertKey` | HW2/hw2-1.c:26-40 | the key is written into the first EMPTY slot in probe order, and nothing else changes (a full table is unchanged) |
| `HashTable.InsertIntoEmptyGoesHome` | HW2/hw2-1.c:26-34 | in an empty table a key lands in slot 0 of bucket `key % n` |
| `HashTable.Table.SearchKey` | HW2/hw2-1.c:43-55 | reports the first slot holding the key in probe order, or None exactly when the key is absent |
| `HashTable.Table.DeleteKey` | HW2/hw2-1.c:58-70 | the first slot holding the key in probe order becomes EMPTY and nothing else changes |
| `Chars.CString` | hw1-2.c:71 | the string is the characters before the first NUL |
| `Chars.Strlen` | hw1.c:41 | the length scan stops at the first NUL |
| `InfixPostfix.Precedence` | hw1-2.c:50-58 | + and - have 1, * and / have 2, and every other character has 0; it is positive exactly for operators |
| `InfixPostfix.Stack.constructor` | hw1-2.c:15-17 | an empty stack |
| `InfixPostfix.Stack.IsEmpty` | hw1-2.c:20-22 | true exactly when the stack holds nothing |
| `InfixPostfix.Stack.Peek` | hw1-2.c:25-30 | the top item, or NUL on an empty stack |
| `InfixPostfix.Stack.Push` | hw1-2.c:33-37 | the item goes on top, or a full stack is unchanged |
| `InfixPostfix.Stack.Pop` | hw1-2.c:40-47 | the top item is returned and removed, or NUL from an empty stack |
| `InfixPostfix.PopWhileSpec` | hw1-2.c:81-84 | the pop loop moves the longest top run of operators with precedence at least the incoming one to the output, top first |
| `InfixPostfix.PopHigher` | hw1-2.c:81-84 | the loop computes `PopWhile`, and afterwards the stack is empty or its top has lower precedence |
| `InfixPostfix.ReadChar` | hw1-2.c:71-93 | one character of input is one `Step`: operands to the output, operators through the stack, anything else skipped |
| `InfixPostfix.Flush` | hw1-2.c:95-98 | the remaining stack goes to the output, top first |
| `InfixPostfix.InfixToPostfix` | hw1-2.c:66-100 | the output buffer holds `Postfix` of the input string followed by NUL |
| `InfixPostfix.PostfixOperands` | hw1-2.c:66-100 | the output keeps the input's operands in their order |
| `InfixPostfix.PostfixOperators` | hw1-2.c:66-100 | the output keeps the input's operators as a multiset |
| `InfixPostfix.PostfixClean` | hw1-2.c:66-100 | the output is only operands and operators, one per operand or operator of the input |
| `PrefixInfix.Node.constructor` | hw1.c:13-18 | a node with the given string and no next node |
| `PrefixInfix.Stack.Push` | hw1.c:20-24 | the string goes on top |
| `PrefixInfix.Stack.Pop` | hw1.c:26-33 | the top string is returned and removed, or None from an empty stack |
| `PrefixInfix.Snprintf` | hw1.c:58 | the written string is the longest prefix below the buffer size, all of it when it fits |
| `PrefixInfix.Combine` | hw1.c:56-58 | an operator and its two operands become one parenthesised string, three characters longer than its parts |
| `PrefixInfix.PrefixToInfix` | hw1.c:40-66 | the conversion loop computes `Result` of the input string |
| `PrefixInfix.RoundTrip` | hw1.c:40-66 | the prefix form of any well-formed expression converts to its parenthesised infix form |
| `PrefixInfix.ResultKeeps` | hw1.c:40-66 | a conversion that ends with one string keeps the operands in order and adds exactly three characters per operator |
| `PrefixInfix.PrintWithoutParentheses` | hw1.c:68-75 | writes the input string without its parentheses, then a newline |
| `PrefixInfix.StripInfix` | hw1.c:68-75 | without its parentheses, a converted expression reads as the in-order walk of the tree |
| `Bfs.Queue.constructor` | hw1-4.c:6 | an empty queue |
| `Bfs.Queue.Enqueue` | hw1-4.c:9-13 | the vertex joins the back; a full queue is unchanged |
| `Bfs.Queue.Dequeue` | hw1-4.c:16-19 | the front vertex is returned and taken, or -1 from an empty queue |
| `Bfs.Queue.IsEmpty` | hw1-4.c:22-24 | true exactly when no vertex is waiting |
| `Bfs.Expand` | hw1-4.c:40-45 | the unvisited neighbours among the first `m` vertices are enqueued in ascending order and marked visited |
| `Bfs.Round` | hw1-4.c:35-46 | one round takes the front vertex, records it, enqueues exactly its unvisited neighbours below `m` in ascending order, and keeps the traversal invariant |
| `Bfs.UnvisitedUndiscovered` | hw1-4.c:40-45 | when the visited marks track the queue, the neighbours the inner loop enqueues are exactly the neighbours not yet in the queue, in index order |
| `Bfs.DiscoveryStep` | hw1-4.c:35-46 | one round of bfs is one step of the reference search: the search continued from the new queue ends where it would have from the old one |
| `Bfs.Turn` | hw1-4.c:35-46 | a round that also keeps bfs on the course of the reference search |
| `Bfs.Seed` | hw1-4.c:28-33 | at the start only the start vertex is enqueued and visited |
| `Bfs.Drain` | hw1-4.c:35-46 | the loop runs until every enqueued vertex has been dequeued and recorded; the final queue is the one the reference search from the initial queue produces |
| `Bfs.Finish` | hw1-4.c:35-46 | a traversal that lists the reference search's queue 1-based equals the reference order |
| `Bfs.ClosedHoldsReachable` | hw1-4.c:35-46 | a set that holds the start and is closed under edges holds every reachable vertex |
| `Bfs.Bfs` | hw1-4.c:27-54 | the order starts with the start vertex and visits no vertex twice; it holds vertex `v` exactly when `v` is reachable from the start; it equals the order of the reference breadth-first search |

## Left out

- The `main` drivers, the command parsing in them, and the level-order and heap printers are not modelled. They only read input and print.
- `searchKey` prints the slot it finds. The model returns the slot instead.
- `printWithoutParentheses` calls `putchar`. The model returns the characters written.
- `malloc` and `free`, and allocation failure, are not modelled. Fibonacci nodes are handles in an arena. Strings of the prefix converter are values.
- The key-to-node maps of the Fibonacci drivers (`nodes_map` and `nodeArray`) are not modelled. Operations take a node handle, and an unknown key is the handle NIL.
- The BFS-style `Queue` structs of the two Fibonacci files are not modelled. They serve only the printers.
- The degree table of consolidation has `n` slots, not `floor(log2 n) + 1`. This makes the table big enough for every degree (`FibNodes.DegreeBound`) without floating point.
- The merge phase of `consolidate` in HW2/hw2-2.c (lines 104-127) is not modelled. It walks the live root ring while linking. `FibAltTable.Consolidate` uses the snapshot merge of HW2/hw2-2test.c for that phase, and models the rebuild phase of HW2/hw2-2.c.
- C `int` overflow is not modelled. Keys and the `delta` of decrease-key are unbounded integers.
- Amortised running-time bounds are not modelled.
- `MinHeap.Heap.DeleteElement`: states heap order only away from the replaced cell. The code as written can break order there (see Findings).
- `FibHeap.Heap.DecreaseKey`: requires `delta >= 0`. A negative `delta` raises the key, which the function is not meant for and which can break heap order.
- `FibHeap.Heap.Delete`: requires every key to be non-negative. The C code lowers the key to -1, so with a key already below -1 it would raise the key instead, and with another key at or below -1 it would not remove `x`.
- `FibHeapAlt.DeleteKey`: requires `x`'s key to be at least INT_MIN, which every C `int` is.
- `FibHeapAlt.DeleteKey`: ends with the corrected `FibAltExtract.ExtractMin`, not the extractMin as written. The C deleteKey calls the written one, so when the deleted node has children the C loses them (see "Findings"). The model keeps them.
- `FibHeapAlt.GetRoots`: requires room for at least one root (`1 <= root.Length`). The C loop writes `root[0]` before it tests `size`.
- `PrefixInfix.PrefixToInfix`: requires the input to be a string the conversion can consume (`Fed`). On other input the C code pops an empty stack and dereferences NULL.
- `HashTable.Table.InsertKey`, `HashTable.Table.SearchKey` and `HashTable.Table.DeleteKey`: require `key >= 0`. C's `%` truncates toward zero, so a negative key gives a negative bucket index.
- The queue of hw1-4.c is a global that is never reset between calls to `bfs`. The model creates it fresh for each call.

## Findings

| source | as written | input that shows it | evidently intended | confidence | as-written member | corrected member |
|---|---|---|---|---|---|---|
| hw1-3.c:80-84 | deleteElement moves the last value into the freed cell and only sifts it down | heap `[1, 5, 2, 6, 7, 3]`, delete 6: the last value 3 lands below 5 | sift the moved value up when it is smaller than its new parent, otherwise down, so heap order is kept | not executed | `MinHeap.DeleteBreaksOrder` | `MinHeap.DeleteFixedOrders` |
| HW2/hw2-2.c:162-173 | extractMin splices `min`'s child ring in between `min`'s neighbours, which already removes `min`, then unlinks `min` again through its stale `left`/`right` | root 0 (key 1) with child 1 (key 3), and root 2 (key 2): after the second unlink, root 2 is alone on its ring and child 1 is unreachable | splice the children in next to `min` and then unlink `min` once, so every child becomes a root | not executed | `FibAltExtract.StaleUnlinkLosesChildren` | `FibAltExtract.ExtractMin` |

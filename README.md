# k-d tree model

This project models `KDTree<N, ElemType>` from `src/KDTree.hpp`. It is an unbalanced k-d tree over points with `N`
coordinates, and each point carries a value. The operations are:

- `insert`, which walks down from the root and either overwrites or links up a node;
- the exact-match lookup `findPoint`;
- `build`, which is 1000 inserts in a row;
- `range_query`, a single descent;
- `knn_query`, `nn_value` and `knn_value_helper`, the near-then-far search through a bounded priority queue.

The files are:

- `pqueue.dfy` (module `PQueue`) models the bounded priority queue. Its header is not part of this model, so the queue
  is modelled only by the operations the tree calls on it: construction with a capacity, `enqueue`, `dequeueMin`,
  `worst`, `size`, `maxSize` and `empty`. It is kept as a sequence of (item, priority) entries in non-decreasing
  priority order. An enqueued entry goes behind every entry of equal priority. When the capacity is exceeded, the
  back (worst) entry is dropped. At capacity, a tie with the worst entry therefore keeps the entry already retained.
- `kdnodes.dfy` (module `KDNodes`) holds the nodes. The heap of `Node` objects is an arena `seq<Node<V>>`, and a
  `Node*` is a `Link` (`Nil` or `Ptr(index)`). Ghost paths (the turns from the root) and parents describe the tree's
  shape. The invariants are:
  - the splitting invariant: strictly below on dimension `level % N` goes left, otherwise right;
  - distinct keys;
  - `level` equal to depth;
  - every node reachable from the root.

  The module also proves that insert's descent and link-up step preserve these invariants.
  It also defines insert as a function of the arena, `InsertedArena`: the value is overwritten at the node
  `FindSlot` stops at, or a new node is hung from the free slot it reaches.
- `kdsearch.dfy` (module `KDSearch`) defines the three traversals as functions of the arena: the descent path, the
  range query's hits and the neighbour search `KnnSearch`. It proves what they return.
- `kdtree.dfy` (module `KDTrees`) is the class `KDTree` itself, with the fields `size`, `root` and `nodes`. Its methods
  are the source's `while` loops, `for` loops and recursion. The abstraction `Contents()` is the map from each stored
  key to its value. The methods are proved against it and against the functions above:
  - `Insert` leaves the arena equal to `InsertedArena` and binds the key in `Contents()`;
  - `Build` leaves the arena equal to `InsertedRowsArena`, the fold of `InsertedArena` over rows 0 to 999, and
    `Contents()` equal to `InsertedRows`;
  - `FindPoint` answers exactly whether the key is in `Contents()`;
  - `RangeQuery` returns `ValsOf` of `RangeHits`;
  - `KnnHelper` leaves the queue equal to `KnnSearch`, and `KnnQuery` returns the values of that queue in order.

Points are `seq<real>` of length `N`, compared coordinate-wise. The distance is a parameter `dist` of the queries,
because the point type's implementation is not part of this model. Lemmas that need it to behave like a distance
assume it is `Separating`: never negative, and zero exactly between equal points.

## Model

| member | source | states |
|---|---|---|
| `PQueue.InsertSorted` | src/KDTree.hpp:184 | enqueueing keeps the queue ordered by priority, adds one entry, and puts nothing better than both the new entry and the old best in front |
| `PQueue.InsertSortedPermutes` | src/KDTree.hpp:184 | enqueueing adds exactly the new entry to the multiset of entries |
| `PQueue.InsertSortedItems` | src/KDTree.hpp:184 | enqueueing adds exactly the new item to the multiset of items |
| `PQueue.InsertSortedEnds` | src/KDTree.hpp:184 | an entry no better than the worst goes to the back; a tie with the best stays behind it |
| `PQueue.Enqueued` | src/KDTree.hpp:184 | the queue after an enqueue stays sorted and within capacity, and grows by one exactly when it had room |
| `PQueue.EnqueuedMembers` | src/KDTree.hpp:184 | every entry after an enqueue was already retained or is the new one |
| `PQueue.EnqueuedBelowCapacity` | src/KDTree.hpp:184 | below capacity the entry is always kept and nothing leaves |
| `PQueue.InsertSortedDropLast` | src/KDTree.hpp:184 | for an entry better than the worst, inserting it and then dropping the back equals dropping the back and then inserting it |
| `PQueue.EnqueuedEvictsWorst` | src/KDTree.hpp:184 | at capacity, an entry strictly better than the worst evicts the worst |
| `PQueue.EnqueuedDiscards` | src/KDTree.hpp:184 | at capacity, an entry no better than the worst is discarded, so ties keep the retained entry |
| `PQueue.EnqueuedBest` | src/KDTree.hpp:184 | with capacity at least 1 the best retained priority never worsens and is at most the one just enqueued |
| `PQueue.WorstIsLargest` | src/KDTree.hpp:190 | the back entry, the one `worst()` reports, has the largest retained priority |
| `PQueue.BoundedPQueue.constructor` | src/KDTree.hpp:171 | a new queue is empty with the given capacity |
| `PQueue.BoundedPQueue.Enqueue` | src/KDTree.hpp:184 | the queue becomes `Enqueued` of the old queue |
| `PQueue.BoundedPQueue.DequeueMin` | src/KDTree.hpp:176 | returns the front (smallest-priority) item and removes it |
| `KDNodes.ContentsHas` | src/KDTree.hpp:49-60 | every node's key is stored and, with distinct keys, bound to that node's value |
| `KDNodes.ContentsWitness` | src/KDTree.hpp:49-60 | every stored key is some node's key |
| `KDNodes.ContentsOnly` | src/KDTree.hpp:49-60 | a key held by no node is not stored |
| `KDNodes.ContentsSize` | src/KDTree.hpp:132 | with distinct keys the number of stored keys equals the number of nodes |
| `KDNodes.ContentsOverwrite` | src/KDTree.hpp:115-119 | overwriting one node's value rebinds its key and nothing else |
| `KDNodes.Subtree` | src/KDTree.hpp:54-55 | the nodes reachable from a link are that node and nodes allocated after it |
| `KDNodes.SubtreePrefix` | src/KDTree.hpp:54-55 | every node below a node has that node's path as a prefix |
| `KDNodes.SubtreeDisjoint` | src/KDTree.hpp:54-55 | a node's left and right subtrees share no node and do not contain it |
| `KDNodes.ChildInSubtree` | src/KDTree.hpp:54-55 | a subtree is closed under following child links |
| `KDNodes.ReachableFromRoot` | src/KDTree.hpp:134-139 | every node is reachable from the root |
| `KDNodes.RootSubtree` | src/KDTree.hpp:62 | the root's subtree is exactly the whole set of nodes, so its size is the node count |
| `KDNodes.NoNodeBelow` | src/KDTree.hpp:120-130 | when no node has a given path, no node lies below that path |
| `KDNodes.DescendStart` | src/KDTree.hpp:108-110 | the walk starts at the root with the empty path |
| `KDNodes.FreeSlot` | src/KDTree.hpp:112 | a null child link is a free slot: no node has the path it would have |
| `KDNodes.StepTurns` | src/KDTree.hpp:120-130 | taking the turn the current node dictates keeps every turn so far consistent with the point |
| `KDNodes.StepKey` | src/KDTree.hpp:120-130 | a node holding the point below the current node lies on the side the `>=` rule picks |
| `KDNodes.DescendStep` | src/KDTree.hpp:120-130 | one step of the walk past a non-equal node keeps the descent invariant |
| `KDNodes.DescendEnd` | src/KDTree.hpp:112 | a walk that reaches a null link shows that no node holds the point |
| `KDNodes.SetChild` | src/KDTree.hpp:136-139 | setting one child link leaves the other link, the key, the value and the level alone |
| `KDNodes.GrownChildren` | src/KDTree.hpp:133-139 | after link-up the new node has no children, `lastNode` points at it on one side, and every other link is unchanged |
| `KDNodes.TrailStart` | src/KDTree.hpp:108-110 | insert's walk starts with `lastNode` null at the root |
| `KDNodes.TrailStep` | src/KDTree.hpp:121-130 | each step records the node left as `lastNode` and the side taken |
| `KDNodes.TrailEnd` | src/KDTree.hpp:131-136 | when the walk ends, `lastNode` is null exactly when the tree is empty, and its last turn is the `>=` test of line 136 |
| `KDNodes.AttachChildPaths` | src/KDTree.hpp:133-139 | after link-up each child's path extends its parent's |
| `KDNodes.AttachParentLinks` | src/KDTree.hpp:133-139 | after link-up every non-root node hangs from an earlier node |
| `KDNodes.AttachDistinctPaths` | src/KDTree.hpp:133-139 | the new node's path is new |
| `KDNodes.GrownSplit` | src/KDTree.hpp:120-139 | the new node respects every ancestor's split, so the splitting invariant is preserved |
| `KDNodes.GrownLinked` | src/KDTree.hpp:133-139 | after link-up every link points into the arena, at a later node |
| `KDNodes.GrownKeys` | src/KDTree.hpp:115-133 | a key not already present keeps the keys pairwise distinct |
| `KDNodes.GrownContents` | src/KDTree.hpp:133 | the new node binds its point to its value |
| `KDNodes.AttachLevels` | src/KDTree.hpp:110-133 | the new node's level equals its depth, and the root's is 0 |
| `KDNodes.GrownValid` | src/KDTree.hpp:132-139 | link-up at the free slot keeps every invariant and binds the point to the value |
| `KDNodes.RootAttachFacts` | src/KDTree.hpp:133-135 | inserting into an empty tree gives a valid one-node tree at level 0 |
| `KDNodes.ChildAttachFacts` | src/KDTree.hpp:133-139 | hanging the new node on the side the `>=` test picks keeps every invariant, adds one node and keeps the root |
| `KDNodes.SameShapeLinks` | src/KDTree.hpp:117 | changing only values keeps links and paths valid |
| `KDNodes.SameShapeSplit` | src/KDTree.hpp:117 | changing only values keeps the splitting invariant |
| `KDNodes.SameShapeValid` | src/KDTree.hpp:117 | the invariants never depend on values |
| `KDNodes.OverwriteValid` | src/KDTree.hpp:115-119 | overwriting a node's value keeps every invariant and rebinds only its key |
| `KDNodes.FindSlot` | src/KDTree.hpp:112-131 | insert's walk stops either at a node holding the point or at a node whose link on the point's side is null, never above its starting depth |
| `KDNodes.FindSlotStep` | src/KDTree.hpp:120-130 | past a node not holding the point, the walk continues from the child on the point's side, one level deeper |
| `KDNodes.InsertedArena` | src/KDTree.hpp:107-140 | insert on the arena: an existing key keeps the shape, and a new key appends exactly one childless node holding it |
| `KDNodes.InsertedArenaFound` | src/KDTree.hpp:115-119 | when the walk stops at node `c`, insert only replaces `c`'s value |
| `KDNodes.InsertedArenaFree` | src/KDTree.hpp:132-139 | when the walk stops at a null link, the new node becomes the root of an empty tree, or hangs from the node last left at the walk's depth |
| `KDSearch.DescentPath` | src/KDTree.hpp:155-165 | the descent by the `>=` rule starts at the given node and visits only nodes of the arena |
| `KDSearch.DescentPathFinds` | src/KDTree.hpp:214-221 | every node holding the point lies on the descent |
| `KDSearch.DescentFindsKey` | src/KDTree.hpp:212-223 | a key is stored exactly when a node on its descent from the root holds it |
| `KDSearch.RangeHits` | src/KDTree.hpp:155-165 | the range hits are nodes of the arena |
| `KDSearch.RangeHitsOnDescent` | src/KDTree.hpp:155-165 | the hits are the descent path filtered by the range test, in descent order, so they are exactly the descent's nodes within range and no more than the nodes on the path |
| `KDSearch.RangeHitsFindKey` | src/KDTree.hpp:155-165 | a stored query point within range of itself is among the hits |
| `KDSearch.FindSlotOnDescent` | src/KDTree.hpp:112-131 | insert's walk stops at a node exactly when a node on the point's descent holds the point |
| `KDSearch.FindSlotStored` | src/KDTree.hpp:112-119 | from the root, insert's walk stops at a node exactly when the point is already stored |
| `KDSearch.ValsOf` | src/KDTree.hpp:159 | the values of a list of nodes, in order |
| `KDSearch.ValsOfCons` | src/KDTree.hpp:159 | appending a hit's value and then the values of the later hits equals appending the values of all of them |
| `KDSearch.RangeScanHits` | src/KDTree.hpp:153-166 | the walk's accumulator ends as the values of the hits, in descent order |
| `KDSearch.RangeValuesSound` | src/KDTree.hpp:157-159 | every returned value is bound to a key within the range (no false positives) |
| `KDSearch.RangeValuesComplete` | src/KDTree.hpp:155-165 | a stored query point within range of itself has its value returned |
| `KDSearch.KnnSearch` | src/KDTree.hpp:182-199 | the search keeps the queue sorted and within capacity and never shrinks it |
| `KDSearch.KnnSearchStep` | src/KDTree.hpp:184-198 | one step enqueues the node, searches the near side, then the far side if the pruning test allows |
| `KDSearch.KnnSearchEntries` | src/KDTree.hpp:184 | the queue holds only nodes of the tree, each with its own distance to the query |
| `KDSearch.KnnSearchKeepsBest` | src/KDTree.hpp:184-198 | with capacity at least 1, a search that meets any node leaves a non-empty queue whose best never worsens |
| `KDSearch.KnnSearchStepBest` | src/KDTree.hpp:184-198 | after one step the best retained distance is at most the node's own |
| `KDSearch.KnnSearchBest` | src/KDTree.hpp:182-199 | with capacity at least 1 the best retained distance is at most that of every node on the query's descent |
| `KDSearch.SubtreeSplit` | src/KDTree.hpp:187-197 | a node's subtree is the node plus its disjoint near and far subtrees |
| `KDSearch.KnnSearchAllSize` | src/KDTree.hpp:190-197 | when the queue has room for the whole subtree, the queue grows by the subtree's size |
| `KDSearch.KnnSearchCount` | src/KDTree.hpp:184-197 | the search ends with exactly the smaller of the capacity and the queue's size plus the subtree's size entries |
| `KDSearch.KnnSearchAll` | src/KDTree.hpp:190-197 | when the queue has room for the whole subtree, its items grow by exactly the subtree's nodes, each once |
| `KDSearch.NearestOfStoredKey` | src/KDTree.hpp:143-149 | for a separating distance, the one-neighbour search for a stored point keeps that point's node |
| `KDSearch.NearestFound` | src/KDTree.hpp:143-149 | in a non-empty tree the one-neighbour search keeps a node at least as near as every node on the descent |
| `KDSearch.KnnSearchReturnsAll` | src/KDTree.hpp:182-199 | with `k` at least the node count, every node is retained, once each |
| `KDSearch.KnnValues` | src/KDTree.hpp:170-179 | the drained values are nearest first and all stored, there are exactly min(`k`, `size_`) of them, and when `k >= size_` they cover every stored value |
| `KDTrees.RowPoint` | src/KDTree.hpp:83-86 | a row's point is its first `N` coordinates |
| `KDTrees.InsertedRowsKeys` | src/KDTree.hpp:81-88 | after the batch of inserts, a key is present exactly when it was before or some row has that point |
| `KDTrees.InsertedRowsLatest` | src/KDTree.hpp:81-88 | the last row with a given point decides its value |
| `KDTrees.InsertedRowsArena` | src/KDTree.hpp:81-88 | the arena after inserting the first rows in order keeps links forward and points `N`-dimensional, and gains at most one node per row |
| `KDTrees.KDTree.constructor` | src/KDTree.hpp:71-76 | the new tree is valid and empty with size 0 |
| `KDTrees.KDTree.Size` | src/KDTree.hpp:101-104 | the size is the number of stored keys |
| `KDTrees.KDTree.Insert` | src/KDTree.hpp:106-140 | keeps every invariant and binds `pt` to `value`; the size grows by one exactly for a new key; the arena becomes `InsertedArena` of the old one, so an existing key keeps the shape and a new key appends exactly one node |
| `KDTrees.KDTree.InsertWalk` | src/KDTree.hpp:108-131 | the walk ends at the node `FindSlot` finds, or at the free slot it finds, with the node last left and the depth reached |
| `KDTrees.KDTree.Overwrite` | src/KDTree.hpp:115-119 | a coordinate-equal node gets the new value; size and links are unchanged |
| `KDTrees.KDTree.AttachRoot` | src/KDTree.hpp:132-135 | inserting into an empty tree makes the new node the root and the size 1 |
| `KDTrees.KDTree.AttachChild` | src/KDTree.hpp:132-139 | the new node, at the walk's depth, hangs from `lastNode` on the side the `>=` test picks; every other link is unchanged and the size grows by one |
| `KDTrees.KDTree.FindPoint` | src/KDTree.hpp:212-223 | returns true exactly when the point is stored, without changing the tree |
| `KDTrees.KDTree.CopyRow` | src/KDTree.hpp:83-86 | the point buffer holds the row's first `N` coordinates |
| `KDTrees.KDTree.Build` | src/KDTree.hpp:79-89 | equals inserting rows 0 to 999 in order, each row's first `N` coordinates bound to its index; the arena is the one those inserts build |
| `KDTrees.KDTree.InsertRow` | src/KDTree.hpp:83-87 | each row's insert advances both the contents and the arena by exactly that row |
| `KDTrees.KDTree.RangeQuery` | src/KDTree.hpp:152-167 | returns the values of the descent's nodes within range, in order; none is a false positive, there are at most as many as nodes on the path, and a stored query point within range of itself is included |
| `KDTrees.KDTree.KnnHelper` | src/KDTree.hpp:182-199 | the queue becomes `KnnSearch` of the old queue |
| `KDTrees.KDTree.ExploreFarSide` | src/KDTree.hpp:190-196 | the far-side test exactly as written: the queue is not full, or the node's own splitting coordinate is below the worst distance |
| `KDTrees.KDTree.KnnQuery` | src/KDTree.hpp:170-179 | returns exactly min(`k`, `size_`) values, nearest first, every one stored; with `k >= size_` they cover every stored value |
| `KDTrees.KDTree.DrainValues` | src/KDTree.hpp:175-176 | empties the queue, keeping each entry's node value in queue order |
| `KDTrees.KDTree.NnValue` | src/KDTree.hpp:143-149 | on a non-empty tree, returns the value of the node the one-entry search retains (the first one met among equally near nodes); that value is stored, its key is at least as near as every node on the descent, and it is the query's own value when the query is stored |

## Left out

- `main.cpp` is not part of this model. It only generates random data, times the operations and prints.
- The destructor and `deleteNode` are left out because they only free memory. `findNode` is declared but never
  defined, and so is `range_query_helper` (line 67). `dimension()` only returns `N`.
- Floating point is not modelled: coordinates and distances are exact reals. With real numbers the `else if` at line
  126 always holds, so the walk never stalls as it could on NaN.
- The distance function and `Point`'s implementation are not part of this model. `dist` is a parameter, and only
  `Separating` (non-negative, zero exactly on equal points) is assumed where a lemma needs it.
- The bounded priority queue's header is not part of this model. Its behaviour is modelled from how the tree uses it
  and from the usual multimap-backed design. `worst()` on an empty queue is taken as +infinity. This is reached only
  with `k = 0`, where the queue is full while empty.
- `KDTrees.KDTree.KnnQuery`: does not promise the true k nearest neighbours, because the far-side test at lines
  190 and 196 compares `key[dim] < worst()` rather than the hyperplane distance `|key[dim] - q[dim]|`. The model
  keeps that test as written, so exactness does not follow. What is proved instead: nearest-first order, exactly
  min(`k`, `size_`) values, stored values only, and the whole tree when `k >= size_`.
- `KDTrees.KDTree.NnValue`: requires a non-empty tree. On an empty tree the source dequeues from an empty queue at
  line 147, which is undefined behaviour, so that case has no model.
- `KDTrees.KDTree.NnValue`: promises a value at least as near as every node on the query's descent, not the global
  nearest, for the same reason.
- `KDTrees.KDTree.RangeQuery`: does not promise every value within range. The source follows one path, so points
  within range on the other side of a splitting plane are missed, and the model reproduces this.
- `size_` is `size_t` in the source. The model uses an unbounded `nat`, because a tree cannot hold 2^64 nodes.
- Update in place through pointers is modelled as reassigning the node arena. Nodes are never shared, so aliasing
  does not arise.


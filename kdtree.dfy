/**
 * The k-d tree of dimension `N` mapping points to values.  The object keeps
 * the element count, the root pointer and the heap of nodes (an arena, see
 * KDNodes); the ghost paths and parents describe the tree's shape.  Every
 * public operation keeps `Valid()`, and what the tree stores is the map
 * `Contents()`.
 */
module KDTrees {
  import opened PQueue
  import opened KDNodes
  import opened KDSearch

  /** The number of rows build always reads. */
  const BuildRows: nat := 1000

  /** The point of a data row: its first `N` coordinates. */
  function RowPoint(row: seq<real>, N: nat): (p: Point)
    requires |row| >= N
    ensures |p| == N && forall j | 0 <= j < N :: p[j] == row[j]
  {
    row[..N]
  }

  /**
   * The contents after inserting the first `count` rows of `data`, row `i`
   * bound to `indices[i]`, into a tree holding `start`.
   */
  ghost function InsertedRows<V>(start: map<Point, V>, data: seq<seq<real>>, indices: seq<V>,
                                 N: nat, count: nat): map<Point, V>
    requires count <= |data| && count <= |indices|
    requires forall i | 0 <= i < count :: |data[i]| >= N
  {
    if count == 0 then start
    else InsertedRows(start, data, indices, N, count - 1)[RowPoint(data[count - 1], N) := indices[count - 1]]
  }

  /** A key is present after the inserts exactly when it was before or some row has that point. */
  lemma {:induction false} InsertedRowsKeys<V>(start: map<Point, V>, data: seq<seq<real>>, indices: seq<V>,
                                               N: nat, count: nat, p: Point)
    requires count <= |data| && count <= |indices|
    requires forall i | 0 <= i < count :: |data[i]| >= N
    ensures p in InsertedRows(start, data, indices, N, count) <==>
              p in start || exists i | 0 <= i < count :: RowPoint(data[i], N) == p
  {
    if count > 0 {
      InsertedRowsKeys(start, data, indices, N, count - 1, p);
    }
  }

  /** A row whose point no later row repeats leaves its own value bound to that point. */
  lemma {:induction false} InsertedRowsLatest<V>(start: map<Point, V>, data: seq<seq<real>>, indices: seq<V>,
                                                 N: nat, count: nat, i: nat)
    requires count <= |data| && count <= |indices|
    requires forall r | 0 <= r < count :: |data[r]| >= N
    requires i < count
    requires forall j | i < j < count :: RowPoint(data[j], N) != RowPoint(data[i], N)
    ensures var m := InsertedRows(start, data, indices, N, count);
      RowPoint(data[i], N) in m && m[RowPoint(data[i], N)] == indices[i]
  {
    if i < count - 1 {
      InsertedRowsLatest(start, data, indices, N, count - 1, i);
    }
  }

  /**
   * The arena after inserting the first `count` rows of `data` in order,
   * row `i` bound to `indices[i]`, into the arena `nodes`.
   */
  function InsertedRowsArena<V>(N: nat, nodes: seq<Node<V>>, data: seq<seq<real>>, indices: seq<V>,
                                count: nat): (r: seq<Node<V>>)
    requires N >= 1 && Linked(nodes) && Dimensioned(N, nodes)
    requires count <= |data| && count <= |indices|
    requires forall i | 0 <= i < count :: |data[i]| >= N
    ensures Linked(r) && Dimensioned(N, r)
    ensures |nodes| <= |r| <= |nodes| + count
  {
    if count == 0 then nodes
    else
      var before := InsertedRowsArena(N, nodes, data, indices, count - 1);
      InsertedArena(N, before, RowPoint(data[count - 1], N), indices[count - 1])
  }

  class KDTree<V> {
    /** The dimension: the number of coordinates of every point. */
    const N: nat
    /** The number of elements. */
    var size: nat
    var root: Link
    /** The heap of nodes; node `i` is allocated `i`-th. */
    var nodes: seq<Node<V>>
    ghost var paths: seq<seq<bool>>
    ghost var parents: seq<nat>

    ghost predicate Valid()
      reads this
    {
      size == |nodes| && root == Root(nodes) && ArenaValid(N, nodes, paths, parents)
    }

    /** Each stored key bound to its value. */
    ghost function Contents(): map<Point, V>
      reads this
    {
      ContentsOf(nodes)
    }

    /** An empty tree of dimension `N`. */
    constructor (N: nat)
      requires N >= 1
      ensures Valid() && this.N == N && Contents() == map[] && size == 0
    {
      this.N := N;
      size := 0;
      root := Nil;
      nodes := [];
      paths := [];
      parents := [];
    }

    /** The number of elements: one per stored key. */
    function Size(): (n: nat)
      reads this
      requires Valid()
      ensures n == |Contents()|
    {
      ContentsSize(nodes);
      size
    }

    /**
     * Binds `pt` to `value`: walks down from the root as the splitting rule
     * sends `pt`; a node already holding `pt` has its value replaced,
     * otherwise a new node is hung on the null link the walk ended at.
     */
    method Insert(pt: Point, value: V)
      requires Valid() && |pt| == N
      modifies this
      ensures Valid()
      ensures Contents() == old(Contents())[pt := value]
      ensures size == if pt in old(Contents()) then old(size) else old(size) + 1
      ensures pt in old(Contents()) ==> SameShape(old(nodes), nodes)
      ensures pt !in old(Contents()) ==> Appended(old(nodes), nodes, pt, value)
      ensures nodes == InsertedArena(N, old(nodes), pt, value)
    {
      var cur, last, level, P := InsertWalk(pt);
      if cur.Ptr? {
        InsertedArenaFound(N, nodes, pt, value, cur.index);
        Overwrite(cur.index, pt, value);
        return;
      }
      TrailEnd(N, nodes, paths, parents, pt, last, P);
      InsertedArenaFree(N, nodes, pt, value, last, level);
      if root.Nil? {
        AttachRoot(pt, value);
      } else {
        AttachChild(pt, value, level, last.index, P);
      }
    }

    /**
     * Insert's walk: from the root, stop at a node holding `pt` or at the
     * null link `pt` descends to, remembering the node last left and the
     * depth reached. `P` is the ghost sequence of turns taken.
     */
    method InsertWalk(pt: Point) returns (cur: Link, last: Link, level: nat, ghost P: seq<bool>)
      requires Valid() && |pt| == N
      ensures Trail(N, nodes, paths, parents, pt, last, cur, P)
      ensures cur.Ptr? ==> FindSlot(N, nodes, pt, Root(nodes), Nil, 0) == Found(cur.index)
      ensures cur.Nil? ==> FindSlot(N, nodes, pt, Root(nodes), Nil, 0) == Free(last, level) && level == |P|
    {
      cur := root;
      last := Nil;
      level := 0;
      P := [];
      ghost var slot := FindSlot(N, nodes, pt, Root(nodes), Nil, 0);
      TrailStart(N, nodes, paths, parents, pt);
      while cur.Ptr?
        invariant Trail(N, nodes, paths, parents, pt, last, cur, P)
        invariant level == |P|
        invariant last.Ptr? ==> last.index < |nodes| && cur == Child(nodes[last.index], GoesRight(N, pt, nodes[last.index]))
        invariant FindSlot(N, nodes, pt, cur, last, level) == slot
        decreases Measure(|nodes|, cur)
      {
        level := level + 1;
        var c := cur.index;
        if pt == nodes[c].key {
          return;
        }
        var keyDimension := nodes[c].level % N;
        TrailStep(N, nodes, paths, parents, pt, last, c, P);
        FindSlotStep(N, nodes, pt, c, last, level - 1);
        last := cur;
        if pt[keyDimension] < nodes[c].key[keyDimension] {
          cur := nodes[c].left;
          P := P + [false];
        } else {
          cur := nodes[c].right;
          P := P + [true];
        }
      }
    }

    /** The end of insert when node `c` holds `pt`: its value is replaced and nothing else changes. */
    method Overwrite(c: nat, pt: Point, value: V)
      requires Valid() && c < |nodes| && nodes[c].key == pt
      modifies this
      ensures Valid()
      ensures pt in old(Contents()) && Contents() == old(Contents())[pt := value]
      ensures size == old(size) && SameShape(old(nodes), nodes)
      ensures nodes == old(nodes)[c := old(nodes)[c].(val := value)]
    {
      ContentsHas(nodes, c);
      OverwriteValid(N, nodes, paths, parents, c, value);
      nodes := nodes[c := nodes[c].(val := value)];
    }

    /** The end of insert into an empty tree: the new node, at depth 0, becomes the root. */
    method AttachRoot(pt: Point, value: V)
      requires Valid() && |pt| == N && root.Nil?
      modifies this
      ensures Valid()
      ensures pt !in old(Contents()) && Contents() == old(Contents())[pt := value]
      ensures size == old(size) + 1 && Appended(old(nodes), nodes, pt, value)
      ensures old(nodes) == [] && nodes == [Node(pt, value, 0, Nil, Nil)]
    {
      var added := Node(pt, value, 0, Nil, Nil);
      nodes, root, size := [added], Ptr(0), size + 1;
      paths, parents := [[]], [0];
      RootAttachFacts(N, pt, value);
    }

    /**
     * The end of insert when no node holds `pt` and the walk left node
     * `last` by a null link: the new node, at depth `level`, is hung on the
     * side of `last` that `pt` goes to.
     */
    method AttachChild(pt: Point, value: V, level: nat, last: nat, ghost P: seq<bool>)
      requires Valid() && |pt| == N && level == |P| && last < |nodes|
      requires FreeSlotFor(N, nodes, paths, parents, pt, P, last, LastTurn(P))
      requires LastTurn(P) == GoesRight(N, pt, nodes[last])
      modifies this
      ensures Valid()
      ensures pt !in old(Contents()) && Contents() == old(Contents())[pt := value]
      ensures size == old(size) + 1 && Appended(old(nodes), nodes, pt, value)
      ensures LinksGrown(old(nodes), nodes, last, GoesRight(N, pt, old(nodes)[last]))
      ensures nodes[old(|nodes|)].level == level
      ensures nodes == Grown(old(nodes), pt, value, level, last, GoesRight(N, pt, old(nodes)[last]))
    {
      ghost var oldNodes, oldPaths, oldParents, oldRoot := nodes, paths, parents, root;
      var right := GoesRight(N, pt, nodes[last]);
      nodes, size, paths, parents :=
        (nodes + [Node(pt, value, level, Nil, Nil)])[last := SetChild(nodes[last], right, Ptr(|nodes|))],
        size + 1, paths + [P], parents + [last];
      // The root link is untouched; stating it keeps the frame proof short.
      assert root == oldRoot;
      ChildAttachFacts(N, oldNodes, oldPaths, oldParents, pt, value, P, last, nodes, paths, parents);
      GrownChildren(oldNodes, pt, value, level, last, right);
    }

    /** Whether some node holds `pt`: the walk insert would take, stopping at an equal key. */
    method FindPoint(pt: Point) returns (found: bool)
      requires Valid() && |pt| == N
      ensures found <==> pt in Contents()
    {
      var cur := root;
      ghost var P: seq<bool> := [];
      DescendStart(N, nodes, paths, parents, pt);
      while cur.Ptr?
        invariant Descending(N, nodes, paths, parents, pt, cur, P)
        decreases Measure(|nodes|, cur)
      {
        var c := cur.index;
        if nodes[c].key == pt {
          ContentsHas(nodes, c);
          return true;
        }
        var d := nodes[c].level % N;
        DescendStep(N, nodes, paths, parents, pt, c, P);
        if pt[d] >= nodes[c].key[d] {
          cur := nodes[c].right;
          P := P + [true];
        } else {
          cur := nodes[c].left;
          P := P + [false];
        }
      }
      DescendEnd(N, nodes, paths, parents, pt, P);
      return false;
    }

    /** Build's inner loop: the first `N` coordinates of `row` are copied into the point buffer. */
    static method CopyRow(row: seq<real>, tempPoint: array<real>)
      requires |row| >= tempPoint.Length
      modifies tempPoint
      ensures tempPoint[..] == RowPoint(row, tempPoint.Length)
    {
      for j := 0 to tempPoint.Length
        invariant forall k | 0 <= k < j :: tempPoint[k] == row[k]
      {
        tempPoint[j] := row[j];
      }
    }

    /**
     * Inserts the first 1000 rows of `data`, the point of row `i` being its
     * first `N` coordinates and its value `indices[i]`.
     */
    method Build(data: seq<seq<real>>, indices: seq<V>)
      requires Valid()
      requires |data| >= BuildRows && |indices| >= BuildRows
      requires forall i | 0 <= i < BuildRows :: |data[i]| >= N
      modifies this
      ensures Valid()
      ensures Contents() == InsertedRows(old(Contents()), data, indices, N, BuildRows)
      ensures nodes == InsertedRowsArena(N, old(nodes), data, indices, BuildRows)
    {
      ghost var start, startNodes := Contents(), nodes;
      var tempPoint := new real[N];
      for i := 0 to BuildRows
        invariant Valid() && tempPoint.Length == N
        invariant Contents() == InsertedRows(start, data, indices, N, i)
        invariant nodes == InsertedRowsArena(N, startNodes, data, indices, i)
      {
        InsertRow(data, indices, i, tempPoint, start, startNodes);
      }
    }

    /**
     * One step of build: row `i` is copied into the point buffer and
     * inserted with value `indices[i]`, so the rows inserted so far grow by one.
     */
    method InsertRow(data: seq<seq<real>>, indices: seq<V>, i: nat, tempPoint: array<real>,
                     ghost start: map<Point, V>, ghost startNodes: seq<Node<V>>)
      requires Valid() && tempPoint.Length == N
      requires i < |data| && i < |indices| && forall k | 0 <= k <= i :: |data[k]| >= N
      requires Linked(startNodes) && Dimensioned(N, startNodes)
      requires Contents() == InsertedRows(start, data, indices, N, i)
      requires nodes == InsertedRowsArena(N, startNodes, data, indices, i)
      modifies this, tempPoint
      ensures Valid()
      ensures Contents() == InsertedRows(start, data, indices, N, i + 1)
      ensures nodes == InsertedRowsArena(N, startNodes, data, indices, i + 1)
    {
      CopyRow(data[i], tempPoint);
      Insert(tempPoint[..], indices[i]);
    }

    /**
     * The values of the nodes on the walk for `key` that lie within `range`
     * of it, in the order the walk meets them.
     */
    method RangeQuery(key: Point, range: real, dist: Distance) returns (values: seq<V>)
      requires Valid() && |key| == N
      ensures values == ValsOf(nodes, RangeHits(N, nodes, dist, key, range, root))
      ensures BoundWithin(Contents(), dist, key, range, values)
      ensures key in Contents() && dist(key, key) <= range ==> Contents()[key] in values
      ensures |values| <= |DescentPath(N, nodes, key, root)|
    {
      values := [];
      var cur := root;
      while cur.Ptr?
        invariant InArena(|nodes|, cur)
        invariant RangeScan(N, nodes, dist, key, range, values, cur) == RangeScan(N, nodes, dist, key, range, [], root)
        decreases Measure(|nodes|, cur)
      {
        var c := cur.index;
        if dist(nodes[c].key, key) <= range {
          values := values + [nodes[c].val];
        }
        var d := nodes[c].level % N;
        if key[d] >= nodes[c].key[d] {
          cur := nodes[c].right;
        } else {
          cur := nodes[c].left;
        }
      }
      RangeScanHits(N, nodes, dist, key, range, [], root);
      RangeHitsOnDescent(N, nodes, dist, key, range, root);
      RangeValuesSound(N, nodes, dist, key, range);
      if key in Contents() && dist(key, key) <= range {
        RangeValuesComplete(N, nodes, paths, parents, dist, key, range);
      }
    }

    /**
     * Enqueues every node the neighbour search from `cur` visits, each with
     * its distance to `key`.
     */
    method KnnHelper(key: Point, pq: BoundedPQueue<nat>, cur: Link, dist: Distance)
      requires Searchable(N, nodes, key) && pq.Valid() && InArena(|nodes|, cur)
      modifies pq
      ensures pq.Valid()
      ensures pq.elems == KnnSearch(N, nodes, dist, key, old(pq.elems), pq.maxSize, cur)
      decreases Measure(|nodes|, cur)
    {
      if cur.Nil? {
        return;
      }
      var c := cur.index;
      KnnSearchStep(N, nodes, dist, key, pq.elems, pq.maxSize, c);
      ghost var s := GoesRight(N, key, nodes[c]);
      pq.Enqueue(c, dist(nodes[c].key, key));
      ghost var e1 := pq.elems;
      var dim := nodes[c].level % N;
      if key[dim] < nodes[c].key[dim] {
        assert !s;
        KnnHelper(key, pq, nodes[c].left, dist);
        assert pq.elems == KnnSearch(N, nodes, dist, key, e1, pq.maxSize, Child(nodes[c], s));
        var far := ExploreFarSide(pq, nodes[c]);
        if far {
          KnnHelper(key, pq, nodes[c].right, dist);
        }
      } else {
        assert s;
        KnnHelper(key, pq, nodes[c].right, dist);
        assert pq.elems == KnnSearch(N, nodes, dist, key, e1, pq.maxSize, Child(nodes[c], s));
        var far := ExploreFarSide(pq, nodes[c]);
        if far {
          KnnHelper(key, pq, nodes[c].left, dist);
        }
      }
    }

    /**
     * The pruning test made after the near side is searched: the far side
     * is searched while the queue has room, or while the node's coordinate on
     * its splitting dimension is below the worst retained distance.
     */
    method ExploreFarSide(pq: BoundedPQueue<nat>, node: Node<V>) returns (far: bool)
      requires N >= 1 && |node.key| == N && pq.Valid()
      ensures far == ExploreFar(N, node, pq.elems, pq.maxSize)
    {
      var dim := node.level % N;
      far := pq.Size() < pq.MaxSize() || pq.Empty() || node.key[dim] < pq.Worst();
    }

    /**
     * The values of the (at most `k`) nodes the neighbour search retains,
     * nearest first.
     */
    method KnnQuery(key: Point, k: nat, dist: Distance) returns (values: seq<V>)
      requires Valid() && |key| == N
      ensures ValuesOfEntries(nodes, KnnSearch(N, nodes, dist, key, [], k, root), values)
      ensures |values| <= k
      ensures NearestFirst(nodes, dist, key, KnnSearch(N, nodes, dist, key, [], k, root))
      ensures AllStored(Contents(), values)
      ensures k >= |nodes| ==> |values| == |nodes| && CoversAll(Contents(), values)
      ensures |values| == if k < size then k else size
    {
      KnnSearchEntries(N, nodes, dist, key, [], k, root);
      var knearestPQ := new BoundedPQueue<nat>(k);
      KnnHelper(key, knearestPQ, root, dist);
      values := DrainValues(knearestPQ);
      KnnValues(N, nodes, paths, parents, dist, key, k, values);
    }

    /** The loop ending knn_query: dequeue every entry, nearest first, keeping the value of the node each names. */
    method DrainValues(pq: BoundedPQueue<nat>) returns (values: seq<V>)
      requires pq.Valid() && forall i | 0 <= i < |pq.elems| :: pq.elems[i].item < |nodes|
      modifies pq
      ensures pq.elems == [] && ValuesOfEntries(nodes, old(pq.elems), values)
    {
      ghost var S := pq.elems;
      values := [];
      while !pq.Empty()
        invariant pq.Valid()
        invariant |values| + |pq.elems| == |S|
        invariant pq.elems == S[|values|..]
        invariant ValuesOfEntries(nodes, S[..|values|], values)
        decreases |pq.elems|
      {
        assert S[|values|..][0] == S[|values|] && S[|values|..][1..] == S[|values| + 1..];
        assert S[..|values| + 1] == S[..|values|] + [S[|values|]];
        var item := pq.DequeueMin();
        values := values + [nodes[item].val];
      }
      assert S[..|values|] == S;
    }

    /**
     * The value of the nearest node the one-neighbour search finds; the tree
     * must not be empty.
     */
    method NnValue(key: Point, dist: Distance) returns (v: V)
      requires Valid() && |key| == N && size > 0
      ensures exists p | p in Contents() :: Contents()[p] == v && NearAsDescent(N, nodes, dist, key, p)
      ensures Separating(dist) && key in Contents() ==> v == Contents()[key]
      ensures var r := KnnSearch(N, nodes, dist, key, [], 1, root);
        r != [] && r[0].item < |nodes| && v == nodes[r[0].item].val
    {
      var nearestPQ := new BoundedPQueue<nat>(1);
      KnnHelper(key, nearestPQ, root, dist);
      NearestFound(N, nodes, paths, parents, dist, key);
      var item := nearestPQ.DequeueMin();
      v := nodes[item].val;
      ContentsHas(nodes, item);
      assert nodes[item].key in Contents() && Contents()[nodes[item].key] == v;
    }
  }
}

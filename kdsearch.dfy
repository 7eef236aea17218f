/**
 * The three searches of the k-d tree, as functions of the arena: the
 * single descent that range_query follows, the nodes it reports, and the
 * recursive neighbour search knn_value_helper performs on a bounded
 * priority queue of node indices.  The imperative code in KDTrees is proved
 * equal to these functions, and the facts about the searches are proved
 * here.
 */
module KDSearch {
  import opened PQueue
  import opened KDNodes

  /** A distance between points; the tree only ever calls it, so it is a parameter. */
  type Distance = (Point, Point) -> real

  /** What every search needs of the arena and the query point. */
  predicate Searchable<V>(N: nat, nodes: seq<Node<V>>, q: Point) {
    N >= 1 && Linked(nodes) && Dimensioned(N, nodes) && |q| == N
  }

  /**
   * The nodes met when descending from `cur` for `q`, always turning the way
   * the node sends `q` (right unless `q` is strictly below on the node's
   * splitting dimension), until a null link.
   */
  function DescentPath<V>(N: nat, nodes: seq<Node<V>>, q: Point, cur: Link): (r: seq<nat>)
    requires Searchable(N, nodes, q) && InArena(|nodes|, cur)
    ensures forall k | 0 <= k < |r| :: r[k] < |nodes|
    ensures r == [] <==> cur.Nil?
    ensures cur.Ptr? ==> r[0] == cur.index
    decreases Measure(|nodes|, cur)
  {
    if cur.Nil? then []
    else
      var i := cur.index;
      var next := Child(nodes[i], GoesRight(N, q, nodes[i]));
      [i] + DescentPath(N, nodes, q, next)
  }

  /** Every node holding `q` lies on the descent the invariant `Descending` describes. */
  lemma {:induction false} DescentPathFinds<V>(N: nat, nodes: seq<Node<V>>, paths: seq<seq<bool>>,
                                               parents: seq<nat>, q: Point, cur: Link, P: seq<bool>, j: nat)
    requires ArenaValid(N, nodes, paths, parents) && |q| == N
    requires Descending(N, nodes, paths, parents, q, cur, P)
    requires j < |nodes| && nodes[j].key == q
    ensures j in DescentPath(N, nodes, q, cur)
    decreases Measure(|nodes|, cur)
  {
    if cur.Nil? {
      DescendEnd(N, nodes, paths, parents, q, P);
      assert false;
    } else if nodes[cur.index].key != q {
      var c := cur.index;
      var s := GoesRight(N, q, nodes[c]);
      DescendStep(N, nodes, paths, parents, q, c, P);
      DescentPathFinds(N, nodes, paths, parents, q, Child(nodes[c], s), P + [s], j);
    }
  }

  /** A key is in the tree exactly when a node on the descent from the root for it holds it. */
  lemma DescentFindsKey<V>(N: nat, nodes: seq<Node<V>>, paths: seq<seq<bool>>, parents: seq<nat>, q: Point)
    requires ArenaValid(N, nodes, paths, parents) && |q| == N
    ensures var path := DescentPath(N, nodes, q, Root(nodes));
      q in ContentsOf(nodes) <==> exists k | 0 <= k < |path| :: nodes[path[k]].key == q
  {
    var path := DescentPath(N, nodes, q, Root(nodes));
    if q in ContentsOf(nodes) {
      var j := ContentsWitness(nodes, q);
      DescendStart(N, nodes, paths, parents, q);
      DescentPathFinds(N, nodes, paths, parents, q, Root(nodes), [], j);
      var k :| 0 <= k < |path| && path[k] == j;
    }
    if exists k | 0 <= k < |path| :: nodes[path[k]].key == q {
      var k :| 0 <= k < |path| && nodes[path[k]].key == q;
      ContentsHas(nodes, path[k]);
    }
  }

  /** Insert's walk ends at a node exactly when some node on the descent holds `q`. */
  lemma {:induction false} FindSlotOnDescent<V>(N: nat, nodes: seq<Node<V>>, q: Point, cur: Link, last: Link, depth: nat)
    requires Searchable(N, nodes, q) && InArena(|nodes|, cur)
    requires last.Ptr? ==> last.index < |nodes| && cur == Child(nodes[last.index], GoesRight(N, q, nodes[last.index]))
    ensures var path := DescentPath(N, nodes, q, cur);
      FindSlot(N, nodes, q, cur, last, depth).Found? <==> exists k | 0 <= k < |path| :: nodes[path[k]].key == q
    decreases Measure(|nodes|, cur)
  {
    if cur.Ptr? && nodes[cur.index].key != q {
      var i := cur.index;
      var next := Child(nodes[i], GoesRight(N, q, nodes[i]));
      FindSlotStep(N, nodes, q, i, last, depth);
      FindSlotOnDescent(N, nodes, q, next, cur, depth + 1);
      var path, rest := DescentPath(N, nodes, q, cur), DescentPath(N, nodes, q, next);
      assert path == [i] + rest;
      if exists k | 0 <= k < |path| :: nodes[path[k]].key == q {
        var k :| 0 <= k < |path| && nodes[path[k]].key == q;
        assert nodes[rest[k - 1]].key == q;
      }
      if exists k | 0 <= k < |rest| :: nodes[rest[k]].key == q {
        var k :| 0 <= k < |rest| && nodes[rest[k]].key == q;
        assert path[k + 1] == rest[k];
      }
    } else if cur.Ptr? {
      assert DescentPath(N, nodes, q, cur)[0] == cur.index;
    }
  }

  /** Insert's walk from the root ends at a node exactly when `q` is already stored. */
  lemma FindSlotStored<V>(N: nat, nodes: seq<Node<V>>, paths: seq<seq<bool>>, parents: seq<nat>, q: Point)
    requires ArenaValid(N, nodes, paths, parents) && |q| == N
    ensures FindSlot(N, nodes, q, Root(nodes), Nil, 0).Found? <==> q in ContentsOf(nodes)
  {
    FindSlotOnDescent(N, nodes, q, Root(nodes), Nil, 0);
    DescentFindsKey(N, nodes, paths, parents, q);
  }

  // ---------------------------------------------------------------------
  // range_query: the nodes on the descent within the range.
  // ---------------------------------------------------------------------

  /** The nodes on the descent from `cur` for `q` whose distance to `q` is at most `range`, in descent order. */
  function RangeHits<V>(N: nat, nodes: seq<Node<V>>, dist: Distance, q: Point, range: real, cur: Link): (r: seq<nat>)
    requires Searchable(N, nodes, q) && InArena(|nodes|, cur)
    ensures forall k | 0 <= k < |r| :: r[k] < |nodes|
    decreases Measure(|nodes|, cur)
  {
    if cur.Nil? then []
    else
      var i := cur.index;
      var next := Child(nodes[i], GoesRight(N, q, nodes[i]));
      (if dist(nodes[i].key, q) <= range then [i] else []) + RangeHits(N, nodes, dist, q, range, next)
  }

  /** The nodes of `ids` whose distance to `q` is at most `range`, in the order of `ids`. */
  function WithinRange<V>(nodes: seq<Node<V>>, dist: Distance, q: Point, range: real, ids: seq<nat>): seq<nat>
    requires forall k | 0 <= k < |ids| :: ids[k] < |nodes|
  {
    if ids == [] then []
    else (if dist(nodes[ids[0]].key, q) <= range then [ids[0]] else []) + WithinRange(nodes, dist, q, range, ids[1..])
  }

  /**
   * The hits are exactly the descent's nodes within the range, kept in
   * descent order: they are the descent path filtered by the range test.
   */
  lemma {:induction false} RangeHitsOnDescent<V>(N: nat, nodes: seq<Node<V>>, dist: Distance, q: Point,
                                                 range: real, cur: Link)
    requires Searchable(N, nodes, q) && InArena(|nodes|, cur)
    ensures var hits, path := RangeHits(N, nodes, dist, q, range, cur), DescentPath(N, nodes, q, cur);
      && hits == WithinRange(nodes, dist, q, range, path)
      && (forall j :: j in hits <==> j in path && dist(nodes[j].key, q) <= range)
      && |hits| <= |path|
    decreases Measure(|nodes|, cur)
  {
    if cur.Ptr? {
      var i := cur.index;
      var next := Child(nodes[i], GoesRight(N, q, nodes[i]));
      RangeHitsOnDescent(N, nodes, dist, q, range, next);
      var path := DescentPath(N, nodes, q, cur);
      assert path[1..] == DescentPath(N, nodes, q, next);
    }
  }

  /** A node on the descent holding `q` is a hit whenever `q` is within range of itself. */
  lemma RangeHitsFindKey<V>(N: nat, nodes: seq<Node<V>>, paths: seq<seq<bool>>, parents: seq<nat>,
                            dist: Distance, q: Point, range: real)
    requires ArenaValid(N, nodes, paths, parents) && |q| == N
    requires q in ContentsOf(nodes) && dist(q, q) <= range
    ensures var hits := RangeHits(N, nodes, dist, q, range, Root(nodes));
      exists k | 0 <= k < |hits| :: hits[k] < |nodes| && nodes[hits[k]].key == q
  {
    var path := DescentPath(N, nodes, q, Root(nodes));
    var hits := RangeHits(N, nodes, dist, q, range, Root(nodes));
    DescentFindsKey(N, nodes, paths, parents, q);
    RangeHitsOnDescent(N, nodes, dist, q, range, Root(nodes));
    var k :| 0 <= k < |path| && nodes[path[k]].key == q;
    assert path[k] in hits;
  }

  /** The values of a sequence of nodes, in order. */
  function ValsOf<V>(nodes: seq<Node<V>>, ids: seq<nat>): (r: seq<V>)
    requires forall k | 0 <= k < |ids| :: ids[k] < |nodes|
    ensures |r| == |ids| && forall k | 0 <= k < |ids| :: r[k] == nodes[ids[k]].val
  {
    if ids == [] then [] else [nodes[ids[0]].val] + ValsOf(nodes, ids[1..])
  }

  /**
   * The values the range query holds when its walk stops, having held
   * `acc` on reaching `cur`.
   */
  function RangeScan<V>(N: nat, nodes: seq<Node<V>>, dist: Distance, q: Point, range: real,
                        acc: seq<V>, cur: Link): seq<V>
    requires Searchable(N, nodes, q) && InArena(|nodes|, cur)
    decreases Measure(|nodes|, cur)
  {
    if cur.Nil? then acc
    else
      var i := cur.index;
      var next := Child(nodes[i], GoesRight(N, q, nodes[i]));
      RangeScan(N, nodes, dist, q, range, if dist(nodes[i].key, q) <= range then acc + [nodes[i].val] else acc, next)
  }

  /** The walk appends the values of the hits, in descent order. */
  lemma {:induction false} RangeScanHits<V>(N: nat, nodes: seq<Node<V>>, dist: Distance, q: Point, range: real,
                                            acc: seq<V>, cur: Link)
    requires Searchable(N, nodes, q) && InArena(|nodes|, cur)
    ensures RangeScan(N, nodes, dist, q, range, acc, cur) == acc + ValsOf(nodes, RangeHits(N, nodes, dist, q, range, cur))
    decreases Measure(|nodes|, cur)
  {
    if cur.Nil? {
      assert acc + [] == acc;
    } else {
      var i := cur.index;
      var next := Child(nodes[i], GoesRight(N, q, nodes[i]));
      assert InArena(|nodes|, next);
      var rest := RangeHits(N, nodes, dist, q, range, next);
      if dist(nodes[i].key, q) <= range {
        var acc' := acc + [nodes[i].val];
        RangeScanHits(N, nodes, dist, q, range, acc', next);
        ValsOfCons(nodes, acc, i, rest);
        assert RangeScan(N, nodes, dist, q, range, acc, cur) == RangeScan(N, nodes, dist, q, range, acc', next);
        assert RangeHits(N, nodes, dist, q, range, cur) == [i] + rest;
      } else {
        RangeScanHits(N, nodes, dist, q, range, acc, next);
        assert RangeScan(N, nodes, dist, q, range, acc, cur) == RangeScan(N, nodes, dist, q, range, acc, next);
        assert RangeHits(N, nodes, dist, q, range, cur) == [] + rest;
        assert [] + rest == rest;
      }
    }
  }

  /** The values of `[i] + ids`, after `acc`, are node `i`'s value appended to `acc`, then those of `ids`. */
  lemma ValsOfCons<V>(nodes: seq<Node<V>>, acc: seq<V>, i: nat, ids: seq<nat>)
    requires i < |nodes| && forall k | 0 <= k < |ids| :: ids[k] < |nodes|
    ensures acc + ValsOf(nodes, [i] + ids) == (acc + [nodes[i].val]) + ValsOf(nodes, ids)
  {
    assert ([i] + ids)[1..] == ids;
    var tail := ValsOf(nodes, ids);
    assert acc + ([nodes[i].val] + tail) == (acc + [nodes[i].val]) + tail;
  }

  /** Each of `values` is bound in `m` to some key within `range` of `q`. */
  ghost predicate BoundWithin<V>(m: map<Point, V>, dist: Distance, q: Point, range: real, values: seq<V>) {
    forall k | 0 <= k < |values| :: exists p | p in m :: m[p] == values[k] && dist(p, q) <= range
  }

  /** Every value the range query returns is bound to a key within `range` of `q`. */
  lemma RangeValuesSound<V>(N: nat, nodes: seq<Node<V>>, dist: Distance, q: Point, range: real)
    requires Searchable(N, nodes, q) && DistinctKeys(nodes)
    ensures BoundWithin(ContentsOf(nodes), dist, q, range, ValsOf(nodes, RangeHits(N, nodes, dist, q, range, Root(nodes))))
  {
    var hits := RangeHits(N, nodes, dist, q, range, Root(nodes));
    var values := ValsOf(nodes, hits);
    RangeHitsOnDescent(N, nodes, dist, q, range, Root(nodes));
    forall k | 0 <= k < |values|
      ensures exists p | p in ContentsOf(nodes) :: ContentsOf(nodes)[p] == values[k] && dist(p, q) <= range
    {
      var j := hits[k];
      assert j in hits;
      ContentsHas(nodes, j);
      var p := nodes[j].key;
      assert ContentsOf(nodes)[p] == values[k] && dist(p, q) <= range;
    }
  }

  /** The range query returns the value of `q` itself when `q` is stored and within range of itself. */
  lemma RangeValuesComplete<V>(N: nat, nodes: seq<Node<V>>, paths: seq<seq<bool>>, parents: seq<nat>,
                               dist: Distance, q: Point, range: real)
    requires ArenaValid(N, nodes, paths, parents) && |q| == N
    requires q in ContentsOf(nodes) && dist(q, q) <= range
    ensures ContentsOf(nodes)[q] in ValsOf(nodes, RangeHits(N, nodes, dist, q, range, Root(nodes)))
  {
    var hits := RangeHits(N, nodes, dist, q, range, Root(nodes));
    var values := ValsOf(nodes, hits);
    RangeHitsFindKey(N, nodes, paths, parents, dist, q, range);
    var k :| 0 <= k < |hits| && hits[k] < |nodes| && nodes[hits[k]].key == q;
    ContentsHas(nodes, hits[k]);
    assert values[k] == ContentsOf(nodes)[q];
  }

  // ---------------------------------------------------------------------
  // knn_value_helper: the recursive neighbour search.
  // ---------------------------------------------------------------------

  /**
   * Whether the search, back from the near side of `node` with queue `pq`
   * of capacity `maxSize`, also visits the far side: when the queue is
   * not full, or when the node's own coordinate on its splitting dimension
   * is below the worst retained distance.  A queue that is full while empty
   * (capacity 0) counts its worst distance as infinite.
   */
  predicate ExploreFar<V>(N: nat, node: Node<V>, pq: seq<Entry<nat>>, maxSize: nat)
    requires N >= 1 && |node.key| == N
  {
    |pq| < maxSize || pq == [] || node.key[node.level % N] < pq[|pq| - 1].priority
  }

  /**
   * The queue after the neighbour search from `cur`, started with the
   * queue `elems` of capacity `maxSize`: enqueue the node with its distance
   * to `q`, search the side `q` falls on, then the other side if
   * `ExploreFar` allows it.  Queue items are node indices.
   */
  function KnnSearch<V>(N: nat, nodes: seq<Node<V>>, dist: Distance, q: Point,
                        elems: seq<Entry<nat>>, maxSize: nat, cur: Link): (r: seq<Entry<nat>>)
    requires Searchable(N, nodes, q) && InArena(|nodes|, cur)
    requires Sorted(elems) && |elems| <= maxSize
    ensures Sorted(r) && |elems| <= |r| <= maxSize
    decreases Measure(|nodes|, cur)
  {
    if cur.Nil? then elems
    else
      var i := cur.index;
      var s := GoesRight(N, q, nodes[i]);
      var e1 := Enqueued(elems, maxSize, Entry(i, dist(nodes[i].key, q)));
      var e2 := KnnSearch(N, nodes, dist, q, e1, maxSize, Child(nodes[i], s));
      if ExploreFar(N, nodes[i], e2, maxSize) then KnnSearch(N, nodes, dist, q, e2, maxSize, Child(nodes[i], !s))
      else e2
  }

  /** One step of the search from node `i`: enqueue it, search the near side, then maybe the far side. */
  lemma KnnSearchStep<V>(N: nat, nodes: seq<Node<V>>, dist: Distance, q: Point,
                         elems: seq<Entry<nat>>, maxSize: nat, i: nat)
    requires Searchable(N, nodes, q) && i < |nodes|
    requires Sorted(elems) && |elems| <= maxSize
    ensures InArena(|nodes|, Child(nodes[i], false)) && InArena(|nodes|, Child(nodes[i], true))
    ensures var s := GoesRight(N, q, nodes[i]);
      var e1 := Enqueued(elems, maxSize, Entry(i, dist(nodes[i].key, q)));
      var e2 := KnnSearch(N, nodes, dist, q, e1, maxSize, Child(nodes[i], s));
      KnnSearch(N, nodes, dist, q, elems, maxSize, Ptr(i)) ==
        if ExploreFar(N, nodes[i], e2, maxSize) then KnnSearch(N, nodes, dist, q, e2, maxSize, Child(nodes[i], !s))
        else e2
  {
    assert InArena(|nodes|, Child(nodes[i], false)) && InArena(|nodes|, Child(nodes[i], true));
  }

  /** Queue entries that are nodes of the arena, each with its distance to `q` as priority. */
  ghost predicate NodeEntries<V>(nodes: seq<Node<V>>, dist: Distance, q: Point, s: seq<Entry<nat>>) {
    forall k | 0 <= k < |s| :: s[k].item < |nodes| && s[k].priority == dist(nodes[s[k].item].key, q)
  }

  lemma EnqueuedNodeEntries<V>(nodes: seq<Node<V>>, dist: Distance, q: Point,
                               s: seq<Entry<nat>>, maxSize: nat, i: nat)
    requires Sorted(s) && |s| <= maxSize && NodeEntries(nodes, dist, q, s) && i < |nodes|
    ensures NodeEntries(nodes, dist, q, Enqueued(s, maxSize, Entry(i, dist(nodes[i].key, q))))
  {
    EnqueuedMembers(s, maxSize, Entry(i, dist(nodes[i].key, q)));
  }

  /** The search only ever holds nodes of the arena, each with its own distance to `q`. */
  lemma {:induction false} KnnSearchEntries<V>(N: nat, nodes: seq<Node<V>>, dist: Distance, q: Point,
                                               elems: seq<Entry<nat>>, maxSize: nat, cur: Link)
    requires Searchable(N, nodes, q) && InArena(|nodes|, cur)
    requires Sorted(elems) && |elems| <= maxSize && NodeEntries(nodes, dist, q, elems)
    ensures NodeEntries(nodes, dist, q, KnnSearch(N, nodes, dist, q, elems, maxSize, cur))
    decreases Measure(|nodes|, cur)
  {
    if cur.Ptr? {
      var i := cur.index;
      var s := GoesRight(N, q, nodes[i]);
      assert InArena(|nodes|, Child(nodes[i], s)) && InArena(|nodes|, Child(nodes[i], !s));
      var e1 := Enqueued(elems, maxSize, Entry(i, dist(nodes[i].key, q)));
      EnqueuedNodeEntries(nodes, dist, q, elems, maxSize, i);
      var e2 := KnnSearch(N, nodes, dist, q, e1, maxSize, Child(nodes[i], s));
      KnnSearchEntries(N, nodes, dist, q, e1, maxSize, Child(nodes[i], s));
      KnnSearchEntries(N, nodes, dist, q, e2, maxSize, Child(nodes[i], !s));
    }
  }

  /** With room for at least one entry the best retained distance never gets worse. */
  lemma {:induction false} KnnSearchKeepsBest<V>(N: nat, nodes: seq<Node<V>>, dist: Distance, q: Point,
                                                 elems: seq<Entry<nat>>, maxSize: nat, cur: Link)
    requires Searchable(N, nodes, q) && InArena(|nodes|, cur)
    requires Sorted(elems) && |elems| <= maxSize && maxSize > 0
    ensures var r := KnnSearch(N, nodes, dist, q, elems, maxSize, cur);
      && (elems != [] || cur.Ptr? ==> r != [])
      && (elems != [] ==> r[0].priority <= elems[0].priority)
    decreases Measure(|nodes|, cur)
  {
    if cur.Ptr? {
      var i := cur.index;
      var s := GoesRight(N, q, nodes[i]);
      assert InArena(|nodes|, Child(nodes[i], s)) && InArena(|nodes|, Child(nodes[i], !s));
      var e := Entry(i, dist(nodes[i].key, q));
      var e1 := Enqueued(elems, maxSize, e);
      EnqueuedBest(elems, maxSize, e);
      var e2 := KnnSearch(N, nodes, dist, q, e1, maxSize, Child(nodes[i], s));
      KnnSearchKeepsBest(N, nodes, dist, q, e1, maxSize, Child(nodes[i], s));
      KnnSearchKeepsBest(N, nodes, dist, q, e2, maxSize, Child(nodes[i], !s));
      assert KnnSearch(N, nodes, dist, q, elems, maxSize, cur) ==
        if ExploreFar(N, nodes[i], e2, maxSize) then KnnSearch(N, nodes, dist, q, e2, maxSize, Child(nodes[i], !s)) else e2;
    }
  }

  /** One step of the search: the best entry after it is no worse than the node's own distance. */
  lemma KnnSearchStepBest<V>(N: nat, nodes: seq<Node<V>>, dist: Distance, q: Point,
                             elems: seq<Entry<nat>>, maxSize: nat, i: nat)
    requires Searchable(N, nodes, q) && i < |nodes|
    requires Sorted(elems) && |elems| <= maxSize && maxSize > 0
    ensures var s := GoesRight(N, q, nodes[i]);
      var e1 := Enqueued(elems, maxSize, Entry(i, dist(nodes[i].key, q)));
      var e2 := KnnSearch(N, nodes, dist, q, e1, maxSize, Child(nodes[i], s));
      var r := KnnSearch(N, nodes, dist, q, elems, maxSize, Ptr(i));
      && e1 != [] && e2 != [] && r != []
      && e1[0].priority <= dist(nodes[i].key, q) && e2[0].priority <= e1[0].priority
      && r[0].priority <= e2[0].priority
  {
    var s := GoesRight(N, q, nodes[i]);
    assert InArena(|nodes|, Child(nodes[i], s)) && InArena(|nodes|, Child(nodes[i], !s));
    var e := Entry(i, dist(nodes[i].key, q));
    var e1 := Enqueued(elems, maxSize, e);
    EnqueuedBest(elems, maxSize, e);
    var e2 := KnnSearch(N, nodes, dist, q, e1, maxSize, Child(nodes[i], s));
    KnnSearchKeepsBest(N, nodes, dist, q, e1, maxSize, Child(nodes[i], s));
    KnnSearchKeepsBest(N, nodes, dist, q, e2, maxSize, Child(nodes[i], !s));
    var r := KnnSearch(N, nodes, dist, q, elems, maxSize, Ptr(i));
    assert r == if ExploreFar(N, nodes[i], e2, maxSize) then KnnSearch(N, nodes, dist, q, e2, maxSize, Child(nodes[i], !s)) else e2;
  }

  /**
   * With room for at least one entry, the best distance the search retains
   * is at most the distance of every node on the descent for `q`.
   */
  lemma {:induction false} KnnSearchBest<V>(N: nat, nodes: seq<Node<V>>, dist: Distance, q: Point,
                                            elems: seq<Entry<nat>>, maxSize: nat, cur: Link)
    requires Searchable(N, nodes, q) && InArena(|nodes|, cur)
    requires Sorted(elems) && |elems| <= maxSize && maxSize > 0
    ensures var r, path := KnnSearch(N, nodes, dist, q, elems, maxSize, cur), DescentPath(N, nodes, q, cur);
      forall k | 0 <= k < |path| :: r != [] && r[0].priority <= dist(nodes[path[k]].key, q)
    decreases Measure(|nodes|, cur)
  {
    if cur.Ptr? {
      var i := cur.index;
      var near := Child(nodes[i], GoesRight(N, q, nodes[i]));
      assert InArena(|nodes|, near);
      var e1 := Enqueued(elems, maxSize, Entry(i, dist(nodes[i].key, q)));
      KnnSearchStepBest(N, nodes, dist, q, elems, maxSize, i);
      KnnSearchBest(N, nodes, dist, q, e1, maxSize, near);
      assert DescentPath(N, nodes, q, cur) == [i] + DescentPath(N, nodes, q, near);
    }
  }

  /** A node and two disjoint sets without it: the union counts each once. */
  lemma DisjointUnion(i: nat, a: set<nat>, b: set<nat>)
    requires a !! b && i !in a && i !in b
    ensures |{i} + a + b| == 1 + |a| + |b|
    ensures multiset({i} + a + b) == multiset{i} + multiset(a) + multiset(b)
  {
    assert forall x :: multiset({i} + a + b)[x] == (multiset{i} + multiset(a) + multiset(b))[x];
  }

  /** A node's subtree is the node and its two disjoint child subtrees. */
  lemma SubtreeSplit<V>(nodes: seq<Node<V>>, paths: seq<seq<bool>>, i: nat, s: bool)
    requires Linked(nodes) && ChildPaths(nodes, paths) && i < |nodes|
    ensures var near, far := Subtree(nodes, Child(nodes[i], s)), Subtree(nodes, Child(nodes[i], !s));
      Subtree(nodes, Ptr(i)) == {i} + near + far && near !! far && i !in near && i !in far
  {
    assert InArena(|nodes|, Child(nodes[i], s)) && InArena(|nodes|, Child(nodes[i], !s));
    var near, far := Subtree(nodes, Child(nodes[i], s)), Subtree(nodes, Child(nodes[i], !s));
    var left, right := Subtree(nodes, Child(nodes[i], false)), Subtree(nodes, Child(nodes[i], true));
    SubtreeDisjoint(nodes, paths, i);
    assert Subtree(nodes, Ptr(i)) == {i} + left + right;
    if s { assert near == right && far == left; } else { assert near == left && far == right; }
  }

  /**
   * The search retains as many entries as fit: the queue's entries plus the
   * subtree's nodes, up to the capacity.  While the queue is not full the
   * far side is always searched, whatever the pruning test says.
   */
  lemma {:induction false} KnnSearchCount<V>(N: nat, nodes: seq<Node<V>>, paths: seq<seq<bool>>, dist: Distance,
                                             q: Point, elems: seq<Entry<nat>>, maxSize: nat, cur: Link)
    requires Searchable(N, nodes, q) && InArena(|nodes|, cur) && ChildPaths(nodes, paths)
    requires Sorted(elems) && |elems| <= maxSize
    ensures var total := |elems| + |Subtree(nodes, cur)|;
      |KnnSearch(N, nodes, dist, q, elems, maxSize, cur)| == if total < maxSize then total else maxSize
    decreases Measure(|nodes|, cur)
  {
    if cur.Ptr? {
      var i := cur.index;
      var s := GoesRight(N, q, nodes[i]);
      var near, far := Child(nodes[i], s), Child(nodes[i], !s);
      SubtreeSplit(nodes, paths, i, s);
      DisjointUnion(i, Subtree(nodes, near), Subtree(nodes, far));
      var e1 := Enqueued(elems, maxSize, Entry(i, dist(nodes[i].key, q)));
      KnnSearchCount(N, nodes, paths, dist, q, e1, maxSize, near);
      var e2 := KnnSearch(N, nodes, dist, q, e1, maxSize, near);
      KnnSearchCount(N, nodes, paths, dist, q, e2, maxSize, far);
      assert |e2| < maxSize ==> ExploreFar(N, nodes[i], e2, maxSize);
      assert KnnSearch(N, nodes, dist, q, elems, maxSize, cur) ==
        if ExploreFar(N, nodes[i], e2, maxSize) then KnnSearch(N, nodes, dist, q, e2, maxSize, far) else e2;
    }
  }

  /** When the queue has room for the whole subtree, every node of it is enqueued and kept. */
  lemma {:induction false} KnnSearchAllSize<V>(N: nat, nodes: seq<Node<V>>, paths: seq<seq<bool>>, dist: Distance,
                                               q: Point, elems: seq<Entry<nat>>, maxSize: nat, cur: Link)
    requires Searchable(N, nodes, q) && InArena(|nodes|, cur) && ChildPaths(nodes, paths)
    requires Sorted(elems) && |elems| + |Subtree(nodes, cur)| <= maxSize
    ensures |KnnSearch(N, nodes, dist, q, elems, maxSize, cur)| == |elems| + |Subtree(nodes, cur)|
    decreases Measure(|nodes|, cur)
  {
    if cur.Ptr? {
      var i := cur.index;
      var s := GoesRight(N, q, nodes[i]);
      var near, far := Child(nodes[i], s), Child(nodes[i], !s);
      SubtreeSplit(nodes, paths, i, s);
      DisjointUnion(i, Subtree(nodes, near), Subtree(nodes, far));
      var e1 := Enqueued(elems, maxSize, Entry(i, dist(nodes[i].key, q)));
      KnnSearchAllSize(N, nodes, paths, dist, q, e1, maxSize, near);
      var e2 := KnnSearch(N, nodes, dist, q, e1, maxSize, near);
      KnnSearchAllSize(N, nodes, paths, dist, q, e2, maxSize, far);
      assert far.Ptr? ==> ExploreFar(N, nodes[i], e2, maxSize);
      assert KnnSearch(N, nodes, dist, q, elems, maxSize, cur) ==
        if ExploreFar(N, nodes[i], e2, maxSize) then KnnSearch(N, nodes, dist, q, e2, maxSize, far) else e2;
    }
  }

  /**
   * When the queue has room for the whole subtree, the queue's items grow
   * by exactly the subtree's nodes, each once.
   */
  lemma {:induction false} KnnSearchAll<V>(N: nat, nodes: seq<Node<V>>, paths: seq<seq<bool>>, dist: Distance,
                                           q: Point, elems: seq<Entry<nat>>, maxSize: nat, cur: Link)
    requires Searchable(N, nodes, q) && InArena(|nodes|, cur) && ChildPaths(nodes, paths)
    requires Sorted(elems) && |elems| + |Subtree(nodes, cur)| <= maxSize
    ensures multiset(Items(KnnSearch(N, nodes, dist, q, elems, maxSize, cur))) ==
              multiset(Items(elems)) + multiset(Subtree(nodes, cur))
    decreases Measure(|nodes|, cur)
  {
    if cur.Ptr? {
      var i := cur.index;
      var s := GoesRight(N, q, nodes[i]);
      var near, far := Child(nodes[i], s), Child(nodes[i], !s);
      SubtreeSplit(nodes, paths, i, s);
      DisjointUnion(i, Subtree(nodes, near), Subtree(nodes, far));
      var e := Entry(i, dist(nodes[i].key, q));
      var e1 := Enqueued(elems, maxSize, e);
      EnqueuedBelowCapacity(elems, maxSize, e);
      KnnSearchAll(N, nodes, paths, dist, q, e1, maxSize, near);
      KnnSearchAllSize(N, nodes, paths, dist, q, e1, maxSize, near);
      var e2 := KnnSearch(N, nodes, dist, q, e1, maxSize, near);
      KnnSearchAll(N, nodes, paths, dist, q, e2, maxSize, far);
      assert far.Ptr? ==> ExploreFar(N, nodes[i], e2, maxSize);
      var r := KnnSearch(N, nodes, dist, q, elems, maxSize, cur);
      assert r == if ExploreFar(N, nodes[i], e2, maxSize) then KnnSearch(N, nodes, dist, q, e2, maxSize, far) else e2;
      AddUp(multiset(Items(elems)), multiset(Items(e1)), multiset(Items(e2)), multiset(Items(r)),
            multiset(Subtree(nodes, cur)), i, multiset(Subtree(nodes, near)), multiset(Subtree(nodes, far)));
    }
  }

  lemma AddUp(a: multiset<nat>, e1: multiset<nat>, e2: multiset<nat>, r: multiset<nat>, t: multiset<nat>,
              i: nat, l: multiset<nat>, h: multiset<nat>)
    requires e1 == a + multiset{i} && e2 == e1 + l && r == e2 + h && t == multiset{i} + l + h
    ensures r == a + t
  {
    assert forall x :: r[x] == (a + t)[x];
  }

  /** A distance that is never negative and is zero exactly between equal points. */
  ghost predicate Separating(dist: Distance) {
    forall x, y :: 0.0 <= dist(x, y) && (dist(x, y) == 0.0 <==> x == y)
  }

  /**
   * For a separating distance, the search for one neighbour of a point in
   * the tree ends with the node holding that point at the front.
   */
  lemma NearestOfStoredKey<V>(N: nat, nodes: seq<Node<V>>, paths: seq<seq<bool>>, parents: seq<nat>,
                              dist: Distance, q: Point)
    requires ArenaValid(N, nodes, paths, parents) && |q| == N
    requires Separating(dist) && q in ContentsOf(nodes)
    ensures var r := KnnSearch(N, nodes, dist, q, [], 1, Root(nodes));
      r != [] && r[0].item < |nodes| && nodes[r[0].item].key == q
  {
    var r := KnnSearch(N, nodes, dist, q, [], 1, Root(nodes));
    var path := DescentPath(N, nodes, q, Root(nodes));
    DescentFindsKey(N, nodes, paths, parents, q);
    var k :| 0 <= k < |path| && nodes[path[k]].key == q;
    KnnSearchBest(N, nodes, dist, q, [], 1, Root(nodes));
    KnnSearchEntries(N, nodes, dist, q, [], 1, Root(nodes));
    assert r != [] && r[0].priority <= dist(nodes[path[k]].key, q);
    assert dist(q, q) == 0.0;
    var found := nodes[r[0].item].key;
    assert r[0].priority == dist(found, q);
    assert 0.0 <= dist(found, q) && (dist(found, q) == 0.0 <==> found == q);
  }

  /** Point `p` is at least as near to `q` as every node on the descent from the root for `q`. */
  ghost predicate NearAsDescent<V>(N: nat, nodes: seq<Node<V>>, dist: Distance, q: Point, p: Point)
    requires Searchable(N, nodes, q)
  {
    var path := DescentPath(N, nodes, q, Root(nodes));
    forall k | 0 <= k < |path| :: dist(p, q) <= dist(nodes[path[k]].key, q)
  }

  /**
   * The one-neighbour search in a non-empty tree retains a node whose key is
   * stored, is at least as near as every node on the descent, and is `q`
   * itself when `q` is stored and the distance separates points.
   */
  lemma NearestFound<V>(N: nat, nodes: seq<Node<V>>, paths: seq<seq<bool>>, parents: seq<nat>,
                        dist: Distance, q: Point)
    requires ArenaValid(N, nodes, paths, parents) && |q| == N && |nodes| > 0
    ensures var r := KnnSearch(N, nodes, dist, q, [], 1, Root(nodes));
      && r != [] && r[0].item < |nodes|
      && NearAsDescent(N, nodes, dist, q, nodes[r[0].item].key)
      && (Separating(dist) && q in ContentsOf(nodes) ==> nodes[r[0].item].key == q)
  {
    var r := KnnSearch(N, nodes, dist, q, [], 1, Root(nodes));
    KnnSearchKeepsBest(N, nodes, dist, q, [], 1, Root(nodes));
    KnnSearchEntries(N, nodes, dist, q, [], 1, Root(nodes));
    KnnSearchBest(N, nodes, dist, q, [], 1, Root(nodes));
    assert r[0].priority == dist(nodes[r[0].item].key, q);
    if Separating(dist) && q in ContentsOf(nodes) {
      NearestOfStoredKey(N, nodes, paths, parents, dist, q);
    }
  }

  /** With a capacity of at least the number of nodes, the search from the root returns every node once. */
  lemma KnnSearchReturnsAll<V>(N: nat, nodes: seq<Node<V>>, paths: seq<seq<bool>>, parents: seq<nat>,
                               dist: Distance, q: Point, k: nat)
    requires ArenaValid(N, nodes, paths, parents) && |q| == N && k >= |nodes|
    ensures var r := KnnSearch(N, nodes, dist, q, [], k, Root(nodes));
      && |r| == |nodes|
      && forall j | 0 <= j < |nodes| :: j in Items(r)
  {
    var r := KnnSearch(N, nodes, dist, q, [], k, Root(nodes));
    RootSubtree(nodes, paths, parents);
    KnnSearchAllSize(N, nodes, paths, dist, q, [], k, Root(nodes));
    KnnSearchAll(N, nodes, paths, dist, q, [], k, Root(nodes));
    forall j | 0 <= j < |nodes| ensures j in Items(r) {
      assert j in multiset(Items(r));
    }
  }

  /** `values` holds, in order, the value of the node each entry of `s` names. */
  ghost predicate ValuesOfEntries<V>(nodes: seq<Node<V>>, s: seq<Entry<nat>>, values: seq<V>) {
    |values| == |s| && forall i | 0 <= i < |s| :: s[i].item < |nodes| && values[i] == nodes[s[i].item].val
  }

  /** The nodes the entries name are in non-decreasing distance from `q`. */
  predicate NearestFirst<V>(nodes: seq<Node<V>>, dist: Distance, q: Point, s: seq<Entry<nat>>) {
    forall i, j | 0 <= i < j < |s| ::
      s[i].item < |nodes| && s[j].item < |nodes| &&
      dist(nodes[s[i].item].key, q) <= dist(nodes[s[j].item].key, q)
  }

  /** Every one of `values` is bound to some key of `m`. */
  ghost predicate AllStored<V>(m: map<Point, V>, values: seq<V>) {
    forall k | 0 <= k < |values| :: exists p | p in m :: m[p] == values[k]
  }

  /** Every value bound in `m` is among `values`. */
  ghost predicate CoversAll<V>(m: map<Point, V>, values: seq<V>) {
    forall p | p in m :: m[p] in values
  }

  /**
   * The values read off the neighbour search from the root: nearest first,
   * each one stored in the tree, and, when the capacity `k` is at least the
   * number of nodes, one per node so that every stored value appears.
   */
  lemma KnnValues<V>(N: nat, nodes: seq<Node<V>>, paths: seq<seq<bool>>, parents: seq<nat>,
                     dist: Distance, q: Point, k: nat, values: seq<V>)
    requires ArenaValid(N, nodes, paths, parents) && |q| == N
    requires ValuesOfEntries(nodes, KnnSearch(N, nodes, dist, q, [], k, Root(nodes)), values)
    ensures NearestFirst(nodes, dist, q, KnnSearch(N, nodes, dist, q, [], k, Root(nodes)))
    ensures AllStored(ContentsOf(nodes), values)
    ensures k >= |nodes| ==> |values| == |nodes| && CoversAll(ContentsOf(nodes), values)
    ensures |values| == if k < |nodes| then k else |nodes|
  {
    var S := KnnSearch(N, nodes, dist, q, [], k, Root(nodes));
    KnnSearchEntries(N, nodes, dist, q, [], k, Root(nodes));
    RootSubtree(nodes, paths, parents);
    KnnSearchCount(N, nodes, paths, dist, q, [], k, Root(nodes));
    forall i | 0 <= i < |values| ensures exists p | p in ContentsOf(nodes) :: ContentsOf(nodes)[p] == values[i] {
      ContentsHas(nodes, S[i].item);
    }
    if k >= |nodes| {
      KnnSearchReturnsAll(N, nodes, paths, parents, dist, q, k);
      forall p | p in ContentsOf(nodes) ensures ContentsOf(nodes)[p] in values {
        var j := ContentsWitness(nodes, p);
        ContentsHas(nodes, j);
        assert j in Items(S);
        var m :| 0 <= m < |S| && Items(S)[m] == j;
        assert values[m] == ContentsOf(nodes)[p];
      }
    }
  }
}

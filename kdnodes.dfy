/**
 * The nodes of the k-d tree and the facts about their shape.
 *
 * Nodes are kept in an arena: the tree's heap of `Node` objects becomes a
 * sequence, and a `Node*` becomes a `Link` that is either `Nil` (the null
 * pointer) or the index of a node.  Nodes are only ever appended, so every
 * child was allocated after its parent and its index is larger.
 *
 * The shape of the tree is described by two ghost sequences kept beside the
 * arena: `paths[i]` is the sequence of turns (`false` left, `true` right)
 * from the root to node `i`, and `parents[i]` is the node whose child link
 * points at `i`.  With them the splitting invariant needs no recursion: a
 * node `j` lies below a node `a` exactly when `paths[a]` is a proper prefix
 * of `paths[j]`, and the next turn on `paths[j]` says on which side.
 */
module KDNodes {
  import opened PQueue

  /** A point: a fixed number of coordinates; points are equal when all coordinates are. */
  type Point = seq<real>

  /** A child pointer: `Nil` is the null pointer, `Ptr(i)` the node at index `i`. */
  datatype Link = Nil | Ptr(index: nat)

  datatype Node<V> = Node(key: Point, val: V, level: nat, left: Link, right: Link)

  /** The child on one side of a node: `true` is the right child, `false` the left. */
  function Child<V>(node: Node<V>, right: bool): Link {
    if right then node.right else node.left
  }

  /**
   * The descent rule shared by insert, findPoint, range_query and the
   * neighbour search: on the node's splitting dimension `level % N`, a
   * coordinate strictly below the node's goes left, any other goes right.
   */
  predicate GoesRight<V>(N: nat, p: Point, node: Node<V>)
    requires N >= 1 && |p| == N && |node.key| == N
  {
    var d := node.level % N;
    !(p[d] < node.key[d])
  }

  predicate InArena(n: nat, l: Link) {
    l.Nil? || l.index < n
  }

  /** Every child link points at a node allocated after its parent. */
  predicate Linked<V>(nodes: seq<Node<V>>) {
    forall i, right | 0 <= i < |nodes| ::
      InArena(|nodes|, Child(nodes[i], right)) &&
      (Child(nodes[i], right).Ptr? ==> i < Child(nodes[i], right).index)
  }

  predicate Dimensioned<V>(N: nat, nodes: seq<Node<V>>) {
    forall i | 0 <= i < |nodes| :: |nodes[i].key| == N
  }

  predicate DistinctKeys<V>(nodes: seq<Node<V>>) {
    forall i, j | 0 <= i < j < |nodes| :: nodes[i].key != nodes[j].key
  }

  /** The root's path is empty. */
  ghost predicate RootPath<V>(nodes: seq<Node<V>>, paths: seq<seq<bool>>) {
    |paths| == |nodes| && (|nodes| > 0 ==> paths[0] == [])
  }

  /** A node's level is its depth, the length of its path. */
  ghost predicate LevelsAreDepths<V>(nodes: seq<Node<V>>, paths: seq<seq<bool>>) {
    |paths| == |nodes| && forall i | 0 <= i < |nodes| :: nodes[i].level == |paths[i]|
  }

  /** A child's path extends its parent's by the side it hangs on. */
  ghost predicate ChildPaths<V>(nodes: seq<Node<V>>, paths: seq<seq<bool>>) {
    && |paths| == |nodes|
    && forall i, right | 0 <= i < |nodes| && Child(nodes[i], right).Ptr? &&
         Child(nodes[i], right).index < |nodes| ::
         paths[Child(nodes[i], right).index] == paths[i] + [right]
  }

  /** Every node but the root hangs, on the side its path ends with, from an earlier node. */
  ghost predicate ParentLinks<V>(nodes: seq<Node<V>>, paths: seq<seq<bool>>, parents: seq<nat>) {
    && |paths| == |nodes| && |parents| == |nodes|
    && forall j {:trigger parents[j]} | 0 < j < |nodes| ::
         && parents[j] < j && paths[j] != []
         && paths[j] == paths[parents[j]] + [paths[j][|paths[j]| - 1]]
         && Child(nodes[parents[j]], paths[j][|paths[j]| - 1]) == Ptr(j)
  }

  /** No two nodes share a path. */
  ghost predicate DistinctPaths(paths: seq<seq<bool>>) {
    forall i, j | 0 <= i < j < |paths| :: paths[i] != paths[j]
  }

  /**
   * The arena forms one tree rooted at node 0, and a node's level is its
   * depth.
   */
  ghost predicate Shaped<V>(nodes: seq<Node<V>>, paths: seq<seq<bool>>, parents: seq<nat>) {
    && RootPath(nodes, paths) && LevelsAreDepths(nodes, paths) && ChildPaths(nodes, paths)
    && ParentLinks(nodes, paths, parents) && DistinctPaths(paths)
  }

  /**
   * The splitting invariant: for every node `a` with splitting dimension
   * `d`, each node in its left subtree has a key strictly below `a`'s on
   * `d`, and each node in its right subtree a key at least `a`'s on `d`.
   */
  ghost predicate SplitOrdered<V>(N: nat, nodes: seq<Node<V>>, paths: seq<seq<bool>>)
    requires N >= 1 && Dimensioned(N, nodes) && |paths| == |nodes|
  {
    forall a, j | 0 <= a < |nodes| && 0 <= j < |nodes| && paths[a] < paths[j] ::
      GoesRight(N, nodes[j].key, nodes[a]) == paths[j][|paths[a]|]
  }

  /** Everything the tree keeps true of its nodes. */
  ghost predicate ArenaValid<V>(N: nat, nodes: seq<Node<V>>, paths: seq<seq<bool>>, parents: seq<nat>) {
    && N >= 1 && Dimensioned(N, nodes) && Linked(nodes) && DistinctKeys(nodes)
    && Shaped(nodes, paths, parents) && SplitOrdered(N, nodes, paths)
  }

  /** The root link of an arena: node 0, or null when there is no node. */
  function Root<V>(nodes: seq<Node<V>>): Link {
    if |nodes| == 0 then Nil else Ptr(0)
  }

  function Measure(n: nat, l: Link): nat {
    if l.Ptr? && l.index < n then n - l.index else 0
  }

  // ---------------------------------------------------------------------
  // The contents of the tree: each key bound to its value.
  // ---------------------------------------------------------------------

  function ContentsOf<V>(nodes: seq<Node<V>>): map<Point, V> {
    if nodes == [] then map[]
    else ContentsOf(nodes[..|nodes| - 1])[nodes[|nodes| - 1].key := nodes[|nodes| - 1].val]
  }

  /** Every node's key is in the contents, bound to its value when keys are distinct. */
  lemma {:induction false} ContentsHas<V>(nodes: seq<Node<V>>, i: nat)
    requires i < |nodes|
    ensures nodes[i].key in ContentsOf(nodes)
    ensures DistinctKeys(nodes) ==> ContentsOf(nodes)[nodes[i].key] == nodes[i].val
  {
    if i < |nodes| - 1 {
      ContentsHas(nodes[..|nodes| - 1], i);
    }
  }

  /** Every key in the contents is the key of some node. */
  lemma {:induction false} ContentsWitness<V>(nodes: seq<Node<V>>, k: Point) returns (i: nat)
    requires k in ContentsOf(nodes)
    ensures i < |nodes| && nodes[i].key == k
  {
    if nodes[|nodes| - 1].key == k {
      i := |nodes| - 1;
    } else {
      i := ContentsWitness(nodes[..|nodes| - 1], k);
    }
  }

  /** A key no node holds is not in the contents. */
  lemma {:induction false} ContentsOnly<V>(nodes: seq<Node<V>>, k: Point)
    requires forall i | 0 <= i < |nodes| :: nodes[i].key != k
    ensures k !in ContentsOf(nodes)
  {
    if nodes != [] {
      ContentsOnly(nodes[..|nodes| - 1], k);
    }
  }

  /** With distinct keys there is one binding per node. */
  lemma {:induction false} ContentsSize<V>(nodes: seq<Node<V>>)
    requires DistinctKeys(nodes)
    ensures |ContentsOf(nodes)| == |nodes|
  {
    if nodes != [] {
      var init := nodes[..|nodes| - 1];
      ContentsSize(init);
      ContentsOnly(init, nodes[|nodes| - 1].key);
    }
  }

  /** The contents depend only on keys and values, not on links or levels. */
  lemma {:induction false} ContentsIgnoresLinks<V>(a: seq<Node<V>>, b: seq<Node<V>>)
    requires |a| == |b|
    requires forall i | 0 <= i < |a| :: a[i].key == b[i].key && a[i].val == b[i].val
    ensures ContentsOf(a) == ContentsOf(b)
  {
    if a != [] {
      ContentsIgnoresLinks(a[..|a| - 1], b[..|b| - 1]);
    }
  }

  /** Overwriting the value of the node holding key k rebinds k and nothing else. */
  lemma {:induction false} ContentsOverwrite<V>(nodes: seq<Node<V>>, c: nat, v: V)
    requires c < |nodes| && DistinctKeys(nodes)
    ensures ContentsOf(nodes[c := nodes[c].(val := v)]) == ContentsOf(nodes)[nodes[c].key := v]
  {
    var updated := nodes[c := nodes[c].(val := v)];
    var n := |nodes|;
    if c == n - 1 {
      ContentsIgnoresLinks(updated[..n - 1], nodes[..n - 1]);
    } else {
      var init := nodes[..n - 1];
      assert updated[..n - 1] == init[c := init[c].(val := v)];
      ContentsOverwrite(init, c, v);
    }
  }

  // ---------------------------------------------------------------------
  // Subtrees and the tree shape.
  // ---------------------------------------------------------------------

  /** The indices of the nodes reachable from a link. */
  ghost function Subtree<V>(nodes: seq<Node<V>>, l: Link): (r: set<nat>)
    requires Linked(nodes) && InArena(|nodes|, l)
    ensures forall j :: j in r ==> l.Ptr? && l.index <= j < |nodes|
    ensures l.Ptr? ==> l.index in r
    decreases Measure(|nodes|, l)
  {
    match l
    case Nil => {}
    case Ptr(i) =>
      assert Linked(nodes) ==> InArena(|nodes|, Child(nodes[i], false)) && InArena(|nodes|, Child(nodes[i], true));
      {i} + Subtree(nodes, nodes[i].left) + Subtree(nodes, nodes[i].right)
  }

  /** Every node of the subtree at `c` has `c`'s path as a prefix of its own. */
  lemma {:induction false} SubtreePrefix<V>(nodes: seq<Node<V>>, paths: seq<seq<bool>>, c: nat, j: nat)
    requires Linked(nodes) && ChildPaths(nodes, paths) && c < |nodes|
    requires j in Subtree(nodes, Ptr(c))
    ensures paths[c] <= paths[j]
    decreases |nodes| - c
  {
    if j != c {
      var right := j in Subtree(nodes, nodes[c].right);
      var child := Child(nodes[c], right);
      assert InArena(|nodes|, child);
      SubtreePrefix(nodes, paths, child.index, j);
      assert paths[child.index] == paths[c] + [right];
    }
  }

  /** The node at `c` and its two subtrees share no node. */
  lemma SubtreeDisjoint<V>(nodes: seq<Node<V>>, paths: seq<seq<bool>>, c: nat)
    requires Linked(nodes) && ChildPaths(nodes, paths) && c < |nodes|
    ensures c !in Subtree(nodes, Child(nodes[c], false)) && c !in Subtree(nodes, Child(nodes[c], true))
    ensures Subtree(nodes, Child(nodes[c], false)) !! Subtree(nodes, Child(nodes[c], true))
  {
    forall j | j in Subtree(nodes, nodes[c].left) || j in Subtree(nodes, nodes[c].right)
      ensures paths[c] + [j in Subtree(nodes, nodes[c].right)] <= paths[j]
      ensures j in Subtree(nodes, nodes[c].left) ==> paths[c] + [false] <= paths[j]
    {
      var right := j in Subtree(nodes, nodes[c].right);
      var child := Child(nodes[c], right);
      SubtreePrefix(nodes, paths, child.index, j);
      assert paths[child.index] == paths[c] + [right];
      if j in Subtree(nodes, nodes[c].left) {
        var l := nodes[c].left;
        SubtreePrefix(nodes, paths, l.index, j);
        assert paths[l.index] == paths[c] + [false];
      }
    }
    forall j | j in Subtree(nodes, nodes[c].left) ensures j !in Subtree(nodes, nodes[c].right) {
      assert paths[c] + [false] <= paths[j];
      assert paths[j][|paths[c]|] == false;
    }
  }

  /** A child of a node in a subtree is in that subtree. */
  lemma {:induction false} ChildInSubtree<V>(nodes: seq<Node<V>>, l: Link, a: nat, right: bool)
    requires Linked(nodes) && InArena(|nodes|, l) && a in Subtree(nodes, l)
    requires Child(nodes[a], right).Ptr?
    ensures Child(nodes[a], right).index in Subtree(nodes, l)
    decreases Measure(|nodes|, l)
  {
    var i := l.index;
    assert InArena(|nodes|, Child(nodes[i], false)) && InArena(|nodes|, Child(nodes[i], true));
    if a != i {
      if a in Subtree(nodes, nodes[i].left) {
        ChildInSubtree(nodes, nodes[i].left, a, right);
      } else {
        ChildInSubtree(nodes, nodes[i].right, a, right);
      }
    } else {
      assert Child(nodes[a], right).index in Subtree(nodes, Child(nodes[i], right));
    }
  }

  /** Every node is reachable from the root. */
  lemma {:induction false} ReachableFromRoot<V>(nodes: seq<Node<V>>, paths: seq<seq<bool>>,
                                                parents: seq<nat>, j: nat)
    requires Linked(nodes) && ParentLinks(nodes, paths, parents) && j < |nodes|
    ensures j in Subtree(nodes, Root(nodes))
    decreases j
  {
    if j > 0 {
      var p := parents[j];
      ReachableFromRoot(nodes, paths, parents, p);
      ChildInSubtree(nodes, Root(nodes), p, paths[j][|paths[j]| - 1]);
    }
  }

  /** A set of naturals holding exactly those below `n` has `n` members. */
  lemma {:induction false} IndexSetSize(r: set<nat>, n: nat)
    requires forall j: nat :: j in r <==> j < n
    ensures |r| == n
  {
    if n > 0 {
      IndexSetSize(r - {n - 1}, n - 1);
    }
  }

  /** The root's subtree is the whole arena. */
  lemma RootSubtree<V>(nodes: seq<Node<V>>, paths: seq<seq<bool>>, parents: seq<nat>)
    requires Linked(nodes) && ParentLinks(nodes, paths, parents)
    ensures forall j: nat :: j in Subtree(nodes, Root(nodes)) <==> j < |nodes|
    ensures |Subtree(nodes, Root(nodes))| == |nodes|
  {
    var r := Subtree(nodes, Root(nodes));
    forall j: nat ensures j in r <==> j < |nodes| {
      if j < |nodes| {
        ReachableFromRoot(nodes, paths, parents, j);
      }
    }
    IndexSetSize(r, |nodes|);
  }

  /** A prefix of a path extended by one turn is that whole path or a prefix of the shorter one. */
  lemma PrefixOfExtension(p: seq<bool>, q: seq<bool>, x: bool)
    ensures p <= q + [x] ==> p == q + [x] || p <= q
  {
    if p <= q + [x] && |p| <= |q| {
      assert p == (q + [x])[..|p|] == q[..|p|];
    }
  }

  /** When no node has the path `P`, no node lies below `P` either. */
  lemma {:induction false} NoNodeBelow<V>(nodes: seq<Node<V>>, paths: seq<seq<bool>>,
                                          parents: seq<nat>, P: seq<bool>, j: nat)
    requires Shaped(nodes, paths, parents) && j < |nodes|
    requires forall i | 0 <= i < |nodes| :: paths[i] != P
    ensures !(P <= paths[j])
    decreases j
  {
    if j > 0 {
      var p := parents[j];
      NoNodeBelow(nodes, paths, parents, P, p);
      PrefixOfExtension(P, paths[p], paths[j][|paths[j]| - 1]);
    }
  }

  // ---------------------------------------------------------------------
  // The descent that insert and findPoint perform.
  // ---------------------------------------------------------------------

  /**
   * A descent for point `p` that has taken the turns `P` and reached `cur`:
   * `cur` is the node at path `P` (or `P` is a free slot), every node passed
   * on the way sent `p` the way it went, and any node holding `p` lies at or
   * below `P`.
   */
  ghost predicate Descending<V>(N: nat, nodes: seq<Node<V>>, paths: seq<seq<bool>>, parents: seq<nat>,
                                p: Point, cur: Link, P: seq<bool>)
    requires ArenaValid(N, nodes, paths, parents) && |p| == N
  {
    && InArena(|nodes|, cur)
    && (cur.Ptr? ==> paths[cur.index] == P)
    && (cur.Nil? ==> forall j | 0 <= j < |nodes| :: paths[j] != P)
    && (forall a | 0 <= a < |nodes| && paths[a] < P :: GoesRight(N, p, nodes[a]) == P[|paths[a]|])
    && (forall j | 0 <= j < |nodes| && nodes[j].key == p :: P <= paths[j])
  }

  lemma DescendStart<V>(N: nat, nodes: seq<Node<V>>, paths: seq<seq<bool>>, parents: seq<nat>, p: Point)
    requires ArenaValid(N, nodes, paths, parents) && |p| == N
    ensures Descending(N, nodes, paths, parents, p, Root(nodes), [])
  {
  }

  /** A null child link is a free slot: no node has the path it would have. */
  lemma FreeSlot<V>(nodes: seq<Node<V>>, paths: seq<seq<bool>>, parents: seq<nat>, c: nat, s: bool)
    requires Shaped(nodes, paths, parents) && c < |nodes| && Child(nodes[c], s).Nil?
    ensures forall j | 0 <= j < |nodes| :: paths[j] != paths[c] + [s]
  {
    forall j | 0 <= j < |nodes| ensures paths[j] != paths[c] + [s] {
      if j > 0 {
        var pj := parents[j];
        assert paths[pj] == paths[j][..|paths[j]| - 1];
        if pj == c {
          assert paths[j][|paths[j]| - 1] != s;
        } else {
          assert paths[pj] != paths[c];
        }
      }
    }
  }

  /** Taking the turn the node at the end of `P` dictates keeps the turns consistent with `p`. */
  lemma StepTurns<V>(N: nat, nodes: seq<Node<V>>, paths: seq<seq<bool>>, p: Point, c: nat, P: seq<bool>)
    requires N >= 1 && Dimensioned(N, nodes) && |paths| == |nodes| && |p| == N
    requires forall i, j | 0 <= i < j < |nodes| :: paths[i] != paths[j]
    requires c < |nodes| && paths[c] == P
    requires forall a | 0 <= a < |nodes| && paths[a] < P :: GoesRight(N, p, nodes[a]) == P[|paths[a]|]
    ensures var P' := P + [GoesRight(N, p, nodes[c])];
      forall a | 0 <= a < |nodes| && paths[a] < P' :: GoesRight(N, p, nodes[a]) == P'[|paths[a]|]
  {
    var P' := P + [GoesRight(N, p, nodes[c])];
    forall a | 0 <= a < |nodes| && paths[a] < P'
      ensures GoesRight(N, p, nodes[a]) == P'[|paths[a]|]
    {
      PrefixOfExtension(paths[a], P, GoesRight(N, p, nodes[c]));
    }
  }

  /** A node holding `p` below `P` lies on the side the node at `P` sends `p` to. */
  lemma StepKey<V>(N: nat, nodes: seq<Node<V>>, paths: seq<seq<bool>>, p: Point, c: nat, P: seq<bool>)
    requires N >= 1 && Dimensioned(N, nodes) && |paths| == |nodes| && |p| == N
    requires SplitOrdered(N, nodes, paths)
    requires forall i, j | 0 <= i < j < |nodes| :: paths[i] != paths[j]
    requires c < |nodes| && paths[c] == P && nodes[c].key != p
    requires forall j | 0 <= j < |nodes| && nodes[j].key == p :: P <= paths[j]
    ensures var P' := P + [GoesRight(N, p, nodes[c])];
      forall j | 0 <= j < |nodes| && nodes[j].key == p :: P' <= paths[j]
  {
    var P' := P + [GoesRight(N, p, nodes[c])];
    forall j | 0 <= j < |nodes| && nodes[j].key == p ensures P' <= paths[j] {
      assert paths[j] != P;
      assert GoesRight(N, nodes[j].key, nodes[c]) == paths[j][|P|];
      assert P' == paths[j][..|P| + 1];
    }
  }

  /** One step of the descent past a node that does not hold `p`. */
  lemma DescendStep<V>(N: nat, nodes: seq<Node<V>>, paths: seq<seq<bool>>, parents: seq<nat>,
                       p: Point, c: nat, P: seq<bool>)
    requires ArenaValid(N, nodes, paths, parents) && |p| == N
    requires Descending(N, nodes, paths, parents, p, Ptr(c), P)
    requires nodes[c].key != p
    ensures var s := GoesRight(N, p, nodes[c]);
      Descending(N, nodes, paths, parents, p, Child(nodes[c], s), P + [s])
  {
    var s := GoesRight(N, p, nodes[c]);
    if Child(nodes[c], s).Nil? {
      FreeSlot(nodes, paths, parents, c, s);
    }
    StepTurns(N, nodes, paths, p, c, P);
    StepKey(N, nodes, paths, p, c, P);
  }

  /** A descent that reached a null link shows that no node holds `p`. */
  lemma DescendEnd<V>(N: nat, nodes: seq<Node<V>>, paths: seq<seq<bool>>, parents: seq<nat>,
                      p: Point, P: seq<bool>)
    requires ArenaValid(N, nodes, paths, parents) && |p| == N
    requires Descending(N, nodes, paths, parents, p, Nil, P)
    ensures forall j | 0 <= j < |nodes| :: nodes[j].key != p && !(P <= paths[j])
    ensures p !in ContentsOf(nodes)
  {
    forall j | 0 <= j < |nodes| ensures nodes[j].key != p && !(P <= paths[j]) {
      NoNodeBelow(nodes, paths, parents, P, j);
    }
    ContentsOnly(nodes, p);
  }

  // ---------------------------------------------------------------------
  // The arena after insert adds a node.
  // ---------------------------------------------------------------------

  /** A node with the link on one side replaced. */
  function SetChild<V>(node: Node<V>, right: bool, l: Link): (r: Node<V>)
    ensures Child(r, right) == l && Child(r, !right) == Child(node, !right)
    ensures r.key == node.key && r.val == node.val && r.level == node.level
  {
    if right then node.(right := l) else node.(left := l)
  }

  /**
   * The arena once insert has appended the new node for `p` and, unless the
   * tree was empty, hung it on side `s` of node `last`.
   */
  function Grown<V>(nodes: seq<Node<V>>, p: Point, v: V, level: nat, last: nat, s: bool): seq<Node<V>>
    requires |nodes| == 0 || last < |nodes|
  {
    var added := Node(p, v, level, Nil, Nil);
    if |nodes| == 0 then [added]
    else (nodes + [added])[last := SetChild(nodes[last], s, Ptr(|nodes|))]
  }

  /** Each link of the grown arena: the new slot, the new node's nulls, or the old link. */
  lemma GrownChildren<V>(nodes: seq<Node<V>>, p: Point, v: V, level: nat, last: nat, s: bool)
    requires |nodes| == 0 || last < |nodes|
    ensures var g := Grown(nodes, p, v, level, last, s);
      && |g| == |nodes| + 1
      && g[|nodes|] == Node(p, v, level, Nil, Nil)
      && (|nodes| > 0 ==> Child(g[last], s) == Ptr(|nodes|))
      && (forall i, right | 0 <= i < |nodes| && (i != last || right != s) ::
            Child(g[i], right) == Child(nodes[i], right))
      && (forall i | 0 <= i < |nodes| ::
            g[i].key == nodes[i].key && g[i].val == nodes[i].val && g[i].level == nodes[i].level)
  {
  }

  /** The facts about the free slot the descent for `p` ended in, as insert establishes them. */
  ghost predicate FreeSlotFor<V>(N: nat, nodes: seq<Node<V>>, paths: seq<seq<bool>>, parents: seq<nat>,
                                 p: Point, P: seq<bool>, last: nat, s: bool)
    requires ArenaValid(N, nodes, paths, parents) && |p| == N
  {
    && Descending(N, nodes, paths, parents, p, Nil, P)
    && (|nodes| == 0 ==> P == [])
    && (|nodes| > 0 ==> last < |nodes| && P == paths[last] + [s] && Child(nodes[last], s) == Nil)
  }

  /**
   * The state of insert's walk: the descent invariant, plus the node `last`
   * it came from (null only at the start) and the side of it it took.
   */
  ghost predicate Trail<V>(N: nat, nodes: seq<Node<V>>, paths: seq<seq<bool>>, parents: seq<nat>,
                           p: Point, last: Link, cur: Link, P: seq<bool>)
    requires ArenaValid(N, nodes, paths, parents) && |p| == N
  {
    && Descending(N, nodes, paths, parents, p, cur, P)
    && (last.Nil? <==> P == [])
    && (last.Nil? ==> cur == Root(nodes))
    && (last.Ptr? ==>
          && last.index < |nodes| && P == paths[last.index] + [P[|P| - 1]]
          && Child(nodes[last.index], P[|P| - 1]) == cur
          && GoesRight(N, p, nodes[last.index]) == P[|P| - 1])
  }

  lemma TrailStart<V>(N: nat, nodes: seq<Node<V>>, paths: seq<seq<bool>>, parents: seq<nat>, p: Point)
    requires ArenaValid(N, nodes, paths, parents) && |p| == N
    ensures Trail(N, nodes, paths, parents, p, Nil, Root(nodes), [])
  {
    DescendStart(N, nodes, paths, parents, p);
  }

  lemma TrailStep<V>(N: nat, nodes: seq<Node<V>>, paths: seq<seq<bool>>, parents: seq<nat>,
                     p: Point, last: Link, c: nat, P: seq<bool>)
    requires ArenaValid(N, nodes, paths, parents) && |p| == N
    requires Trail(N, nodes, paths, parents, p, last, Ptr(c), P) && nodes[c].key != p
    ensures var s := GoesRight(N, p, nodes[c]);
      Trail(N, nodes, paths, parents, p, Ptr(c), Child(nodes[c], s), P + [s])
  {
    DescendStep(N, nodes, paths, parents, p, c, P);
  }

  /** The turn a finished walk ended with, and the node it left from. */
  function LastTurn(P: seq<bool>): bool {
    if P == [] then false else P[|P| - 1]
  }

  function LastIndex(last: Link): nat {
    if last.Ptr? then last.index else 0
  }

  lemma TrailEnd<V>(N: nat, nodes: seq<Node<V>>, paths: seq<seq<bool>>, parents: seq<nat>,
                    p: Point, last: Link, P: seq<bool>)
    requires ArenaValid(N, nodes, paths, parents) && |p| == N
    requires Trail(N, nodes, paths, parents, p, last, Nil, P)
    ensures |nodes| > 0 <==> last.Ptr?
    ensures FreeSlotFor(N, nodes, paths, parents, p, P, LastIndex(last), LastTurn(P))
    ensures last.Ptr? ==> last.index < |nodes| && LastTurn(P) == GoesRight(N, p, nodes[last.index])
  {
  }

  /** The ghost paths after insert: the old ones and the new node's path `P`. */
  ghost predicate PathsGrown(paths: seq<seq<bool>>, paths': seq<seq<bool>>, P: seq<bool>) {
    |paths'| == |paths| + 1 && paths'[|paths|] == P &&
    forall i | 0 <= i < |paths| :: paths'[i] == paths[i]
  }

  /** The links after insert: the new node has none, `last` gains one on side `s`, the rest are kept. */
  ghost predicate LinksGrown<V>(nodes: seq<Node<V>>, g: seq<Node<V>>, last: nat, s: bool) {
    && |g| == |nodes| + 1 && g[|nodes|].left == Nil && g[|nodes|].right == Nil
    && (|nodes| > 0 ==> last < |nodes| && Child(g[last], s) == Ptr(|nodes|))
    && (forall i, right | 0 <= i < |nodes| && (i != last || right != s) ::
          Child(g[i], right) == Child(nodes[i], right))
  }

  lemma AttachChildPaths<V>(nodes: seq<Node<V>>, paths: seq<seq<bool>>, g: seq<Node<V>>,
                            paths': seq<seq<bool>>, P: seq<bool>, last: nat, s: bool)
    requires Linked(nodes) && ChildPaths(nodes, paths) && PathsGrown(paths, paths', P)
    requires LinksGrown(nodes, g, last, s)
    requires |nodes| > 0 ==> P == paths[last] + [s]
    ensures ChildPaths(g, paths')
  {
    var n := |nodes|;
    forall i, right | 0 <= i < n + 1 && Child(g[i], right).Ptr? && Child(g[i], right).index < n + 1
      ensures paths'[Child(g[i], right).index] == paths'[i] + [right]
    {
      if i < n && (i != last || right != s) {
        var c := Child(nodes[i], right);
        assert c == Child(g[i], right) && InArena(n, c);
        assert paths'[c.index] == paths[c.index] && paths'[i] == paths[i];
      }
    }
  }

  lemma AttachParentLinks<V>(nodes: seq<Node<V>>, paths: seq<seq<bool>>, parents: seq<nat>, g: seq<Node<V>>,
                             paths': seq<seq<bool>>, parents': seq<nat>, P: seq<bool>, last: nat, s: bool)
    requires ParentLinks(nodes, paths, parents) && PathsGrown(paths, paths', P) && LinksGrown(nodes, g, last, s)
    requires |nodes| > 0 ==> P == paths[last] + [s] && Child(nodes[last], s) == Nil
    requires |parents'| == |parents| + 1 && parents'[|parents|] == last
    requires forall i | 0 <= i < |parents| :: parents'[i] == parents[i]
    ensures ParentLinks(g, paths', parents')
  {
    var n := |nodes|;
    forall j | 0 < j < n + 1
      ensures && parents'[j] < j && paths'[j] != []
              && paths'[j] == paths'[parents'[j]] + [paths'[j][|paths'[j]| - 1]]
              && Child(g[parents'[j]], paths'[j][|paths'[j]| - 1]) == Ptr(j)
    {
      if j < n {
        var pj := parents[j];
        assert parents'[j] == pj && paths'[j] == paths[j] && paths'[pj] == paths[pj];
      } else {
        assert paths'[j][|paths'[j]| - 1] == s;
      }
    }
  }

  lemma AttachDistinctPaths(paths: seq<seq<bool>>, paths': seq<seq<bool>>, P: seq<bool>)
    requires DistinctPaths(paths) && PathsGrown(paths, paths', P)
    requires forall j | 0 <= j < |paths| :: paths[j] != P
    ensures DistinctPaths(paths')
  {
  }

  /** The new node respects every old node's split, and no old node lies below it. */
  lemma GrownSplit<V>(N: nat, nodes: seq<Node<V>>, paths: seq<seq<bool>>, g: seq<Node<V>>,
                      paths': seq<seq<bool>>, p: Point, P: seq<bool>)
    requires N >= 1 && Dimensioned(N, nodes) && |paths| == |nodes| && |p| == N
    requires SplitOrdered(N, nodes, paths) && PathsGrown(paths, paths', P)
    requires |g| == |nodes| + 1 && g[|nodes|].key == p
    requires forall i | 0 <= i < |nodes| :: g[i].key == nodes[i].key && g[i].level == nodes[i].level
    requires forall a | 0 <= a < |nodes| && paths[a] < P :: GoesRight(N, p, nodes[a]) == P[|paths[a]|]
    requires forall j | 0 <= j < |nodes| :: !(P <= paths[j])
    ensures Dimensioned(N, g)
    ensures SplitOrdered(N, g, paths')
  {
    var n := |nodes|;
    assert Dimensioned(N, g) by {
      forall i | 0 <= i < n + 1 ensures |g[i].key| == N {
        if i < n { assert g[i].key == nodes[i].key; }
      }
    }
    forall a, j | 0 <= a < n + 1 && 0 <= j < n + 1 && paths'[a] < paths'[j]
      ensures GoesRight(N, g[j].key, g[a]) == paths'[j][|paths'[a]|]
    {
      if a < n && j < n {
        assert paths'[a] == paths[a] && paths'[j] == paths[j];
        assert GoesRight(N, nodes[j].key, nodes[a]) == paths[j][|paths[a]|];
      } else if a < n {
        assert paths'[a] == paths[a] && paths'[j] == P;
        assert GoesRight(N, p, nodes[a]) == P[|paths[a]|];
      }
    }
  }

  /** The keys and values after insert: the old nodes keep theirs and the new node holds `p` and `v`. */
  ghost predicate EntriesGrown<V>(nodes: seq<Node<V>>, g: seq<Node<V>>, p: Point, v: V) {
    && |g| == |nodes| + 1 && g[|nodes|].key == p && g[|nodes|].val == v
    && forall i | 0 <= i < |nodes| :: g[i].key == nodes[i].key && g[i].val == nodes[i].val
  }

  lemma GrownLinked<V>(nodes: seq<Node<V>>, g: seq<Node<V>>, last: nat, s: bool)
    requires Linked(nodes) && LinksGrown(nodes, g, last, s)
    ensures Linked(g)
  {
    var n := |nodes|;
    forall i, right | 0 <= i < n + 1
      ensures InArena(n + 1, Child(g[i], right)) && (Child(g[i], right).Ptr? ==> i < Child(g[i], right).index)
    {
      if i < n && (i != last || right != s) {
        assert InArena(n, Child(nodes[i], right));
      }
    }
  }

  lemma GrownKeys<V>(nodes: seq<Node<V>>, g: seq<Node<V>>, p: Point, v: V)
    requires DistinctKeys(nodes) && EntriesGrown(nodes, g, p, v)
    requires forall j | 0 <= j < |nodes| :: nodes[j].key != p
    ensures DistinctKeys(g)
  {
  }

  lemma GrownContents<V>(nodes: seq<Node<V>>, g: seq<Node<V>>, p: Point, v: V)
    requires EntriesGrown(nodes, g, p, v)
    ensures ContentsOf(g) == ContentsOf(nodes)[p := v]
  {
    ContentsIgnoresLinks(g[..|nodes|], nodes);
  }

  lemma AttachLevels<V>(nodes: seq<Node<V>>, paths: seq<seq<bool>>, g: seq<Node<V>>,
                        paths': seq<seq<bool>>, P: seq<bool>)
    requires RootPath(nodes, paths) && LevelsAreDepths(nodes, paths) && PathsGrown(paths, paths', P)
    requires |g| == |nodes| + 1 && g[|nodes|].level == |P| && (|nodes| == 0 ==> P == [])
    requires forall i | 0 <= i < |nodes| :: g[i].level == nodes[i].level
    ensures RootPath(g, paths') && LevelsAreDepths(g, paths')
  {
    var n := |nodes|;
    forall i | 0 <= i < n + 1 ensures g[i].level == |paths'[i]| {
      if i < n { assert paths'[i] == paths[i]; }
    }
  }

  /** Adding the node the descent for `p` found a slot for keeps every invariant and binds `p` to `v`. */
  lemma GrownValid<V>(N: nat, nodes: seq<Node<V>>, paths: seq<seq<bool>>, parents: seq<nat>,
                      p: Point, v: V, P: seq<bool>, last: nat, s: bool)
    requires ArenaValid(N, nodes, paths, parents) && |p| == N
    requires FreeSlotFor(N, nodes, paths, parents, p, P, last, s)
    ensures ArenaValid(N, Grown(nodes, p, v, |P|, last, s), paths + [P], parents + [last])
    ensures p !in ContentsOf(nodes)
    ensures ContentsOf(Grown(nodes, p, v, |P|, last, s)) == ContentsOf(nodes)[p := v]
  {
    var g := Grown(nodes, p, v, |P|, last, s);
    GrownChildren(nodes, p, v, |P|, last, s);
    DescendEnd(N, nodes, paths, parents, p, P);
    var paths', parents' := paths + [P], parents + [last];
    assert PathsGrown(paths, paths', P);
    assert LinksGrown(nodes, g, last, s);
    assert EntriesGrown(nodes, g, p, v);
    AttachLevels(nodes, paths, g, paths', P);
    AttachChildPaths(nodes, paths, g, paths', P, last, s);
    AttachParentLinks(nodes, paths, parents, g, paths', parents', P, last, s);
    AttachDistinctPaths(paths, paths', P);
    GrownSplit(N, nodes, paths, g, paths', p, P);
    GrownLinked(nodes, g, last, s);
    GrownKeys(nodes, g, p, v);
    GrownContents(nodes, g, p, v);
  }

  /** Insert into an empty arena: the single node at depth 0 is a valid tree binding `p` to `v`. */
  lemma RootAttachFacts<V>(N: nat, p: Point, v: V)
    requires N >= 1 && |p| == N
    ensures ArenaValid(N, [Node(p, v, 0, Nil, Nil)], [[]], [0])
    ensures ContentsOf([Node(p, v, 0, Nil, Nil)]) == map[p := v]
  {
    var empty: seq<Node<V>> := [];
    assert FreeSlotFor(N, empty, [], [], p, [], 0, false);
    GrownValid(N, empty, [], [], p, v, [], 0, false);
    assert Grown(empty, p, v, 0, 0, false) == [Node(p, v, 0, Nil, Nil)];
  }

  /**
   * Insert's attach step on values in a non-empty arena: appending the node
   * for `p` and linking it from the side of `last` that `p` goes to yields
   * the grown arena, which keeps every invariant and binds `p` to `v`.
   */
  lemma ChildAttachFacts<V>(N: nat, nodes: seq<Node<V>>, paths: seq<seq<bool>>, parents: seq<nat>,
                            p: Point, v: V, P: seq<bool>, last: nat,
                            g: seq<Node<V>>, paths': seq<seq<bool>>, parents': seq<nat>)
    requires ArenaValid(N, nodes, paths, parents) && |p| == N && last < |nodes|
    requires FreeSlotFor(N, nodes, paths, parents, p, P, last, LastTurn(P))
    requires LastTurn(P) == GoesRight(N, p, nodes[last])
    requires g == (nodes + [Node(p, v, |P|, Nil, Nil)])[last := SetChild(nodes[last], GoesRight(N, p, nodes[last]), Ptr(|nodes|))]
    requires paths' == paths + [P] && parents' == parents + [last]
    ensures ArenaValid(N, g, paths', parents')
    ensures p !in ContentsOf(nodes) && ContentsOf(g) == ContentsOf(nodes)[p := v]
    ensures |g| == |nodes| + 1 && Root(g) == Root(nodes)
  {
    GrownValid(N, nodes, paths, parents, p, v, P, last, LastTurn(P));
    assert g == Grown(nodes, p, v, |P|, last, LastTurn(P));
  }

  /** Two arenas that differ at most in the nodes' values. */
  predicate SameShape<V>(a: seq<Node<V>>, b: seq<Node<V>>) {
    |a| == |b| &&
    forall i | 0 <= i < |a| ::
      a[i].key == b[i].key && a[i].level == b[i].level && a[i].left == b[i].left && a[i].right == b[i].right
  }

  /**
   * `b` is `a` with one node added at the end: every old node keeps its key,
   * value and level, and the new node holds `p` with no children.
   */
  ghost predicate Appended<V>(a: seq<Node<V>>, b: seq<Node<V>>, p: Point, v: V) {
    && |b| == |a| + 1
    && b[|a|].key == p && b[|a|].val == v && b[|a|].left == Nil && b[|a|].right == Nil
    && forall i | 0 <= i < |a| :: b[i].key == a[i].key && b[i].val == a[i].val && b[i].level == a[i].level
  }

  lemma SameShapeLinks<V>(a: seq<Node<V>>, b: seq<Node<V>>, paths: seq<seq<bool>>, parents: seq<nat>)
    requires Linked(a) && ChildPaths(a, paths) && ParentLinks(a, paths, parents) && SameShape(a, b)
    ensures Linked(b) && ChildPaths(b, paths) && ParentLinks(b, paths, parents)
  {
    assert forall i, right | 0 <= i < |a| :: Child(b[i], right) == Child(a[i], right);
  }

  lemma SameShapeSplit<V>(N: nat, a: seq<Node<V>>, b: seq<Node<V>>, paths: seq<seq<bool>>)
    requires N >= 1 && Dimensioned(N, a) && |paths| == |a| && SplitOrdered(N, a, paths) && SameShape(a, b)
    ensures Dimensioned(N, b) && SplitOrdered(N, b, paths)
  {
    assert Dimensioned(N, b);
    forall x, j | 0 <= x < |b| && 0 <= j < |b| && paths[x] < paths[j]
      ensures GoesRight(N, b[j].key, b[x]) == paths[j][|paths[x]|]
    {
      assert GoesRight(N, b[j].key, b[x]) == GoesRight(N, a[j].key, a[x]);
    }
  }

  /** The invariants never mention values. */
  lemma SameShapeValid<V>(N: nat, a: seq<Node<V>>, b: seq<Node<V>>, paths: seq<seq<bool>>, parents: seq<nat>)
    requires ArenaValid(N, a, paths, parents) && SameShape(a, b)
    ensures ArenaValid(N, b, paths, parents)
  {
    SameShapeLinks(a, b, paths, parents);
    SameShapeSplit(N, a, b, paths);
    assert DistinctKeys(b) && RootPath(b, paths) && LevelsAreDepths(b, paths);
  }

  /** Overwriting the value of a node keeps every invariant and rebinds its key alone. */
  lemma OverwriteValid<V>(N: nat, nodes: seq<Node<V>>, paths: seq<seq<bool>>, parents: seq<nat>,
                          c: nat, v: V)
    requires ArenaValid(N, nodes, paths, parents) && c < |nodes|
    ensures ArenaValid(N, nodes[c := nodes[c].(val := v)], paths, parents)
    ensures ContentsOf(nodes[c := nodes[c].(val := v)]) == ContentsOf(nodes)[nodes[c].key := v]
  {
    SameShapeValid(N, nodes, nodes[c := nodes[c].(val := v)], paths, parents);
    ContentsOverwrite(nodes, c, v);
  }

  // ---------------------------------------------------------------------
  // Insert as a function of the arena.
  // ---------------------------------------------------------------------

  /**
   * Where insert's walk ends: at the node holding the point, or at a null
   * link below `last` after visiting `depth` nodes (`last` is `Nil` only
   * when the tree is empty).
   */
  datatype Slot = Found(index: nat) | Free(last: Link, depth: nat)

  /**
   * The end of insert's walk for `p` from `cur`, having come from `last`
   * (whose link on `p`'s side is `cur`) after visiting `depth` nodes.
   */
  function FindSlot<V>(N: nat, nodes: seq<Node<V>>, p: Point, cur: Link, last: Link, depth: nat): (r: Slot)
    requires N >= 1 && Linked(nodes) && Dimensioned(N, nodes) && |p| == N
    requires InArena(|nodes|, cur)
    requires last.Ptr? ==> last.index < |nodes| && cur == Child(nodes[last.index], GoesRight(N, p, nodes[last.index]))
    ensures r.Found? ==> r.index < |nodes| && nodes[r.index].key == p
    ensures r.Free? ==> r.depth >= depth && (r.last.Nil? ==> r.last == last && r.depth == depth)
    ensures r.Free? && r.last.Ptr? ==>
              r.last.index < |nodes| && Child(nodes[r.last.index], GoesRight(N, p, nodes[r.last.index])).Nil?
    decreases Measure(|nodes|, cur)
  {
    if cur.Nil? then Free(last, depth)
    else
      var i := cur.index;
      assert InArena(|nodes|, Child(nodes[i], false)) && InArena(|nodes|, Child(nodes[i], true));
      if nodes[i].key == p then Found(i)
      else FindSlot(N, nodes, p, Child(nodes[i], GoesRight(N, p, nodes[i])), cur, depth + 1)
  }

  /** One step of insert's walk past a node that does not hold `p`. */
  lemma FindSlotStep<V>(N: nat, nodes: seq<Node<V>>, p: Point, c: nat, last: Link, depth: nat)
    requires N >= 1 && Linked(nodes) && Dimensioned(N, nodes) && |p| == N && c < |nodes|
    requires last.Ptr? ==> last.index < |nodes| && Ptr(c) == Child(nodes[last.index], GoesRight(N, p, nodes[last.index]))
    requires nodes[c].key != p
    ensures InArena(|nodes|, Child(nodes[c], GoesRight(N, p, nodes[c])))
    ensures FindSlot(N, nodes, p, Ptr(c), last, depth) ==
              FindSlot(N, nodes, p, Child(nodes[c], GoesRight(N, p, nodes[c])), Ptr(c), depth + 1)
  {
    assert InArena(|nodes|, Child(nodes[c], false)) && InArena(|nodes|, Child(nodes[c], true));
  }

  /**
   * The arena after insert binds `p` to `v`: the node holding `p` gets the
   * new value, or a childless node at the walk's depth is appended and
   * linked from the side of the last node visited that `p` goes to.
   */
  function InsertedArena<V>(N: nat, nodes: seq<Node<V>>, p: Point, v: V): (r: seq<Node<V>>)
    requires N >= 1 && Linked(nodes) && Dimensioned(N, nodes) && |p| == N
    ensures Linked(r) && Dimensioned(N, r)
    ensures FindSlot(N, nodes, p, Root(nodes), Nil, 0).Found? ==> SameShape(nodes, r)
    ensures FindSlot(N, nodes, p, Root(nodes), Nil, 0).Free? ==> Appended(nodes, r, p, v)
  {
    match FindSlot(N, nodes, p, Root(nodes), Nil, 0)
    case Found(c) =>
      var r := nodes[c := nodes[c].(val := v)];
      assert forall i, right | 0 <= i < |r| :: Child(r[i], right) == Child(nodes[i], right);
      r
    case Free(last, depth) =>
      var added := Node(p, v, depth, Nil, Nil);
      if last.Nil? then
        assert Root(nodes) == Nil;
        nodes + [added]
      else
        var s := GoesRight(N, p, nodes[last.index]);
        var g := Grown(nodes, p, v, depth, last.index, s);
        GrownChildren(nodes, p, v, depth, last.index, s);
        GrownLinked(nodes, g, last.index, s);
        g
  }

  /** Insert into an arena where the walk meets the node `c` holding `p`: only `c`'s value changes. */
  lemma InsertedArenaFound<V>(N: nat, nodes: seq<Node<V>>, p: Point, v: V, c: nat)
    requires N >= 1 && Linked(nodes) && Dimensioned(N, nodes) && |p| == N
    requires FindSlot(N, nodes, p, Root(nodes), Nil, 0) == Found(c)
    ensures c < |nodes| && InsertedArena(N, nodes, p, v) == nodes[c := nodes[c].(val := v)]
  {
  }

  /** Insert into an arena where the walk leaves `last` by a null link after `depth` nodes. */
  lemma InsertedArenaFree<V>(N: nat, nodes: seq<Node<V>>, p: Point, v: V, last: Link, depth: nat)
    requires N >= 1 && Linked(nodes) && Dimensioned(N, nodes) && |p| == N
    requires FindSlot(N, nodes, p, Root(nodes), Nil, 0) == Free(last, depth)
    ensures last.Nil? <==> nodes == []
    ensures last.Nil? ==> depth == 0 && InsertedArena(N, nodes, p, v) == [Node(p, v, 0, Nil, Nil)]
    ensures last.Ptr? ==> last.index < |nodes|
    ensures last.Ptr? ==>
              InsertedArena(N, nodes, p, v) == Grown(nodes, p, v, depth, last.index, GoesRight(N, p, nodes[last.index]))
  {
  }
}

/**
 * The `Graph` constructor's two construction phases: a random tree (or
 * forest) in which each new node picks at most one earlier node as parent,
 * followed by `crossConnectionCount` attempts to add an extra forward edge.
 *
 * The random draws are parameters: `parentDraws[i]` is the `parentIndex`
 * computed for node i (the source draws it from -1..i-1), and `crossDraws[k]`
 * is the pair `(index1, index2)` of the k-th attempt (each drawn from 0..n-1).
 */
module Builder {
  import opened Orderings
  import opened GraphNodes

  /**
   * `this.nodes[parentIndex]` while `count` nodes exist: a node when the index
   * is in range, `undefined` (no parent, a root) otherwise, -1 included.
   */
  function Lookup(count: nat, parentIndex: int): (r: Option<nat>)
    ensures r.Some? <==> 0 <= parentIndex < count
    ensures r.Some? ==> r.value == parentIndex
  {
    if 0 <= parentIndex < count then Some(parentIndex) else None
  }

  /** The tree phase: node i is created with parent `this.nodes[parentDraws[i]]`. */
  function TreePhase(parentDraws: seq<int>): (g: seq<GraphNode>)
    ensures |g| == |parentDraws|
    ensures IsDag(g)
    ensures forall i :: 0 <= i < |g| ==> g[i].parents == NewNode(i, Lookup(i, parentDraws[i])).parents
    decreases |parentDraws|
  {
    if |parentDraws| == 0 then []
    else
      var n := |parentDraws| - 1;
      var g0 := TreePhase(parentDraws[..n]);
      AppendNode(g0, Lookup(n, parentDraws[n]))
  }

  /**
   * Each tree node has no parent or exactly one parent created before it, and
   * node 0 is always a root.
   */
  lemma TreeParents(parentDraws: seq<int>)
    ensures var g := TreePhase(parentDraws);
      && (forall i :: 0 <= i < |g| ==>
            || g[i].parents == []
            || (|g[i].parents| == 1 && g[i].parents[0] < i && g[i].parents[0] == parentDraws[i]))
      && (|g| > 0 ==> g[0].parents == [])
  {
    var g := TreePhase(parentDraws);
    forall i | 0 <= i < |g|
      ensures g[i].parents == [] || (|g[i].parents| == 1 && g[i].parents[0] < i && g[i].parents[0] == parentDraws[i])
    {
      var node := NewNode(i, Lookup(i, parentDraws[i]));
      if node.parents != [] {
        assert node.parents[0] in node.parents;
      }
    }
  }

  /** The number of edges: the total length of all children lists. */
  function EdgeCount(g: seq<GraphNode>): nat
    decreases |g|
  {
    if |g| == 0 then 0 else EdgeCount(g[..|g| - 1]) + |g[|g| - 1].children|
  }

  lemma {:induction false} EdgeCountUpdate(g: seq<GraphNode>, v: nat, node: GraphNode)
    requires v < |g|
    ensures EdgeCount(g[v := node]) == EdgeCount(g) - |g[v].children| + |node.children|
    decreases |g|
  {
    var last := |g| - 1;
    if v < last {
      EdgeCountUpdate(g[..last], v, node);
      assert g[v := node][..last] == g[..last][v := node];
    } else {
      assert g[v := node][..last] == g[..last];
    }
  }

  /**
   * A cross draw the source can evaluate without a TypeError: whenever it gets
   * past `index1 >= index2`, both indices name existing nodes. Every draw
   * from 0..n-1, and the draw (0, 0) of an empty graph, is safe.
   */
  predicate SafeDraw(n: nat, index1: int, index2: int) {
    index1 < index2 ==> 0 <= index1 && index2 < n
  }

  /** The test that decides whether the attempt `(index1, index2)` adds an edge. */
  predicate Accepts(g: seq<GraphNode>, index1: int, index2: int)
    requires SafeDraw(|g|, index1, index2)
  {
    && index1 < index2
    && !HasChild(g[index1], index2)
    && !HasChild(g[index2], index1)
  }

  /**
   * One iteration of the cross-connection loop. An accepted draw adds exactly
   * the edge `index1 -> index2`; a rejected one leaves the graph unchanged.
   */
  function CrossStep(g: seq<GraphNode>, index1: int, index2: int): (g': seq<GraphNode>)
    requires IsDag(g) && SafeDraw(|g|, index1, index2)
    ensures |g'| == |g| && IsDag(g')
    ensures !Accepts(g, index1, index2) ==> g' == g
    ensures Accepts(g, index1, index2) ==>
      && EdgeCount(g') == EdgeCount(g) + 1
      && g'[index1].children == g[index1].children + [index2]
      && g'[index2].parents == g[index2].parents + [index1]
    ensures forall v :: 0 <= v < |g| ==>
      g[v].children <= g'[v].children && g[v].parents <= g'[v].parents
  {
    if !Accepts(g, index1, index2) then g
    else
      var g' := CrossConnect(g, index1, index2);
      CrossConnectKeepsDag(g, index1, index2);
      var g1 := g[index1 := g[index1].(children := g[index1].children + [index2])];
      EdgeCountUpdate(g, index1, g1[index1]);
      EdgeCountUpdate(g1, index2, g1[index2].(parents := g1[index2].parents + [index1]));
      g'
  }

  /** Every adjacency list of `small` is a prefix of the same node's list in `big`. */
  predicate Extends(small: seq<GraphNode>, big: seq<GraphNode>) {
    && |small| <= |big|
    && forall v :: 0 <= v < |small| ==> small[v].parents <= big[v].parents && small[v].children <= big[v].children
  }

  /** The whole cross-connection loop: one draw consumed per iteration. */
  function CrossPhase(g: seq<GraphNode>, crossDraws: seq<(int, int)>): (g': seq<GraphNode>)
    requires IsDag(g)
    requires forall k :: 0 <= k < |crossDraws| ==> SafeDraw(|g|, crossDraws[k].0, crossDraws[k].1)
    ensures |g'| == |g| && IsDag(g')
    decreases |crossDraws|
  {
    if |crossDraws| == 0 then g
    else
      var g1 := CrossStep(g, crossDraws[0].0, crossDraws[0].1);
      CrossPhase(g1, crossDraws[1..])
  }

  /**
   * Each attempt adds at most one edge and removes none: the edge count grows
   * by at most the number of attempts, and every adjacency list only grows
   * at its end.
   */
  lemma {:induction false} CrossPhaseGrows(g: seq<GraphNode>, crossDraws: seq<(int, int)>)
    requires IsDag(g)
    requires forall k :: 0 <= k < |crossDraws| ==> SafeDraw(|g|, crossDraws[k].0, crossDraws[k].1)
    ensures var g' := CrossPhase(g, crossDraws);
      && EdgeCount(g) <= EdgeCount(g') <= EdgeCount(g) + |crossDraws|
      && Extends(g, g')
    decreases |crossDraws|
  {
    if |crossDraws| > 0 {
      var g1 := CrossStep(g, crossDraws[0].0, crossDraws[0].1);
      CrossPhaseGrows(g1, crossDraws[1..]);
      var g' := CrossPhase(g, crossDraws);
      assert g' == CrossPhase(g1, crossDraws[1..]);
      forall v | 0 <= v < |g|
        ensures g[v].children <= g'[v].children && g[v].parents <= g'[v].parents
      {
        assert g[v].children <= g1[v].children && g[v].parents <= g1[v].parents;
      }
    }
  }

  /** The constructor's construction: tree phase, then cross-connection phase. */
  function Build(n: nat, crossConnectionCount: nat, parentDraws: seq<int>, crossDraws: seq<(int, int)>): (g: seq<GraphNode>)
    requires |parentDraws| == n && |crossDraws| == crossConnectionCount
    requires forall k :: 0 <= k < |crossDraws| ==> SafeDraw(n, crossDraws[k].0, crossDraws[k].1)
    ensures |g| == n && IsDag(g)
  {
    CrossPhase(TreePhase(parentDraws), crossDraws)
  }

  /**
   * The built graph contains the tree and at most `crossConnectionCount`
   * further edges.
   */
  lemma BuildContainsTree(n: nat, crossConnectionCount: nat, parentDraws: seq<int>, crossDraws: seq<(int, int)>)
    requires |parentDraws| == n && |crossDraws| == crossConnectionCount
    requires forall k :: 0 <= k < |crossDraws| ==> SafeDraw(n, crossDraws[k].0, crossDraws[k].1)
    ensures var tree := TreePhase(parentDraws);
      var g := Build(n, crossConnectionCount, parentDraws, crossDraws);
      && EdgeCount(tree) <= EdgeCount(g) <= EdgeCount(tree) + crossConnectionCount
      && Extends(tree, g)
  {
    var tree := TreePhase(parentDraws);
    CrossPhaseGrows(tree, crossDraws);
    assert Build(n, crossConnectionCount, parentDraws, crossDraws) == CrossPhase(tree, crossDraws);
  }
}

/**
 * The `Graph` class end to end: the constructor builds the random DAG and
 * numbers it, and `render` layers the nodes and assigns each a coordinate in
 * the unit square scaled by `size` (the canvas transform itself is left out).
 */
module Graphs {
  import opened Orderings
  import opened GraphNodes
  import opened Builder
  import opened Numbering
  import opened Layout

  /**
   * A constructed graph: the node arena indexed by id, `this.nodes` as the
   * ids in array order, and each node's `number`.
   */
  datatype Graph = Graph(arena: seq<GraphNode>, nodes: seq<nat>, number: seq<int>)

  /** What the constructor establishes and `render` relies on. */
  predicate Valid(graph: Graph) {
    && IsDag(graph.arena)
    && IsOrdering(graph.nodes, |graph.arena|)
    && NumberedByPosition(graph.nodes, graph.number)
  }

  /** The array is the queue order of the creation order, and numbering it again would keep it. */
  predicate KahnNumbered(graph: Graph, n: nat) {
    && Valid(graph) && |graph.arena| == n
    && graph.nodes == KahnOrder(graph.arena, Ids(n))
    && KahnOrder(graph.arena, graph.nodes) == graph.nodes
  }

  /**
   * `new Graph(n, crossConnectionCount)`: the tree and cross phases, then
   * `computeNumbering`. The numbering is a topological order whose first
   * positions hold the parentless nodes in creation order; it is exactly the
   * order `KahnOrder` describes, and numbering it again changes nothing.
   */
  method NewGraph(n: nat, crossConnectionCount: nat, parentDraws: seq<int>, crossDraws: seq<(int, int)>)
    returns (graph: Graph)
    requires |parentDraws| == n && |crossDraws| == crossConnectionCount
    requires forall k :: 0 <= k < |crossDraws| ==> SafeDraw(n, crossDraws[k].0, crossDraws[k].1)
    ensures graph.arena == Build(n, crossConnectionCount, parentDraws, crossDraws)
    ensures Valid(graph)
    ensures NumbersDistinct(graph.number) && Topological(graph.arena, graph.number)
    ensures RootsPrefix(graph.arena, Ids(n), graph.nodes)
    ensures RootsFront(graph.arena, graph.nodes, |Roots(graph.arena, Ids(n))|)
    ensures KahnNumbered(graph, n)
  {
    var arena := Build(n, crossConnectionCount, parentDraws, crossDraws);
    var order, number := ComputeNumbering(arena, Ids(n));
    RootsLeading(arena, Ids(n), order);
    RenumberingIsStable(arena, Ids(n), order);
    graph := Graph(arena, order, number);
  }

  /** Every node has a point strictly inside the square of side `size`. */
  predicate Inside(coords: seq<Option<Point>>, size: nat) {
    forall v :: 0 <= v < |coords| ==>
      (coords[v].Some? && 0.0 < coords[v].value.x < size as real && 0.0 < coords[v].value.y < size as real)
  }

  /** Every edge is drawn downwards: a parent sits on a higher row than its child. */
  predicate DrawnDownwards(g: seq<GraphNode>, coords: seq<Option<Point>>)
    requires |coords| == |g|
  {
    forall c, k :: 0 <= c < |g| && 0 <= k < |g[c].parents| ==>
      (g[c].parents[k] < c && coords[g[c].parents[k]].Some? && coords[c].Some?
       && coords[g[c].parents[k]].value.y < coords[c].value.y)
  }

  /** No two nodes share a point. */
  predicate Overlapless(coords: seq<Option<Point>>) {
    forall u, v :: 0 <= u < v < |coords| ==> coords[u] != coords[v]
  }

  /** The first level holds exactly the parentless nodes. */
  predicate RootsOnTop(g: seq<GraphNode>, levels: seq<seq<nat>>) {
    |g| > 0 ==>
      && |levels| > 0
      && (forall v :: v in levels[0] ==> v < |g| && IsRoot(g, v))
      && (forall v :: 0 <= v < |g| && IsRoot(g, v) ==> v in levels[0])
  }

  /** What `AssignCoordinates` leaves behind for a layering that lists every node once. */
  predicate Placed(g: seq<GraphNode>, levels: seq<seq<nat>>, coords: seq<Option<Point>>) {
    && IsOrdering(Flatten(levels), |g|)
    && |coords| == |g|
    && forall y, x :: 0 <= y < |levels| && 0 <= x < |levels[y]| ==>
      (levels[y][x] < |g| && coords[levels[y][x]] == Some(Center(x, y, Width(levels), |levels|)))
  }

  /**
   * `render`, up to the drawing calls: the levels of the node array and the
   * coordinate of every node. Each node gets a point strictly inside the
   * square of side `Max(width, height)`, at the column and row of its slot;
   * the first level holds exactly the parentless nodes, every later node
   * has a parent one level up, every edge points downwards and no two nodes
   * overlap.
   */
  method Render(graph: Graph) returns (levels: seq<seq<nat>>, coords: seq<Option<Point>>)
    requires Valid(graph)
    ensures LayerPre(graph.arena, graph.nodes, []) && levels == Levels(graph.arena, graph.nodes, [])
    ensures Placed(graph.arena, levels, coords)
    ensures Inside(coords, Max(Width(levels), |levels|))
    ensures RootsOnTop(graph.arena, levels)
    ensures forall y :: 0 < y < |levels| ==> Supported(graph.arena, levels[y], levels[y - 1])
    ensures DrawnDownwards(graph.arena, coords)
    ensures Overlapless(coords)
  {
    var g := graph.arena;
    LayeringPartitions(g, graph.nodes);
    levels := Layer(g, graph.nodes);
    SlotsInArena(g, levels);
    coords := AssignCoordinates(g, levels);
    ParentInPreviousLevel(g, graph.nodes, []);
    FirstLevelIsRoots(g, graph.nodes);
    CoordinatesInside(g, levels, coords);
    EdgesPointDown(g, graph.nodes, levels, coords);
    NoOverlap(g, levels, coords);
  }

  lemma SlotsInArena(g: seq<GraphNode>, levels: seq<seq<nat>>)
    requires IsOrdering(Flatten(levels), |g|)
    ensures forall y, x :: 0 <= y < |levels| && 0 <= x < |levels[y]| ==> levels[y][x] < |g|
  {
    forall y, x | 0 <= y < |levels| && 0 <= x < |levels[y]|
      ensures levels[y][x] < |g|
    {
      FlattenAt(levels, y, x);
    }
  }

  lemma FirstLevelIsRoots(g: seq<GraphNode>, nodes: seq<nat>)
    requires IsOrdering(nodes, |g|) && LayerPre(g, nodes, [])
    ensures RootsOnTop(g, Levels(g, nodes, []))
  {
    if |g| > 0 {
      FirstLevelRoots(g, nodes);
      OrderingCovers(nodes, |g|);
    }
  }

  /** Every node is drawn strictly inside the square. */
  lemma CoordinatesInside(g: seq<GraphNode>, levels: seq<seq<nat>>, coords: seq<Option<Point>>)
    requires Placed(g, levels, coords)
    ensures Inside(coords, Max(Width(levels), |levels|))
  {
    OrderingCovers(Flatten(levels), |g|);
    forall v | 0 <= v < |coords|
      ensures coords[v].Some?
      ensures 0.0 < coords[v].value.x < Max(Width(levels), |levels|) as real
      ensures 0.0 < coords[v].value.y < Max(Width(levels), |levels|) as real
    {
      var y, x := Locate(levels, v);
    }
  }

  lemma EdgesPointDown(g: seq<GraphNode>, nodes: seq<nat>, levels: seq<seq<nat>>, coords: seq<Option<Point>>)
    requires IsOrdering(nodes, |g|) && LayerPre(g, nodes, []) && levels == Levels(g, nodes, [])
    requires Placed(g, levels, coords)
    ensures DrawnDownwards(g, coords)
  {
    OrderingCovers(Flatten(levels), |g|);
    forall c, k | 0 <= c < |g| && 0 <= k < |g[c].parents|
      ensures g[c].parents[k] < c && coords[g[c].parents[k]].Some? && coords[c].Some?
      ensures coords[g[c].parents[k]].value.y < coords[c].value.y
    {
      var p := g[c].parents[k];
      var y2, x2 := Locate(levels, c);
      var y1, x1 := Locate(levels, p);
      assert levels[y2][x2] in levels[y2] && levels[y1][x1] in levels[y1];
      ParentLevelBelow(g, nodes, y1, y2, c, p);
    }
  }

  lemma NoOverlap(g: seq<GraphNode>, levels: seq<seq<nat>>, coords: seq<Option<Point>>)
    requires Placed(g, levels, coords)
    ensures Overlapless(coords)
  {
    OrderingCovers(Flatten(levels), |g|);
    var width, height := Width(levels), |levels|;
    forall u, v | 0 <= u < v < |coords|
      ensures coords[u] != coords[v]
    {
      var y1, x1 := Locate(levels, u);
      var y2, x2 := Locate(levels, v);
      SlotsDistinct(levels, y1, x1, y2, x2);
      CenterInjective(x1, y1, x2, y2, width, height);
    }
  }
}

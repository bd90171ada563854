/**
 * Graph nodes and their adjacency helpers (`GraphNode` in script.js).
 *
 * A node's identity is its creation index `id`; parents and children are
 * recorded as lists of ids, in insertion order, and a graph's nodes live in an
 * arena `seq<GraphNode>` indexed by id.
 */
module GraphNodes {
  import opened Orderings

  datatype Option<T> = None | Some(value: T)

  datatype GraphNode = GraphNode(id: nat, parents: seq<nat>, children: seq<nat>)

  /**
   * A fresh node: it has the given parent, if any, and no children
   * (`new GraphNode(id, parent)`, without the `addChild` on the parent).
   */
  function NewNode(id: nat, parent: Option<nat>): (node: GraphNode)
    ensures node.id == id && node.children == []
    ensures |node.parents| <= 1
    ensures forall p :: p in node.parents <==> parent == Some(p)
  {
    GraphNode(id, if parent.Some? then [parent.value] else [], [])
  }

  /** `node.hasChild(child)`: identity membership in the children list. */
  predicate HasChild(node: GraphNode, child: nat) {
    child in node.children
  }

  /** Appends `c` to the children of node `p` only (`addChild`). */
  function AddChild(g: seq<GraphNode>, p: nat, c: nat): (g': seq<GraphNode>)
    requires p < |g|
    ensures |g'| == |g|
    ensures g'[p].children == g[p].children + [c]
    ensures forall x :: HasChild(g'[p], x) <==> HasChild(g[p], x) || x == c
    ensures g'[p].id == g[p].id && g'[p].parents == g[p].parents
    ensures forall v :: 0 <= v < |g| && v != p ==> g'[v] == g[v]
  {
    g[p := g[p].(children := g[p].children + [c])]
  }

  /**
   * `p.crossConnect(c)`: `c` is appended to the children of `p` and `p` to the
   * parents of `c`.
   */
  function CrossConnect(g: seq<GraphNode>, p: nat, c: nat): (g': seq<GraphNode>)
    requires p < |g| && c < |g|
    ensures |g'| == |g|
    ensures g'[p].children == g[p].children + [c]
    ensures g'[c].parents == g[c].parents + [p]
    ensures HasChild(g'[p], c) && p in g'[c].parents
    ensures p != c ==> g'[p].parents == g[p].parents && g'[c].children == g[c].children
    ensures g'[p].id == g[p].id && g'[c].id == g[c].id
    ensures forall v :: 0 <= v < |g| && v != p && v != c ==> g'[v] == g[v]
  {
    var g1 := g[p := g[p].(children := g[p].children + [c])];
    g1[c := g1[c].(parents := g1[c].parents + [p])]
  }

  // Well-formedness of an arena. Together these say the adjacency is a DAG
  // whose edges all run from a lower id to a higher one.

  /** Every node sits at the index equal to its id. */
  predicate IdsMatch(g: seq<GraphNode>) {
    forall v :: 0 <= v < |g| ==> g[v].id == v
  }

  /** Every edge goes from a lower id to a higher id inside the arena. */
  predicate EdgesForward(g: seq<GraphNode>) {
    && (forall v, k :: 0 <= v < |g| && 0 <= k < |g[v].parents| ==> g[v].parents[k] < v)
    && (forall v, k :: 0 <= v < |g| && 0 <= k < |g[v].children| ==> v < g[v].children[k] < |g|)
  }

  /** No parent or child is recorded twice. */
  predicate NoDuplicateEdges(g: seq<GraphNode>) {
    forall v :: 0 <= v < |g| ==> Distinct(g[v].parents) && Distinct(g[v].children)
  }

  /** `p` is a parent of `c` exactly when `c` is a child of `p`. */
  predicate Symmetric(g: seq<GraphNode>) {
    forall p, c :: 0 <= p < |g| && 0 <= c < |g| ==> (p in g[c].parents <==> c in g[p].children)
  }

  predicate IsDag(g: seq<GraphNode>) {
    IdsMatch(g) && EdgesForward(g) && NoDuplicateEdges(g) && Symmetric(g)
  }

  /** `path` follows child edges from its first node to its last. */
  predicate IsPath(g: seq<GraphNode>, path: seq<nat>) {
    && |path| >= 1
    && (forall k :: 0 <= k < |path| ==> path[k] < |g|)
    && (forall k :: 0 <= k < |path| - 1 ==> path[k + 1] in g[path[k]].children)
  }

  /** Along any path of at least one edge the id strictly grows. */
  lemma {:induction false} PathAscends(g: seq<GraphNode>, path: seq<nat>)
    requires IsDag(g) && IsPath(g, path) && |path| >= 2
    ensures path[0] < path[|path| - 1]
  {
    var c := path[1];
    assert c in g[path[0]].children;
    var k :| 0 <= k < |g[path[0]].children| && g[path[0]].children[k] == c;
    if |path| > 2 {
      PathAscends(g, path[1..]);
    }
  }

  /** Hence the graph has no cycle: no node is its own ancestor. */
  lemma Acyclic(g: seq<GraphNode>, path: seq<nat>)
    requires IsDag(g) && IsPath(g, path) && |path| >= 2
    ensures path[0] != path[|path| - 1]
  {
    PathAscends(g, path);
  }

  /**
   * The constructor plus `this.nodes.push`: the new node gets id |g|, its
   * optional parent records it as a child, and the arena stays a DAG.
   */
  function AppendNode(g: seq<GraphNode>, parent: Option<nat>): (g': seq<GraphNode>)
    requires parent.Some? ==> parent.value < |g|
    ensures |g'| == |g| + 1
    ensures g'[|g|] == NewNode(|g|, parent)
    ensures forall v :: 0 <= v < |g| ==> g'[v].parents == g[v].parents
    ensures forall v :: 0 <= v < |g| && parent != Some(v) ==> g'[v].children == g[v].children
    ensures parent.Some? ==> g'[parent.value].children == g[parent.value].children + [|g|]
    ensures IsDag(g) ==> IsDag(g')
  {
    var i := |g|;
    var g1 := if parent.Some? then AddChild(g, parent.value, i) else g;
    var g' := g1 + [NewNode(i, parent)];
    if IsDag(g) then AppendNodeKeepsDag(g, parent, g'); g' else g'
  }

  lemma AppendNodeKeepsDag(g: seq<GraphNode>, parent: Option<nat>, g': seq<GraphNode>)
    requires IsDag(g)
    requires parent.Some? ==> parent.value < |g|
    requires |g'| == |g| + 1 && g'[|g|] == NewNode(|g|, parent)
    requires forall v :: 0 <= v < |g| ==> g'[v].id == g[v].id && g'[v].parents == g[v].parents
    requires forall v :: 0 <= v < |g| && parent != Some(v) ==> g'[v].children == g[v].children
    requires parent.Some? ==> g'[parent.value].children == g[parent.value].children + [|g|]
    ensures IsDag(g')
  {
    var i := |g|;
    assert forall v :: 0 <= v < |g| ==> i !in g[v].children;
    forall p, c | 0 <= p < |g'| && 0 <= c < |g'|
      ensures p in g'[c].parents <==> c in g'[p].children
    {
      if c == i {
        if p < i { assert p in g'[c].parents <==> parent == Some(p); }
      } else if p < i {
        assert p in g'[c].parents <==> c in g[p].children;
      }
    }
  }

  /**
   * A cross edge from `p` to a later node `c` that is not yet a child of `p`
   * keeps the arena a DAG.
   */
  lemma CrossConnectKeepsDag(g: seq<GraphNode>, p: nat, c: nat)
    requires IsDag(g) && p < c < |g| && !HasChild(g[p], c)
    ensures IsDag(CrossConnect(g, p, c))
  {
    var g' := CrossConnect(g, p, c);
    assert p !in g[c].parents;
    assert g'[p].children == g[p].children + [c];
    assert g'[c].parents == g[c].parents + [p];
    assert g'[p].parents == g[p].parents && g'[c].children == g[c].children;
    forall x, y | 0 <= x < |g'| && 0 <= y < |g'|
      ensures x in g'[y].parents <==> y in g'[x].children
    {
      assert x in g[y].parents <==> y in g[x].children;
    }
  }

  /**
   * Under the DAG invariant the source's second check
   * `node2.hasChild(node1)` never rejects a draw with `index1 < index2`.
   */
  lemma ReverseCheckRedundant(g: seq<GraphNode>, a: nat, b: nat)
    requires IsDag(g) && a < b < |g|
    ensures !HasChild(g[b], a)
  {
  }

  /** Node 0 with children 1 and 2: the arena the constructor builds for parent draws -1, 0, 0. */
  function ForkArena(): seq<GraphNode> {
    [GraphNode(0, [], [1, 2]), GraphNode(1, [0], []), GraphNode(2, [0], [])]
  }

  lemma ForkIsDag()
    ensures IsDag(ForkArena())
  {
    ForkEdges();
    ForkSymmetric();
  }

  lemma ForkEdges()
    ensures IdsMatch(ForkArena()) && EdgesForward(ForkArena()) && NoDuplicateEdges(ForkArena())
  {
    ForkForward();
  }

  lemma ForkForward()
    ensures EdgesForward(ForkArena())
  {
    var g := ForkArena();
    assert g[0].children == [1, 2] && g[1].parents == [0] && g[2].parents == [0];
  }

  lemma ForkSymmetric()
    ensures Symmetric(ForkArena())
  {
    var g := ForkArena();
    forall p, c | 0 <= p < |g| && 0 <= c < |g|
      ensures p in g[c].parents <==> c in g[p].children
    {
      assert p == 0 || p == 1 || p == 2;
    }
  }
}

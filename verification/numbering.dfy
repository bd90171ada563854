/**
 * `Graph.computeNumbering`: Kahn's algorithm done in place on the node array.
 * Parentless nodes are first swapped to the front; a left-to-right sweep then
 * counts, per child, how many of its parents have been visited, and swaps a
 * child to the next free front position once all of its parents have been
 * visited. Finally each node's number is its position.
 *
 * The node array is a `seq<nat>` of ids; the arena `g` holds the adjacency,
 * which numbering never changes.
 */
module Numbering {
  import opened Orderings
  import opened GraphNodes

  predicate IsRoot(g: seq<GraphNode>, v: nat)
    requires v < |g|
  {
    |g[v].parents| == 0
  }

  /** The parentless nodes of `s`, in their order in `s`. */
  function Roots(g: seq<GraphNode>, s: seq<nat>): seq<nat>
    requires forall k :: 0 <= k < |s| ==> s[k] < |g|
  {
    if |s| == 0 then []
    else Roots(g, s[..|s| - 1]) + (if IsRoot(g, s[|s| - 1]) then [s[|s| - 1]] else [])
  }

  /** `Roots` keeps exactly the parentless entries of `s`. */
  lemma {:induction false} RootsMembers(g: seq<GraphNode>, s: seq<nat>, v: nat)
    requires forall k :: 0 <= k < |s| ==> s[k] < |g|
    ensures v in Roots(g, s) <==> v in s && v < |g| && IsRoot(g, v)
  {
    if |s| > 0 {
      var init := s[..|s| - 1];
      RootsMembers(g, init, v);
      assert s == init + [s[|s| - 1]];
    }
  }

  /** How many entries of `ps` lie in `s`. */
  function CountIn(ps: seq<nat>, s: set<nat>): nat
  {
    if |ps| == 0 then 0
    else CountIn(ps[..|ps| - 1], s) + (if ps[|ps| - 1] in s then 1 else 0)
  }

  /** The count reaches the length exactly when every entry lies in `s`. */
  lemma {:induction false} CountInFull(ps: seq<nat>, s: set<nat>)
    ensures CountIn(ps, s) <= |ps|
    ensures CountIn(ps, s) == |ps| <==> forall p :: p in ps ==> p in s
  {
    if |ps| > 0 {
      var init := ps[..|ps| - 1];
      CountInFull(init, s);
      assert forall p :: p in ps <==> p in init || p == ps[|ps| - 1];
    }
  }

  lemma {:induction false} CountInEmpty(ps: seq<nat>)
    ensures CountIn(ps, {}) == 0
  {
    if |ps| > 0 {
      CountInEmpty(ps[..|ps| - 1]);
    }
  }

  lemma RootsSnoc(g: seq<GraphNode>, s: seq<nat>, i: nat)
    requires i < |s| && forall k :: 0 <= k < |s| ==> s[k] < |g|
    ensures Roots(g, s[..i + 1]) == Roots(g, s[..i]) + (if IsRoot(g, s[i]) then [s[i]] else [])
  {
    assert s[..i + 1][..i] == s[..i];
  }

  /** Adding a new element to `s` raises the count of a duplicate-free list by one if it occurs. */
  lemma {:induction false} CountInAdd(ps: seq<nat>, s: set<nat>, u: nat)
    requires Distinct(ps) && u !in s
    ensures CountIn(ps, s + {u}) == CountIn(ps, s) + (if u in ps then 1 else 0)
  {
    if |ps| > 0 {
      var init := ps[..|ps| - 1];
      assert Distinct(init);
      CountInAdd(init, s, u);
      assert u in ps <==> u in init || u == ps[|ps| - 1];
      if u == ps[|ps| - 1] {
        assert u !in init;
      }
    }
  }

  /**
   * In a DAG the sweep cannot get stuck: below any node outside `placed` there
   * is a node outside `placed` all of whose parents are in `placed` (follow
   * unplaced parents downwards in id until there are none).
   */
  lemma {:induction false} ReadyNode(g: seq<GraphNode>, placed: set<nat>, w: nat) returns (v: nat)
    requires IsDag(g) && w < |g| && w !in placed
    ensures v < |g| && v !in placed
    ensures forall p :: p in g[v].parents ==> p in placed
    decreases w
  {
    if p :| p in g[w].parents && p !in placed {
      var k :| 0 <= k < |g[w].parents| && g[w].parents[k] == p;
      v := ReadyNode(g, placed, p);
    } else {
      v := w;
    }
  }

  /** Every parent of `c` lies in `s`. */
  predicate ParentsIn(g: seq<GraphNode>, c: nat, s: set<nat>) {
    c < |g| && forall p :: p in g[c].parents ==> p in s
  }

  /**
   * The entries of `cs` all of whose parents lie in `visited + {u}`, in their
   * order in `cs`: the children of u that visiting u completes.
   */
  function Released(g: seq<GraphNode>, visited: set<nat>, u: nat, cs: seq<nat>): (r: seq<nat>)
    ensures forall x :: x in r <==> x in cs && ParentsIn(g, x, visited + {u})
  {
    if |cs| == 0 then []
    else
      var c := cs[|cs| - 1];
      Released(g, visited, u, cs[..|cs| - 1]) + (if ParentsIn(g, c, visited + {u}) then [c] else [])
  }

  lemma ReleasedSnoc(g: seq<GraphNode>, visited: set<nat>, u: nat, cs: seq<nat>, t: nat)
    requires t < |cs|
    ensures Released(g, visited, u, cs[..t + 1])
         == Released(g, visited, u, cs[..t]) + (if ParentsIn(g, cs[t], visited + {u}) then [cs[t]] else [])
  {
    assert cs[..t + 1][..t] == cs[..t];
  }

  /**
   * The sweep read as a queue: the nodes before position i have been visited;
   * visiting `queue[i]` appends the children it completes, in children-list
   * order. Like the source's loop, this stops after |g| positions.
   */
  function KahnFrom(g: seq<GraphNode>, queue: seq<nat>, i: nat): seq<nat>
    requires IsDag(g) && forall k :: 0 <= k < |queue| ==> queue[k] < |g|
    decreases |g| - i
  {
    if i >= |g| || i >= |queue| then queue
    else
      var u := queue[i];
      var next := Released(g, Elements(queue[..i]), u, g[u].children);
      assert forall k :: 0 <= k < |next| ==> next[k] in next;
      KahnFrom(g, queue + next, i + 1)
  }

  lemma RootsInArena(g: seq<GraphNode>, s: seq<nat>)
    requires forall k :: 0 <= k < |s| ==> s[k] < |g|
    ensures forall k :: 0 <= k < |Roots(g, s)| ==> Roots(g, s)[k] < |g|
  {
    forall k | 0 <= k < |Roots(g, s)|
      ensures Roots(g, s)[k] < |g|
    {
      RootsMembers(g, s, Roots(g, s)[k]);
    }
  }

  /**
   * The order `computeNumbering` leaves in the node array: the parentless
   * nodes of `nodes` in their order there, then the sweep's queue.
   */
  function KahnOrder(g: seq<GraphNode>, nodes: seq<nat>): seq<nat>
    requires IsDag(g) && forall k :: 0 <= k < |nodes| ==> nodes[k] < |g|
  {
    RootsInArena(g, nodes);
    KahnFrom(g, Roots(g, nodes), 0)
  }

  /** The parentless nodes of `order` are exactly those before position `j`. */
  predicate RootsFront(g: seq<GraphNode>, order: seq<nat>, j: nat)
    requires forall k :: 0 <= k < |order| ==> order[k] < |g|
  {
    && j <= |order|
    && forall k :: 0 <= k < |order| ==> (k < j <==> IsRoot(g, order[k]))
  }

  /** The first loop of `computeNumbering`: parentless nodes to the front. */
  method RootsFirst(g: seq<GraphNode>, nodes: seq<nat>) returns (order: seq<nat>, j: nat)
    requires IsOrdering(nodes, |g|)
    ensures IsOrdering(order, |g|) && multiset(order) == multiset(nodes)
    ensures RootsFront(g, order, j) && order[..j] == Roots(g, nodes)
  {
    var n := |nodes|;
    order := nodes;
    j := 0;
    for i := 0 to n
      invariant j <= i
      invariant IsOrdering(order, n)
      invariant order[..j] == Roots(g, nodes[..i])
      invariant forall k :: 0 <= k < j ==> IsRoot(g, order[k])
      invariant forall k :: j <= k < i ==> !IsRoot(g, order[k])
      invariant forall k :: i <= k < n ==> order[k] == nodes[k]
    {
      RootsSnoc(g, nodes, i);
      if IsRoot(g, order[i]) {
        var prev := order;
        order := Swap(order, i, j);
        assert order[..j + 1] == prev[..j] + [prev[i]];
        j := j + 1;
      }
    }
    assert nodes[..n] == nodes;
    OrderingsArePermutations(order, nodes, n);
  }

  // The sweep's bookkeeping. `visits[v]` is the JavaScript `visits[v.id]`;
  // the ghost `pos` records where each node currently sits in `order`.

  /** `visits[v]` counts the parents of v in `visited`, plus one when v occurs in `extra`. */
  ghost predicate Counted(g: seq<GraphNode>, visits: seq<nat>, visited: set<nat>, extra: seq<nat>) {
    && |visits| == |g|
    && forall v :: 0 <= v < |g| ==>
         visits[v] == CountIn(g[v].parents, visited) + (if v in extra then 1 else 0)
  }

  /** The nodes placed before position `j` are exactly those whose every parent has been counted. */
  ghost predicate PlacedExactly(g: seq<GraphNode>, pos: seq<nat>, visits: seq<nat>, j: nat) {
    && |visits| == |g| && |pos| == |g|
    && forall v :: 0 <= v < |g| ==> (pos[v] < j <==> visits[v] == |g[v].parents|)
  }

  /** Every node placed before position `j` comes after all of its parents. */
  ghost predicate PlacedInOrder(g: seq<GraphNode>, pos: seq<nat>, j: nat) {
    && |pos| == |g|
    && forall v :: 0 <= v < |g| && pos[v] < j ==>
         forall p :: p in g[v].parents ==> p < |g| && pos[p] < pos[v]
  }

  /** What the sweep needs to know about the edge from u to its child at position t. */
  predicate ChildEdge(g: seq<GraphNode>, u: nat, t: nat)
    requires u < |g| && t < |g[u].children|
  {
    var c := g[u].children[t];
    && c < |g|
    && u in g[c].parents
    && Distinct(g[c].parents)
    && c !in g[u].children[..t]
    && forall p :: p in g[c].parents ==> p < |g|
  }

  lemma DagChildEdge(g: seq<GraphNode>, u: nat, t: nat)
    requires IsDag(g) && u < |g| && t < |g[u].children|
    ensures ChildEdge(g, u, t)
  {
    var c := g[u].children[t];
    assert c in g[u].children;
    forall p | p in g[c].parents
      ensures p < |g|
    {
      var k :| 0 <= k < |g[c].parents| && g[c].parents[k] == p;
    }
  }

  /** Counting the edge `u -> c` for the child at position t of u's children. */
  lemma CountStep(g: seq<GraphNode>, visits: seq<nat>, visited: set<nat>, u: nat, t: nat)
    requires u < |g| && u !in visited && t < |g[u].children| && ChildEdge(g, u, t)
    requires Counted(g, visits, visited, g[u].children[..t])
    ensures var c := g[u].children[t];
      && Counted(g, visits[c := visits[c] + 1], visited, g[u].children[..t + 1])
      && visits[c] < |g[c].parents|
      && (visits[c] + 1 == |g[c].parents| <==> ParentsIn(g, c, visited + {u}))
  {
    var children := g[u].children;
    var c := children[t];
    assert children[..t + 1] == children[..t] + [c];
    CountInAdd(g[c].parents, visited, u);
    CountInFull(g[c].parents, visited + {u});
  }

  /** After the last child of u, the counts are those of `visited + {u}`. */
  lemma CountDone(g: seq<GraphNode>, visits: seq<nat>, visited: set<nat>, u: nat)
    requires IsDag(g) && u < |g| && u !in visited
    requires Counted(g, visits, visited, g[u].children[..|g[u].children|])
    ensures Counted(g, visits, visited + {u}, [])
  {
    assert g[u].children[..|g[u].children|] == g[u].children;
    forall v | 0 <= v < |g|
      ensures visits[v] == CountIn(g[v].parents, visited + {u})
    {
      CountInAdd(g[v].parents, visited, u);
    }
  }

  /** Moving the completed child `c` to position `j` extends the placed front by one. */
  lemma PlacedExactlyStep(g: seq<GraphNode>, pos: seq<nat>, pos': seq<nat>, visits: seq<nat>, j: nat, c: nat)
    requires PlacedExactly(g, pos, visits, j) && |pos'| == |g| && c < |g|
    requires pos[c] >= j && pos'[c] == j
    requires forall v :: 0 <= v < |g| && pos[v] < j ==> pos'[v] == pos[v]
    requires forall v :: 0 <= v < |g| && pos[v] >= j && v != c ==> pos'[v] > j
    ensures PlacedExactly(g, pos', visits[c := |g[c].parents|], j + 1)
  {
  }

  /** ... and keeps every placed node after its parents, since all of c's parents were placed already. */
  lemma PlacedInOrderStep(g: seq<GraphNode>, pos: seq<nat>, pos': seq<nat>, j: nat, c: nat)
    requires PlacedInOrder(g, pos, j) && |pos'| == |g| && c < |g|
    requires pos[c] >= j && pos'[c] == j
    requires forall p :: p in g[c].parents ==> p < |g| && pos[p] < j
    requires forall v :: 0 <= v < |g| && pos[v] < j ==> pos'[v] == pos[v]
    requires forall v :: 0 <= v < |g| && pos[v] >= j && v != c ==> pos'[v] > j
    ensures PlacedInOrder(g, pos', j + 1)
  {
    forall v, p | 0 <= v < |g| && pos'[v] < j + 1 && p in g[v].parents
      ensures p < |g| && pos'[p] < pos'[v]
    {
      if v != c {
        assert pos[v] < j;
        assert pos[p] < pos[v];
      }
    }
  }

  /**
   * Placing child `c` (its count just completed, all its parents sit before
   * position i + 1 <= j) by swapping it from position `k == pos[c] >= j` to `j`.
   */
  lemma PlaceChild(g: seq<GraphNode>, order: seq<nat>, pos: seq<nat>, visits: seq<nat>, j: nat, c: nat, i: nat,
                   k: nat, order': seq<nat>, pos': seq<nat>)
    requires Inverse(order, pos) && |order| == |g| && c < |g| && i < j < |g|
    requires PlacedExactly(g, pos, visits, j) && PlacedInOrder(g, pos, j)
    requires visits[c] < |g[c].parents| && k == pos[c] && k >= j
    requires forall p :: p in g[c].parents ==> p < |g| && pos[p] <= i
    requires order' == Swap(order, k, j) && pos' == SwapPositions(order, pos, k, j)
    ensures Inverse(order', pos') && |order'| == |g|
    ensures KeepsFront(order, pos, j, order', pos')
    ensures PlacedExactly(g, pos', visits[c := |g[c].parents|], j + 1)
    ensures PlacedInOrder(g, pos', j + 1)
  {
    SwapForward(order, pos, c, k, j);
    PlacedExactlyStep(g, pos, pos', visits, j, c);
    PlacedInOrderStep(g, pos, pos', j, c);
  }

  /** Counting an edge that does not complete its child's parents places nothing. */
  lemma CountOnly(g: seq<GraphNode>, pos: seq<nat>, visits: seq<nat>, j: nat, c: nat)
    requires PlacedExactly(g, pos, visits, j) && c < |g| && visits[c] + 1 < |g[c].parents|
    ensures PlacedExactly(g, pos, visits[c := visits[c] + 1], j)
  {
  }

  /**
   * Going from (order0, pos0) to (order, pos), the nodes placed before `j0`
   * keep their positions and entries, and no other node moves before `j0`.
   */
  ghost predicate KeepsFront(order0: seq<nat>, pos0: seq<nat>, j0: nat, order: seq<nat>, pos: seq<nat>) {
    && |pos| == |pos0| && j0 <= |order0| && j0 <= |order|
    && (forall v :: 0 <= v < |pos0| && pos0[v] < j0 ==> pos[v] == pos0[v])
    && (forall v :: 0 <= v < |pos0| && pos0[v] >= j0 ==> pos[v] >= j0)
    && (forall k :: 0 <= k < j0 ==> order[k] == order0[k])
  }

  lemma KeepsFrontTrans(order0: seq<nat>, pos0: seq<nat>, j0: nat, order1: seq<nat>, pos1: seq<nat>, j1: nat,
                        order2: seq<nat>, pos2: seq<nat>)
    requires KeepsFront(order0, pos0, j0, order1, pos1) && KeepsFront(order1, pos1, j1, order2, pos2) && j0 <= j1
    ensures KeepsFront(order0, pos0, j0, order2, pos2)
  {
  }

  /** The placed front `order[..j]` is `front` followed by `added`. */
  predicate Queued(order: seq<nat>, j: nat, front: seq<nat>, added: seq<nat>) {
    j <= |order| && order[..j] == front + added
  }

  /** Extending the placed front by `more` extends what was added by `more`. */
  lemma QueueStep(order: seq<nat>, j: nat, order': seq<nat>, j': nat, front: seq<nat>, added: seq<nat>, more: seq<nat>)
    requires Queued(order, j, front, added) && j' <= |order'| && order'[..j'] == order[..j] + more
    ensures Queued(order', j', front, added + more)
  {
    Associative(front, added, more);
  }

  /** Swapping the entry at `k >= j` to position `j` appends it to the placed front. */
  lemma SwapQueues(order: seq<nat>, k: nat, j: nat, front: seq<nat>, added: seq<nat>)
    requires Queued(order, j, front, added) && j <= k < |order|
    ensures Queued(Swap(order, k, j), j + 1, front, added + [order[k]])
  {
    SwapExtendsPrefix(order, k, j);
    QueueStep(order, j, Swap(order, k, j), j + 1, front, added, [order[k]]);
  }

  /**
   * Placing a child whose parents have all been visited: find it in the array
   * and swap it to the next free front position `j`.
   */
  method PlaceNext(g: seq<GraphNode>, order0: seq<nat>, ghost pos0: seq<nat>, ghost visits0: seq<nat>, j0: nat,
                   c: nat, ghost i: nat, ghost front: seq<nat>, ghost added: seq<nat>)
    returns (order: seq<nat>, ghost pos: seq<nat>, j: nat)
    requires Inverse(order0, pos0) && |order0| == |g| && c < |g| && i < j0 < |g|
    requires PlacedExactly(g, pos0, visits0, j0) && PlacedInOrder(g, pos0, j0)
    requires visits0[c] < |g[c].parents| && pos0[c] >= j0
    requires forall p :: p in g[c].parents ==> p < |g| && pos0[p] <= i
    requires Queued(order0, j0, front, added)
    ensures Inverse(order, pos) && |order| == |g| && j == j0 + 1
    ensures KeepsFront(order0, pos0, j0, order, pos)
    ensures PlacedExactly(g, pos, visits0[c := |g[c].parents|], j) && PlacedInOrder(g, pos, j)
    ensures Queued(order, j, front, added + [c])
  {
    FindIndexIsPosition(order0, pos0, c);
    var k: nat := FindIndex(order0, c);
    order := Swap(order0, k, j0);
    pos := SwapPositions(order0, pos0, k, j0);
    PlaceChild(g, order0, pos0, visits0, j0, c, i, k, order, pos);
    SwapQueues(order0, k, j0, front, added);
    j := j0 + 1;
  }

  /**
   * One pass of the inner loop body: count the edge `u -> c` for the child at
   * position t of u's children; when that completes c's parents, find c and
   * swap it to position `j`.
   */
  method VisitChild(g: seq<GraphNode>, u: nat, t: nat, order0: seq<nat>, ghost pos0: seq<nat>, visits0: seq<nat>, j0: nat,
                    ghost i: nat, ghost visited: set<nat>, ghost front: seq<nat>, ghost added: seq<nat>)
    returns (order: seq<nat>, ghost pos: seq<nat>, visits: seq<nat>, j: nat)
    requires u < |g| && t < |g[u].children| && ChildEdge(g, u, t)
    requires Queued(order0, j0, front, added)
    requires Inverse(order0, pos0) && |order0| == |g| && i < j0 <= |g| && pos0[u] == i
    requires forall v :: 0 <= v < |g| ==> (v in visited <==> pos0[v] < i)
    requires Counted(g, visits0, visited, g[u].children[..t])
    requires PlacedExactly(g, pos0, visits0, j0) && PlacedInOrder(g, pos0, j0)
    ensures Inverse(order, pos) && |order| == |g| && j0 <= j <= |g|
    ensures KeepsFront(order0, pos0, j0, order, pos)
    ensures Counted(g, visits, visited, g[u].children[..t + 1])
    ensures PlacedExactly(g, pos, visits, j) && PlacedInOrder(g, pos, j)
    ensures var c := g[u].children[t];
      Queued(order, j, front, added + if ParentsIn(g, c, visited + {u}) then [c] else [])
  {
    var c := g[u].children[t];
    assert u !in visited;
    CountStep(g, visits0, visited, u, t);
    visits := visits0[c := visits0[c] + 1];
    if visits[c] == |g[c].parents| {
      order, pos, j := PlaceNext(g, order0, pos0, visits0, j0, c, i, front, added);
    } else {
      CountOnly(g, pos0, visits0, j0, c);
      order, pos, j := order0, pos0, j0;
      assert added + [] == added;
    }
  }

  /** The inner loop of the sweep: visit the children of the node at position `i`. */
  method VisitChildren(g: seq<GraphNode>, order0: seq<nat>, ghost pos0: seq<nat>, visits0: seq<nat>, j0: nat,
                       i: nat, ghost visited: set<nat>)
    returns (order: seq<nat>, ghost pos: seq<nat>, visits: seq<nat>, j: nat)
    requires IsDag(g) && Inverse(order0, pos0) && |order0| == |g| && i < j0 <= |g|
    requires forall v :: 0 <= v < |g| ==> (v in visited <==> pos0[v] < i)
    requires Counted(g, visits0, visited, [])
    requires PlacedExactly(g, pos0, visits0, j0) && PlacedInOrder(g, pos0, j0)
    ensures Inverse(order, pos) && |order| == |g| && j0 <= j <= |g|
    ensures KeepsFront(order0, pos0, j0, order, pos)
    ensures Counted(g, visits, visited + {order0[i]}, [])
    ensures PlacedExactly(g, pos, visits, j) && PlacedInOrder(g, pos, j)
    ensures Queued(order, j, order0[..j0], Released(g, visited, order0[i], g[order0[i]].children))
  {
    var n := |g|;
    var u := order0[i];
    assert pos0[u] == i;
    var children := g[u].children;
    order, pos, visits, j := order0, pos0, visits0, j0;
    assert children[..0] == [];
    for t := 0 to |children|
      invariant Inverse(order, pos) && |order| == n && j0 <= j <= n
      invariant KeepsFront(order0, pos0, j0, order, pos)
      invariant Counted(g, visits, visited, children[..t])
      invariant PlacedExactly(g, pos, visits, j) && PlacedInOrder(g, pos, j)
      invariant Queued(order, j, order0[..j0], Released(g, visited, u, children[..t]))
    {
      DagChildEdge(g, u, t);
      ghost var prev, prevPos, prevJ := order, pos, j;
      order, pos, visits, j := VisitChild(g, u, t, order, pos, visits, j, i, visited,
                                          order0[..j0], Released(g, visited, u, children[..t]));
      ReleasedSnoc(g, visited, u, children, t);
      KeepsFrontTrans(order0, pos0, j0, prev, prevPos, prevJ, order, pos);
    }
    assert children[..|children|] == children;
    assert u !in visited;
    CountDone(g, visits, visited, u);
  }

  /** Before the sweep nothing is visited, and the parentless nodes, at the front, are placed. */
  lemma SweepStart(g: seq<GraphNode>, order: seq<nat>, pos: seq<nat>, visits: seq<nat>, j: nat)
    requires Inverse(order, pos) && |order| == |g| && RootsFront(g, order, j)
    requires |visits| == |g| && forall v :: 0 <= v < |g| ==> visits[v] == 0
    ensures Counted(g, visits, {}, []) && PlacedExactly(g, pos, visits, j) && PlacedInOrder(g, pos, j)
  {
    forall v | 0 <= v < |g|
      ensures pos[v] < j <==> visits[v] == |g[v].parents|
      ensures visits[v] == CountIn(g[v].parents, {})
    {
      CountInEmpty(g[v].parents);
      assert order[pos[v]] == v;
    }
    forall v | 0 <= v < |g| && pos[v] < j
      ensures g[v].parents == []
    {
      assert order[pos[v]] == v;
    }
  }

  /**
   * If the sweep reached position `i` with nothing placed beyond it, every node
   * would be placed already; so while work remains, `i < j`.
   */
  lemma SweepAhead(g: seq<GraphNode>, order: seq<nat>, pos: seq<nat>, visits: seq<nat>, visited: set<nat>, i: nat, j: nat)
    requires IsDag(g) && Inverse(order, pos) && |order| == |g| && i <= j && i < |g|
    requires forall v :: 0 <= v < |g| ==> (v in visited <==> pos[v] < i)
    requires Counted(g, visits, visited, []) && PlacedExactly(g, pos, visits, j)
    ensures i < j
  {
    var w := order[i];
    assert pos[w] == i;
    var v := ReadyNode(g, visited, w);
    CountInFull(g[v].parents, visited);
    assert i <= pos[v] < j;
  }

  /** Once the node at position i has been visited, the visited nodes are those before i + 1. */
  lemma VisitedStep(order0: seq<nat>, pos0: seq<nat>, pos: seq<nat>, visited: set<nat>, u: nat, i: nat, j: nat, n: nat)
    requires Inverse(order0, pos0) && |pos| == n && |order0| == n && u < n && pos0[u] == i < j
    requires forall v :: 0 <= v < n ==> (v in visited <==> pos0[v] < i)
    requires forall v :: 0 <= v < n && pos0[v] < j ==> pos[v] == pos0[v]
    requires forall v :: 0 <= v < n && pos0[v] >= j ==> pos[v] >= j
    ensures forall v :: 0 <= v < n ==> (v in visited + {u} <==> pos[v] < i + 1)
  {
    forall v | 0 <= v < n && pos0[v] == i
      ensures v == u
    {
      assert order0[pos0[v]] == v;
    }
  }

  /**
   * The second loop of `computeNumbering`: the in-place Kahn sweep. The ghost
   * `pos` gives each node's final position; every node ends up after all of
   * its parents, and the front part holding the parentless nodes is untouched.
   */
  method Sweep(g: seq<GraphNode>, nodes: seq<nat>, j0: nat) returns (order: seq<nat>, ghost pos: seq<nat>)
    requires IsDag(g) && IsOrdering(nodes, |g|) && RootsFront(g, nodes, j0)
    ensures Inverse(order, pos) && |order| == |g|
    ensures forall k :: 0 <= k < j0 ==> order[k] == nodes[k]
    ensures PlacedInOrder(g, pos, |g|)
    ensures order == KahnFrom(g, nodes[..j0], 0)
  {
    var n := |g|;
    order := nodes;
    pos := Positions(nodes);
    var j := j0;
    var visits: seq<nat> := seq(n, _ => 0);
    ghost var visited: set<nat> := {};
    SweepStart(g, order, pos, visits, j);
    assert order[..0] == [];
    for i := 0 to n
      invariant i <= j <= n
      invariant Inverse(order, pos) && |order| == n
      invariant forall k :: 0 <= k < j0 ==> order[k] == nodes[k]
      invariant forall v :: 0 <= v < n ==> (v in visited <==> pos[v] < i)
      invariant Counted(g, visits, visited, [])
      invariant PlacedExactly(g, pos, visits, j) && PlacedInOrder(g, pos, j)
      invariant visited == Elements(order[..i])
      invariant KahnFrom(g, order[..j], i) == KahnFrom(g, nodes[..j0], 0)
    {
      SweepAhead(g, order, pos, visits, visited, i, j);
      var u := order[i];
      ghost var order0, pos0, j0' := order, pos, j;
      order, pos, visits, j := VisitChildren(g, order, pos, visits, j, i, visited);
      VisitedStep(order0, pos0, pos, visited, u, i, j0', n);
      KahnStep(g, order0, pos0, j0', i, order, pos, j, visited);
      visited := visited + {u};
    }
    assert order[..n] == order;
  }

  /**
   * One outer iteration of the sweep is one step of `KahnFrom`: the front
   * gains exactly the children the node at position i releases, and the
   * visited nodes become those before position i + 1.
   */
  lemma KahnStep(g: seq<GraphNode>, order: seq<nat>, pos: seq<nat>, j: nat, i: nat,
                 order': seq<nat>, pos': seq<nat>, j': nat, visited: set<nat>)
    requires IsDag(g) && Inverse(order, pos) && Inverse(order', pos') && |order| == |g| && i < j <= |g|
    requires visited == Elements(order[..i])
    requires KeepsFront(order, pos, j, order', pos')
    requires Queued(order', j', order[..j], Released(g, visited, order[i], g[order[i]].children))
    ensures visited + {order[i]} == Elements(order'[..i + 1])
    ensures KahnFrom(g, order'[..j'], i + 1) == KahnFrom(g, order[..j], i)
  {
    assert order'[..i + 1] == order[..i] + [order[i]];
    assert order[..j][..i] == order[..i];
  }

  /** The first |Roots(g, nodes)| entries of `order` are the parentless nodes of `nodes`, in their order there. */
  predicate RootsPrefix(g: seq<GraphNode>, nodes: seq<nat>, order: seq<nat>)
    requires forall k :: 0 <= k < |nodes| ==> nodes[k] < |g|
  {
    |Roots(g, nodes)| <= |order| && order[..|Roots(g, nodes)|] == Roots(g, nodes)
  }

  /** Each node's number is its position in `order`. */
  predicate NumberedByPosition(order: seq<nat>, number: seq<int>) {
    && |number| == |order|
    && forall i :: 0 <= i < |order| ==> order[i] < |number| && number[order[i]] == i
  }

  /** The numbers are exactly 0..n-1, none used twice. */
  predicate NumbersDistinct(number: seq<int>) {
    && (forall v :: 0 <= v < |number| ==> 0 <= number[v] < |number|)
    && (forall u, v :: 0 <= u < |number| && 0 <= v < |number| && u != v ==> number[u] != number[v])
  }

  /** Every edge runs from a smaller number to a larger one. */
  predicate Topological(g: seq<GraphNode>, number: seq<int>)
    requires |number| == |g|
  {
    forall c, p :: 0 <= c < |g| && p in g[c].parents ==> p < |g| && number[p] < number[c]
  }

  /**
   * `computeNumbering`. The final order is a permutation of the input order
   * that starts with the input's parentless nodes in their original order;
   * numbers are positions, so they are exactly 0..n-1, and every edge goes
   * from a smaller number to a larger one.
   */
  method ComputeNumbering(g: seq<GraphNode>, nodes: seq<nat>) returns (order: seq<nat>, number: seq<int>)
    requires IsDag(g) && IsOrdering(nodes, |g|)
    ensures IsOrdering(order, |g|) && multiset(order) == multiset(nodes)
    ensures RootsPrefix(g, nodes, order)
    ensures NumberedByPosition(order, number)
    ensures |number| == |g| && NumbersDistinct(number) && Topological(g, number)
    ensures order == KahnOrder(g, nodes)
  {
    var n := |g|;
    var j;
    order, j := RootsFirst(g, nodes);
    ghost var front := order;
    ghost var pos;
    order, pos := Sweep(g, order, j);
    assert order[..j] == front[..j];
    assert order == KahnFrom(g, Roots(g, nodes), 0);
    InverseIsOrdering(order, pos);
    OrderingsArePermutations(order, nodes, n);
    number := NumberNodes(order);
    NumbersArePositions(g, order, pos, number);
  }

  /** The last loop of `computeNumbering`: each node's number is its position. */
  method NumberNodes(order: seq<nat>) returns (number: seq<int>)
    requires IsOrdering(order, |order|)
    ensures NumberedByPosition(order, number)
  {
    var n := |order|;
    number := seq(n, _ => -1);
    for i := 0 to n
      invariant |number| == n
      invariant forall a :: 0 <= a < i ==> number[order[a]] == a
    {
      number := number[order[i] := i];
    }
  }

  /**
   * Numbering by position after the sweep: the numbers are 0..n-1 without
   * repeats, and every parent's number is below its child's.
   */
  lemma NumbersArePositions(g: seq<GraphNode>, order: seq<nat>, pos: seq<nat>, number: seq<int>)
    requires Inverse(order, pos) && |order| == |g| && PlacedInOrder(g, pos, |g|)
    requires NumberedByPosition(order, number)
    ensures |number| == |g| && NumbersDistinct(number) && Topological(g, number)
  {
    forall v | 0 <= v < |g|
      ensures number[v] == pos[v]
    {
      assert order[pos[v]] == v;
    }
  }

  /**
   * After `computeNumbering` the parentless nodes occupy exactly the first
   * positions of the node array: position k holds a root iff k lies in the
   * roots-first prefix.
   */
  lemma RootsLeading(g: seq<GraphNode>, nodes: seq<nat>, order: seq<nat>)
    requires IsOrdering(nodes, |g|) && IsOrdering(order, |g|)
    requires RootsPrefix(g, nodes, order)
    ensures RootsFront(g, order, |Roots(g, nodes)|)
  {
    var roots := Roots(g, nodes);
    OrderingCovers(nodes, |g|);
    forall k | 0 <= k < |g|
      ensures IsRoot(g, order[k]) <==> k < |roots|
    {
      RootsMembers(g, nodes, order[k]);
      if k < |roots| {
        assert order[k] == roots[k];
      }
      if IsRoot(g, order[k]) {
        assert order[k] in roots;
        var i :| 0 <= i < |roots| && roots[i] == order[k];
        assert order[i] == order[k];
      }
    }
  }

  /** The parentless nodes of an array in which exactly the first r positions hold roots are those r entries. */
  lemma {:induction false} RootsOfFront(g: seq<GraphNode>, order: seq<nat>, r: nat, m: nat)
    requires forall k :: 0 <= k < |order| ==> order[k] < |g|
    requires RootsFront(g, order, r) && m <= |order|
    ensures Roots(g, order[..m]) == order[..if m < r then m else r]
    decreases m
  {
    if m > 0 {
      RootsOfFront(g, order, r, m - 1);
      RootsSnoc(g, order, m - 1);
      if m <= r {
        assert order[..m] == order[..m - 1] + [order[m - 1]];
      }
    }
  }

  /**
   * Numbering an array that `computeNumbering` has already ordered leaves it
   * unchanged: its parentless nodes, read off the front, are the same list,
   * so the sweep replays identically.
   */
  lemma RenumberingIsStable(g: seq<GraphNode>, nodes: seq<nat>, order: seq<nat>)
    requires IsDag(g) && IsOrdering(nodes, |g|) && IsOrdering(order, |g|)
    requires RootsPrefix(g, nodes, order) && order == KahnOrder(g, nodes)
    ensures Roots(g, order) == Roots(g, nodes)
    ensures KahnOrder(g, order) == order
  {
    RootsLeading(g, nodes, order);
    RootsOfFront(g, order, |Roots(g, nodes)|, |order|);
    assert order[..|order|] == order;
  }

  lemma ForkRoots()
    ensures Roots(ForkArena(), [0, 1, 2]) == [0]
  {
    var g := ForkArena();
    var s: seq<nat> := [0, 1, 2];
    assert s[..1] == [0] && s[..2] == [0, 1] && s[..2][..1] == [0] && s[..1][..0] == [];
    assert 0 in g[1].parents && 0 in g[2].parents;
  }

  /** Visiting the root releases both of its children, in children-list order. */
  lemma ForkRootReleases()
    ensures Released(ForkArena(), {}, 0, [1, 2]) == [1, 2]
  {
    var g := ForkArena();
    var cs: seq<nat> := [1, 2];
    assert cs[..1] == [1] && cs[..1][..0] == [];
    assert ParentsIn(g, 1, {0}) && ParentsIn(g, 2, {0});
  }

  /**
   * The scenario of a root with two children: numbering yields the array
   * [0, 1, 2] and no other topological order, such as [0, 2, 1].
   */
  lemma ForkNumbering()
    ensures IsDag(ForkArena())
    ensures KahnOrder(ForkArena(), [0, 1, 2]) == [0, 1, 2]
  {
    ForkIsDag();
    ForkRoots();
    ForkFirstVisit();
    ForkLeaves();
  }

  /** The two children have no children of their own, so visiting them adds nothing. */
  lemma ForkLeaves()
    ensures IsDag(ForkArena())
    ensures KahnFrom(ForkArena(), [0, 1, 2], 1) == [0, 1, 2]
  {
    var g := ForkArena();
    ForkIsDag();
    var q: seq<nat> := [0, 1, 2];
    assert g[1].children == [] && g[2].children == [];
    KahnIdle(g, q, 1);
    KahnIdle(g, q, 2);
  }

  lemma ForkFirstVisit()
    ensures IsDag(ForkArena())
    ensures KahnFrom(ForkArena(), [0], 0) == KahnFrom(ForkArena(), [0, 1, 2], 1)
  {
    var g := ForkArena();
    ForkIsDag();
    ForkRootReleases();
    var q0: seq<nat>, e: seq<nat> := [0], [];
    assert q0[..0] == e && Elements(e) == {};
  }

  /** Visiting a node without children leaves the queue as it is. */
  lemma KahnIdle(g: seq<GraphNode>, queue: seq<nat>, i: nat)
    requires IsDag(g) && forall k :: 0 <= k < |queue| ==> queue[k] < |g|
    requires i < |g| && i < |queue| && g[queue[i]].children == []
    ensures KahnFrom(g, queue, i) == KahnFrom(g, queue, i + 1)
  {
    assert queue + [] == queue;
  }
}

# dag-numbering in Dafny

A model of `script.js`, a page that draws a random directed acyclic graph.
Three pieces are modelled:

- **Building the DAG.** The `Graph` constructor first grows a random forest: each new
  node picks at most one earlier node as its parent. It then makes
  `crossConnectionCount` attempts to add an extra edge `index1 -> index2`.
- **Numbering.** `computeNumbering` runs Kahn's algorithm in place on the node array.
  - Parentless nodes are swapped to the front.
  - A left-to-right sweep counts, for each child, how many of its parents it has seen.
    A child is swapped to the next free front position once all of its parents have
    been seen.
  - Finally every node's `number` becomes its position.
- **Layout.** The first half of `render` peels the node array into levels. A node
  joins a level once all of its parents sit in earlier levels. Each node then gets
  the centre of its grid cell, centred in a square of side `max(width, height)`.

Modules:

- `Orderings`: sequences of ids, swaps and `findIndex`.
- `GraphNodes`: `GraphNode`, its constructor, `addChild`, `crossConnect` and `hasChild`.
  It also defines the well-formedness predicates (`IsDag`).
- `Builder`: the two construction phases.
- `Numbering`: `computeNumbering`.
- `Layout`: the levels and the coordinates.
- `Graphs`: the constructor and `render` end to end.

How the JavaScript objects are represented:

- A node's identity is its creation index `id`. A graph is an arena `seq<GraphNode>`
  indexed by id.
- `parents` and `children` are lists of ids in insertion order.
- `this.nodes`, the array that numbering permutes, is a `seq<nat>` of ids.
- `hasChild` is the predicate `GraphNodes.HasChild`, which is id membership in the
  children list.
- `number` and the coordinates `x`, `y` are per-id sequences beside the arena.
  An unset coordinate (`NaN`) is `None`.
- The random draws are inputs:
  - `parentDraws[i]` is the `parentIndex` computed for node i.
  - `crossDraws[k]` is the pair `(index1, index2)` of attempt k.
- `this.nodes[parentIndex]` keeps JavaScript's lookup semantics. An index outside the
  array, -1 included, gives `undefined`, so the node becomes a root.

Within a level, nodes appear in reverse array order, because the scan at
script.js:110 runs from the end. Node 0 with children 1 and 2 puts node 2 in column 0
and node 1 in column 1 (`Layout.ForkLevels`).

The order numbering leaves in the array is pinned down exactly, not only up to being
topological. `Numbering.KahnOrder` reads the sweep as a queue: the parentless nodes in
array order, then, for each queued node in turn, those of its children (in
children-list order) whose last unvisited parent it is. `Numbering.ComputeNumbering`
returns exactly this order. For node 0 with children 1 and 2 it is `[0, 1, 2]` and
never `[0, 2, 1]` (`Numbering.ForkNumbering`). Numbering that array again leaves it
unchanged (`Numbering.RenumberingIsStable`).

A node's level is the length of a longest path to it from a parentless node.
Two lemmas together pin this down:

- `Layout.ParentLevelBelow`: every parent sits in a strictly lower level.
- `Layout.ParentInPreviousLevel`: every node above level 0 has a parent exactly one
  level lower.

## Model

| member | source | states |
|---|---|---|
| `GraphNodes.NewNode` | script.js:146-159 | A fresh node has the given id and no children. Its parents list is empty without a parent and is exactly that parent otherwise. |
| `GraphNodes.AddChild` | script.js:166-168 | `push` appends the child to the end of the parent's old children list. Nothing else changes: not the parent's id or parents, and no other node. |
| `GraphNodes.CrossConnect` | script.js:161-164 | `c` is appended to the end of `p`'s children and `p` to the end of `c`'s parents, keeping both old lists as prefixes. When `p != c`, `p`'s parents and `c`'s children are unchanged. Every other node is unchanged. |
| `GraphNodes.HasChild` | script.js:170-172 | `hasChild` is identity membership in the children list. |
| `GraphNodes.AppendNode` | script.js:146-155 | Pushing the node with id \|g\| appends it to the parent's children and changes nothing else. It keeps the arena a DAG: ids match, edges run forward, no duplicates, and adjacency is symmetric. |
| `GraphNodes.AppendNodeKeepsDag` | script.js:149-155 | Adding a node that records its parent, and whose parent records it, preserves parent/child symmetry and the other DAG invariants. |
| `GraphNodes.CrossConnectKeepsDag` | script.js:45-56 | An edge from a lower to a higher id that is not already present keeps the graph a DAG. In particular no edge is duplicated. |
| `GraphNodes.PathAscends` | script.js:45-47 | Along any path of child edges the id strictly increases. |
| `GraphNodes.Acyclic` | script.js:41-57 | No path of one or more edges returns to its start. |
| `GraphNodes.ReverseCheckRedundant` | script.js:52 | Under the DAG invariant, `node2.hasChild(node1)` never holds when `index1 < index2`. |
| `Builder.Lookup` | script.js:37-38 | `this.nodes[parentIndex]` yields a node exactly when the index is in range. Otherwise it yields `undefined` and the node becomes a root. |
| `Builder.TreePhase` | script.js:36-39 | The tree phase yields n nodes forming a DAG. Node i's parents are those of `new GraphNode(i, this.nodes[parentIndex])`. |
| `Builder.TreeParents` | script.js:36-38 | In the tree, node i has no parent, or exactly one parent with a smaller index, namely its draw. Node 0 is always a root. |
| `Builder.Accepts` | script.js:45-54 | An attempt is accepted iff `index1 < index2` and neither node already has the other as a child. |
| `Builder.CrossStep` | script.js:42-56 | A draw is accepted iff `index1 < index2` and neither node has the other as a child. An accepted draw adds exactly the edge `index1 -> index2`, so the edge count rises by one. A rejected draw leaves the graph unchanged. Adjacency lists only grow, and the graph stays a DAG. |
| `Builder.CrossPhase` | script.js:41-57 | Whichever draws are accepted, the node count is kept and the result is still a DAG. |
| `Builder.CrossPhaseGrows` | script.js:41-57 | The cross phase adds at most one edge per attempt and removes none. Every adjacency list keeps its old contents as a prefix. |
| `Builder.Build` | script.js:33-57 | The constructor's graph has n nodes and is a DAG. |
| `Builder.BuildContainsTree` | script.js:33-57 | The built graph extends the tree. It has at most `crossConnectionCount` edges more than the tree, and the tree's lists are prefixes of the final ones. |
| `Orderings.Swap` | script.js:70-72 | Swapping two entries exchanges exactly those entries. The result is a permutation, and distinctness is kept. |
| `Orderings.FindIndex` | script.js:89 | `findIndex` returns -1 iff the id is absent. Otherwise it returns the first position holding it. |
| `Orderings.FindIndexIsPosition` | script.js:89 | On a node array without repeats, `findIndex` returns the node's unique position. |
| `Numbering.RootsMembers` | script.js:63-75 | The roots reference list holds exactly the parentless entries, in array order. |
| `Numbering.IsRoot` | script.js:65 | A node is a root iff its parents list is empty. |
| `Numbering.RootsFirst` | script.js:63-75 | After the first loop the array is still a permutation of the input. Its first j entries are exactly the parentless nodes in their original relative order, and position k < j iff it holds a root. |
| `Numbering.CountStep` | script.js:81-86 | Visiting the next child raises its count by one, and the count stays below its parent count until the last parent is visited. The count reaches the parent count iff every parent has been visited. |
| `Numbering.Released` | script.js:81-95 | The children a visit releases are exactly those whose parents all lie among the visited nodes and the visiting node, kept in children-list order. |
| `Numbering.PlaceChild` | script.js:88-94 | Swapping a ready child from k >= j to position j keeps all placed nodes in place. Every placed node still follows its parents. The placed prefix is exactly the nodes whose count is complete. |
| `Numbering.VisitChild` | script.js:81-95 | One inner iteration either only counts the child or moves it to position j and advances j. Positions before j are never disturbed. The placed front grows by the child exactly when all of its parents have been visited. |
| `Numbering.PlaceNext` | script.js:87-93 | Finding a ready child and swapping it to position j advances j by one, keeps every placed node in place, and appends the child to the placed front. |
| `Numbering.VisitChildren` | script.js:81-95 | After the children of the node at position i are visited, every count includes that node. The nodes before j are exactly those whose counts are complete, and each comes after all of its parents. Positions before the old j are untouched. The front has grown by exactly the children this visit releases, in children-list order. |
| `Numbering.ReadyNode` | script.js:80-96 | In a DAG, below any node not yet placed there is an unplaced node all of whose parents are placed. This is why the sweep cannot get stuck. |
| `Numbering.SweepAhead` | script.js:80-96 | While the sweep still has nodes to visit, the visit index i stays below the placement index j. |
| `Numbering.Sweep` | script.js:80-96 | The sweep leaves the roots-first prefix untouched and ends with every node placed after all of its parents. The final array is exactly the queue `KahnFrom` builds from that prefix. |
| `Numbering.KahnStep` | script.js:80-96 | One outer iteration is one step of the queue reading: the visited nodes become those before position i + 1, and the remaining queue computation is unchanged. |
| `Numbering.NumberNodes` | script.js:98-100 | The node at position i receives number i, for every position. |
| `Numbering.NumbersArePositions` | script.js:98-100 | After the sweep, numbering by position gives numbers 0..n-1 without repeats, and every parent's number is below its child's. |
| `Numbering.ComputeNumbering` | script.js:62-100 | The final array is exactly `KahnOrder` of the input: a permutation with the roots first in their input order, and `number[nodes[i]] == i`. The numbers are exactly 0..n-1 without repeats, and every parent's number is below its child's. |
| `Numbering.RootsLeading` | script.js:63-75 | After numbering, position k holds a parentless node iff k lies in the roots-first prefix. |
| `Numbering.RenumberingIsStable` | script.js:62-100 | Numbering an array that numbering has already produced gives the same parentless list and returns that array unchanged. |
| `Numbering.ForkNumbering` | script.js:62-100 | For node 0 with children 1 and 2 the numbering array is exactly `[0, 1, 2]`. |
| `Layout.Split` | script.js:110-114 | One backward pass splits the pool into level and rest, which together are a permutation of the pool. |
| `Layout.Eligible` | script.js:111 | A node may join the current level iff every one of its parents is already added. |
| `Layout.SplitMembers` | script.js:110-114 | A pass's level holds exactly the pool's nodes whose parents all lie in `added`. The rest holds exactly the others. |
| `Layout.Peel` | script.js:110-114 | The backward `splice` loop computes exactly the split: eligible nodes pushed in reverse order, with the others left in order. |
| `Layout.SplitShrinks` | script.js:107-118 | On a graph with forward edges every pass takes at least one node, so the `while` loop terminates. |
| `Layout.Levels` | script.js:107-118 | The levels together are a permutation of the pool, and no level is empty. |
| `Layout.Layer` | script.js:104-118 | The `while` loop computes exactly the levels of the reference definition. |
| `Layout.LayeringPartitions` | script.js:104-118 | On a graph with forward edges the layering terminates. Its levels list every node exactly once. |
| `Layout.ForkLevels` | script.js:107-118 | For node 0 with children 1 and 2 the levels are exactly `[[0], [2, 1]]`: the children share level 1 in reverse array order. |
| `Layout.ParentsBefore` | script.js:111 | Every node of level y has all its parents in `added` or in the levels before y. |
| `Layout.ParentInPreviousLevel` | script.js:107-118 | Every node of a level above 0 has a parent in the level directly below. |
| `Layout.FirstLevelRoots` | script.js:111 | Level 0 holds exactly the parentless nodes. |
| `Layout.ParentLevelBelow` | script.js:107-118 | A parent's level is strictly lower than its child's level. |
| `Layout.Width` | script.js:121 | The width bounds every level's length and equals the length of some level, or is 0. |
| `Layout.Center` | script.js:122-129 | A cell's coordinate lies strictly inside the square of side `max(width, height)`. |
| `Layout.CenterSymmetric` | script.js:122-129 | The grid is centred: mirrored columns, and mirrored rows, add up to `size`. |
| `Layout.CenterInjective` | script.js:126-129 | Two cells share a coordinate iff they are the same cell. |
| `Layout.AssignCoordinates` | script.js:126-131 | The node at column x of level y gets the centre of cell (x, y). Exactly the nodes in some level get a coordinate; the rest stay unset. |
| `Graphs.NewGraph` | script.js:33-60 | The constructed graph is a DAG and its array is an ordering of the ids. The parentless nodes come first in creation order, and every edge goes from a smaller to a larger number. The array is exactly `KahnOrder` of the creation order, and numbering it again would not change it. |
| `Graphs.Render` | script.js:103-131 | Every node is placed at the centre of its slot, strictly inside the square. Level 0 is exactly the parentless nodes, and every later node has a parent one level up. Every edge points downwards, and no two nodes share a point. |
| `Graphs.FirstLevelIsRoots` | script.js:104-118 | On the constructed graph the top level is exactly the set of parentless nodes. |
| `Graphs.CoordinatesInside` | script.js:120-131 | Every node is given a coordinate strictly inside `(0, size)` in both axes. |
| `Graphs.EdgesPointDown` | script.js:104-131 | Each parent is drawn on a row above each of its children. |
| `Graphs.NoOverlap` | script.js:120-131 | No two nodes are drawn at the same point. |

## Left out

- The canvas, DOM and animation code is not modelled (script.js:1-30 and 133-141). This covers `window.onload`, `loop`, `RESOLUTION`, the canvas transform, and the loops that call the drawing methods. None of it has behaviour beyond drawing.
- `renderConnection` and `renderNode` (script.js:174-194) are not modelled. They only issue drawing calls.
- The `console.log` in the roots-first loop (script.js:73) is output only and does not affect the result.
- `Math.random()` (script.js:37, 42-43) is replaced by caller-supplied draws.
  - A parent draw may be any integer, because lookup semantics cover every value.
  - A cross draw must satisfy `SafeDraw`: when `index1 < index2`, both indices name existing nodes. Every draw in the source's range 0..n-1 does. Outside that, the source would throw a `TypeError` on `undefined`.
- The `NaN` initial coordinates (script.js:157-158) are modelled as `None`. The initial `number = -1` is not kept, because the constructor always numbers the graph before anything reads `number`.
- `Numbering.ComputeNumbering` requires a DAG (`IsDag`). The constructor always supplies one. On a graph with a cycle the source would leave some nodes unplaced, and that case is not modelled.
- `Layout.Levels` requires `LayerPre`: every edge runs from a lower to a higher id, every pool entry names a node, and every node is in the pool or already added.
  - The source's `while` loop fails to terminate on a graph with a cycle, or when some node's parent is neither in the pool nor added. The model asks for more than that: every node, not just every parent, must be covered.
  - Forward edges are what the constructor guarantees, and their ids give the termination measure. The requirement also excludes acyclic graphs whose edges run from higher to lower ids. The source's loop terminates on those, but the constructor never builds one.
  - `Graphs.Render` discharges the requirement for every constructed graph.
- `Numbering.Sweep` states placement through the ghost inverse of the array, not through the array alone. `Numbering.ComputeNumbering` turns this into statements about the array and the numbers.
- Integers are unbounded. The source's counters and indices stay far below 2^53 for any graph a browser can hold.

/**
 * The layered layout computed at the start of `Graph.render`: nodes are
 * peeled into levels, a node joining a level once all of its parents lie in
 * earlier levels, and each node then gets a grid coordinate centred in a
 * `size` by `size` square.
 */
module Layout {
  import opened Orderings
  import opened GraphNodes

  /** `node.parents.every((p) => added.includes(p))`. */
  predicate Eligible(g: seq<GraphNode>, v: nat, added: seq<nat>) {
    v < |g| && forall p :: p in g[v].parents ==> p in added
  }

  /** Every entry of `s` names a node of the arena. */
  predicate InArena(g: seq<GraphNode>, s: seq<nat>) {
    forall v :: v in s ==> v < |g|
  }

  /**
   * One pass of the inner `for` loop, as a reference definition: the level
   * lists the eligible nodes of `pool` (in reverse, since the scan runs from
   * the end), and the rest keeps the other nodes in their order.
   */
  function Split(g: seq<GraphNode>, pool: seq<nat>, added: seq<nat>): (r: (seq<nat>, seq<nat>))
    ensures multiset(r.0) + multiset(r.1) == multiset(pool)
    decreases |pool|
  {
    if |pool| == 0 then ([], [])
    else
      var r := Split(g, pool[1..], added);
      assert pool == [pool[0]] + pool[1..];
      if Eligible(g, pool[0], added) then (r.0 + [pool[0]], r.1) else (r.0, [pool[0]] + r.1)
  }

  /** The level holds exactly the eligible nodes of the pool, the rest exactly the others. */
  lemma {:induction false} SplitMembers(g: seq<GraphNode>, pool: seq<nat>, added: seq<nat>)
    ensures var r := Split(g, pool, added);
      && (forall v :: v in r.0 <==> v in pool && Eligible(g, v, added))
      && (forall v :: v in r.1 <==> v in pool && !Eligible(g, v, added))
    decreases |pool|
  {
    if |pool| > 0 {
      SplitMembers(g, pool[1..], added);
      assert pool == [pool[0]] + pool[1..];
    }
  }

  /**
   * The inner loop itself: scanning `nodes` from the end, every eligible node
   * is spliced out and pushed onto the level.
   */
  method Peel(g: seq<GraphNode>, nodes: seq<nat>, added: seq<nat>) returns (level: seq<nat>, rest: seq<nat>)
    ensures (level, rest) == Split(g, nodes, added)
  {
    level, rest := [], nodes;
    var i := |nodes|;
    while i > 0
      invariant 0 <= i <= |nodes| && i <= |rest|
      invariant rest[..i] == nodes[..i]
      invariant level == Split(g, nodes[i..], added).0
      invariant rest[i..] == Split(g, nodes[i..], added).1
      decreases i
    {
      i := i - 1;
      ghost var s := Split(g, nodes[i + 1..], added);
      ghost var rest0 := rest;
      SplitCons(g, nodes, added, i);
      assert rest0[..i + 1] == nodes[..i + 1];
      assert rest0[..i] == nodes[..i] by {
        assert rest0[..i] == rest0[..i + 1][..i] && nodes[..i] == nodes[..i + 1][..i];
      }
      assert rest0[i] == nodes[i] by {
        assert rest0[..i + 1][i] == nodes[..i + 1][i];
      }
      if Eligible(g, rest[i], added) {
        level := level + [rest[i]];
        rest := rest[..i] + rest[i + 1..];
        assert rest[..i] == rest0[..i];
        assert rest[i..] == rest0[i + 1..];
      } else {
        assert rest[i..] == [rest[i]] + rest[i + 1..];
      }
    }
  }

  /** The pass over `nodes[i..]` is the pass over `nodes[i + 1..]` plus the decision on `nodes[i]`. */
  lemma SplitCons(g: seq<GraphNode>, nodes: seq<nat>, added: seq<nat>, i: nat)
    requires i < |nodes|
    ensures var s := Split(g, nodes[i + 1..], added);
      Split(g, nodes[i..], added)
        == if Eligible(g, nodes[i], added) then (s.0 + [nodes[i]], s.1) else (s.0, [nodes[i]] + s.1)
  {
    assert nodes[i..][1..] == nodes[i + 1..];
  }

  /** `Split` on a non-empty pool, one component at a time. */
  lemma SplitStep(g: seq<GraphNode>, pool: seq<nat>, added: seq<nat>)
    requires |pool| > 0
    ensures var s := Split(g, pool[1..], added);
      && Split(g, pool, added).0 == (if Eligible(g, pool[0], added) then s.0 + [pool[0]] else s.0)
      && Split(g, pool, added).1 == (if Eligible(g, pool[0], added) then s.1 else [pool[0]] + s.1)
  {
  }

  /** The concatenation of the levels, in order (`added` after the last pass). */
  function Flatten(levels: seq<seq<nat>>): seq<nat>
    decreases |levels|
  {
    if |levels| == 0 then [] else levels[0] + Flatten(levels[1..])
  }

  /**
   * What the layering needs to terminate: edges that run from lower to
   * higher ids (so the graph is a DAG), and every node either still in the
   * pool or added.
   */
  predicate LayerPre(g: seq<GraphNode>, pool: seq<nat>, added: seq<nat>) {
    && EdgesForward(g)
    && InArena(g, pool)
    && forall v :: 0 <= v < |g| ==> v in pool || v in added
  }

  /**
   * Some node of a non-empty pool is eligible: descend from any pool node
   * through parents that are not yet added; ids fall, so this stops.
   */
  lemma {:induction false} EligibleBelow(g: seq<GraphNode>, pool: seq<nat>, added: seq<nat>, w: nat) returns (v: nat)
    requires LayerPre(g, pool, added) && w in pool
    ensures v in pool && Eligible(g, v, added)
    decreases w
  {
    if p :| p in g[w].parents && p !in added {
      var m :| 0 <= m < |g[w].parents| && g[w].parents[m] == p;
      v := EligibleBelow(g, pool, added, p);
    } else {
      v := w;
    }
  }

  lemma SomeEligible(g: seq<GraphNode>, pool: seq<nat>, added: seq<nat>)
    requires LayerPre(g, pool, added) && |pool| > 0
    ensures exists v :: v in pool && Eligible(g, v, added)
  {
    var v := EligibleBelow(g, pool, added, pool[0]);
  }

  /** A pass over a non-empty pool takes at least one node and leaves the rest to come. */
  lemma SplitShrinks(g: seq<GraphNode>, pool: seq<nat>, added: seq<nat>)
    requires LayerPre(g, pool, added) && |pool| > 0
    ensures var r := Split(g, pool, added);
      && |r.0| > 0 && |r.1| < |pool|
      && LayerPre(g, r.1, added + r.0)
  {
    var r := Split(g, pool, added);
    SomeEligible(g, pool, added);
    SplitMembers(g, pool, added);
    assert |multiset(r.0)| + |multiset(r.1)| == |multiset(pool)|;
  }

  /**
   * The outer `while` loop, as a reference definition: the levels still to
   * come when `pool` is left and `added` is done. The pool strictly shrinks,
   * so on a DAG the source's loop terminates.
   */
  function Levels(g: seq<GraphNode>, pool: seq<nat>, added: seq<nat>): (levels: seq<seq<nat>>)
    requires LayerPre(g, pool, added)
    ensures multiset(Flatten(levels)) == multiset(pool)
    ensures forall y :: 0 <= y < |levels| ==> |levels[y]| > 0
    decreases |pool|
  {
    if |pool| == 0 then []
    else
      var r := Split(g, pool, added);
      SplitShrinks(g, pool, added);
      var rest := Levels(g, r.1, added + r.0);
      FlattenCons(r.0, rest);
      [r.0] + rest
  }

  /** One unfolding of `Levels`. */
  lemma LevelsUnfold(g: seq<GraphNode>, pool: seq<nat>, added: seq<nat>)
    requires LayerPre(g, pool, added) && |pool| > 0
    ensures var r := Split(g, pool, added);
      && |r.1| < |pool|
      && LayerPre(g, r.1, added + r.0)
      && Levels(g, pool, added) == [r.0] + Levels(g, r.1, added + r.0)
  {
    SplitShrinks(g, pool, added);
  }

  /** Lines 104-118: peel levels off a copy of `nodes` until it is empty. */
  method Layer(g: seq<GraphNode>, nodes: seq<nat>) returns (levels: seq<seq<nat>>)
    requires LayerPre(g, nodes, [])
    ensures levels == Levels(g, nodes, [])
  {
    var pool := nodes;
    var added: seq<nat> := [];
    levels := [];
    while |pool| > 0
      invariant LayerPre(g, pool, added)
      invariant levels + Levels(g, pool, added) == Levels(g, nodes, [])
      decreases |pool|
    {
      var level, rest := Peel(g, pool, added);
      LayerStep(g, pool, added, levels, level, rest);
      levels, pool, added := levels + [level], rest, added + level;
    }
  }

  /** One pass of the `while` loop takes off the first remaining level. */
  lemma LayerStep(g: seq<GraphNode>, pool: seq<nat>, added: seq<nat>, levels: seq<seq<nat>>,
                  level: seq<nat>, rest: seq<nat>)
    requires LayerPre(g, pool, added) && |pool| > 0 && (level, rest) == Split(g, pool, added)
    ensures LayerPre(g, rest, added + level)
    ensures |rest| < |pool|
    ensures (levels + [level]) + Levels(g, rest, added + level) == levels + Levels(g, pool, added)
  {
    LevelsUnfold(g, pool, added);
    Associative(levels, [level], Levels(g, rest, added + level));
  }

  lemma FlattenCons(level: seq<nat>, levels: seq<seq<nat>>)
    ensures Flatten([level] + levels) == level + Flatten(levels)
  {
    assert ([level] + levels)[1..] == levels;
  }

  /** The first y levels of `[level] + tail` are `level` and the first y - 1 of `tail`. */
  lemma PrefixCons(level: seq<nat>, tail: seq<seq<nat>>, y: nat)
    requires 0 < y <= |tail| + 1
    ensures ([level] + tail)[..y] == [level] + tail[..y - 1]
    ensures Flatten(([level] + tail)[..y]) == level + Flatten(tail[..y - 1])
    ensures y <= |tail| ==> ([level] + tail)[y] == tail[y - 1]
  {
    assert ([level] + tail)[..y] == [level] + tail[..y - 1];
    FlattenCons(level, tail[..y - 1]);
  }

  /** Membership in the concatenation is membership in some level. */
  lemma {:induction false} FlattenMember(levels: seq<seq<nat>>, v: nat)
    ensures v in Flatten(levels) <==> exists y :: 0 <= y < |levels| && v in levels[y]
    decreases |levels|
  {
    if |levels| > 0 {
      FlattenMember(levels[1..], v);
      if v in levels[0] {
      } else if v in Flatten(levels[1..]) {
        var y :| 0 <= y < |levels[1..]| && v in levels[1..][y];
        assert v in levels[y + 1];
      } else {
        forall y | 0 <= y < |levels|
          ensures v !in levels[y]
        {
          if y > 0 {
            assert levels[y] == levels[1..][y - 1];
          }
        }
      }
    }
  }

  /** Splitting the levels at `y` splits their concatenation. */
  lemma {:induction false} FlattenSplit(levels: seq<seq<nat>>, y: nat)
    requires y <= |levels|
    ensures Flatten(levels) == Flatten(levels[..y]) + Flatten(levels[y..])
    decreases y
  {
    if y > 0 {
      FlattenSplit(levels[1..], y - 1);
      assert levels[1..][..y - 1] == levels[..y][1..];
      assert levels[1..][y - 1..] == levels[y..];
    }
  }

  /**
   * Every node of level y was eligible once the earlier levels were added:
   * all of its parents lie in `added` or in a level before y.
   */
  lemma {:induction false} ParentsBefore(g: seq<GraphNode>, pool: seq<nat>, added: seq<nat>)
    requires LayerPre(g, pool, added)
    ensures var levels := Levels(g, pool, added);
      forall y :: 0 <= y < |levels| ==>
        forall v :: v in levels[y] ==> Eligible(g, v, added + Flatten(levels[..y]))
    decreases |pool|
  {
    if |pool| > 0 {
      var r := Split(g, pool, added);
      LevelsUnfold(g, pool, added);
      SplitShrinks(g, pool, added);
      SplitMembers(g, pool, added);
      ParentsBefore(g, r.1, added + r.0);
      ParentsBeforeCons(g, added, r.0, Levels(g, r.1, added + r.0));
    }
  }

  /** The inductive step of `ParentsBefore`: prepending the first level. */
  lemma ParentsBeforeCons(g: seq<GraphNode>, added: seq<nat>, level: seq<nat>, tail: seq<seq<nat>>)
    requires forall v :: v in level ==> Eligible(g, v, added)
    requires forall y :: 0 <= y < |tail| ==>
      forall v :: v in tail[y] ==> Eligible(g, v, (added + level) + Flatten(tail[..y]))
    ensures var levels := [level] + tail;
      forall y :: 0 <= y < |levels| ==>
        forall v :: v in levels[y] ==> Eligible(g, v, added + Flatten(levels[..y]))
  {
    var levels := [level] + tail;
    forall y | 0 <= y < |levels|
      ensures forall v :: v in levels[y] ==> Eligible(g, v, added + Flatten(levels[..y]))
    {
      if y == 0 {
        assert levels[..0] == [];
        assert added + Flatten(levels[..0]) == added;
      } else {
        PrefixCons(level, tail, y);
        assert added + Flatten(levels[..y]) == (added + level) + Flatten(tail[..y - 1]);
      }
    }
  }

  /** Every node of `level` has a parent in `below`. */
  predicate Supported(g: seq<GraphNode>, level: seq<nat>, below: seq<nat>) {
    forall v :: v in level ==> v < |g| && exists p :: p in g[v].parents && p in below
  }

  /**
   * A node in level y > 0 was not eligible one pass earlier, so one of its
   * parents lies in level y - 1: a node's level is the length of a longest
   * path to it from a parentless node.
   */
  lemma {:induction false} ParentInPreviousLevel(g: seq<GraphNode>, pool: seq<nat>, added: seq<nat>)
    requires LayerPre(g, pool, added)
    ensures var levels := Levels(g, pool, added);
      forall y :: 0 < y < |levels| ==> Supported(g, levels[y], levels[y - 1])
    decreases |pool|
  {
    var levels := Levels(g, pool, added);
    if |pool| > 0 {
      var r := Split(g, pool, added);
      LevelsUnfold(g, pool, added);
      SplitShrinks(g, pool, added);
      SplitMembers(g, pool, added);
      var tail := Levels(g, r.1, added + r.0);
      ParentInPreviousLevel(g, r.1, added + r.0);
      forall y | 0 < y < |levels|
        ensures Supported(g, levels[y], levels[y - 1])
      {
        assert levels[y] == tail[y - 1];
        if y == 1 {
          LevelsUnfold(g, r.1, added + r.0);
          SplitMembers(g, r.1, added + r.0);
          forall v | v in levels[1]
            ensures v < |g| && exists p :: p in g[v].parents && p in levels[0]
          {
            assert v in r.1;
            var p :| p in g[v].parents && p !in added;
            assert p in r.0;
          }
        } else {
          assert levels[y - 1] == tail[y - 2];
        }
      }
    }
  }

  /** Level 0 holds exactly the parentless nodes of the pool. */
  lemma FirstLevelRoots(g: seq<GraphNode>, pool: seq<nat>)
    requires LayerPre(g, pool, []) && |pool| > 0
    ensures var levels := Levels(g, pool, []);
      && |levels| > 0
      && forall v :: v in levels[0] <==> v in pool && g[v].parents == []
  {
    LevelsUnfold(g, pool, []);
    SplitMembers(g, pool, []);
    forall v | v in pool
      ensures Eligible(g, v, []) <==> g[v].parents == []
    {
      if g[v].parents != [] {
        assert g[v].parents[0] in g[v].parents;
      }
    }
  }

  /** The slot (level, column) at which a node of the concatenation sits. */
  lemma Locate(levels: seq<seq<nat>>, v: nat) returns (y: nat, x: nat)
    requires v in Flatten(levels)
    ensures y < |levels| && x < |levels[y]| && levels[y][x] == v
  {
    FlattenMember(levels, v);
    y :| 0 <= y < |levels| && v in levels[y];
    x :| 0 <= x < |levels[y]| && levels[y][x] == v;
  }

  /** Where level y starts in the concatenation of the levels. */
  function Offset(levels: seq<seq<nat>>, y: nat): nat
    requires y <= |levels|
  {
    |Flatten(levels[..y])|
  }

  /** Entry x of level y sits at `Offset(levels, y) + x` of the concatenation. */
  lemma FlattenAt(levels: seq<seq<nat>>, y: nat, x: nat)
    requires y < |levels| && x < |levels[y]|
    ensures Offset(levels, y) + x < |Flatten(levels)|
    ensures Flatten(levels)[Offset(levels, y) + x] == levels[y][x]
  {
    FlattenSplit(levels, y);
    assert levels[y..] == [levels[y]] + levels[y + 1..];
    FlattenCons(levels[y], levels[y + 1..]);
  }

  /** Level y1 ends no later than a later level y2 starts. */
  lemma OffsetGrows(levels: seq<seq<nat>>, y1: nat, y2: nat)
    requires y1 < y2 <= |levels|
    ensures Offset(levels, y1) + |levels[y1]| <= Offset(levels, y2)
  {
    var front := levels[..y2];
    FlattenSplit(front, y1);
    assert front[..y1] == levels[..y1];
    assert front[y1..] == [levels[y1]] + front[y1 + 1..];
    FlattenCons(levels[y1], front[y1 + 1..]);
  }

  /**
   * When the concatenation has no repeats, distinct (level, column) slots
   * hold distinct nodes: the levels are pairwise disjoint and no level
   * repeats a node.
   */
  lemma SlotsDistinct(levels: seq<seq<nat>>, y1: nat, x1: nat, y2: nat, x2: nat)
    requires Distinct(Flatten(levels))
    requires y1 < |levels| && x1 < |levels[y1]| && y2 < |levels| && x2 < |levels[y2]|
    ensures levels[y1][x1] == levels[y2][x2] ==> y1 == y2 && x1 == x2
  {
    FlattenAt(levels, y1, x1);
    FlattenAt(levels, y2, x2);
    if y1 < y2 {
      OffsetGrows(levels, y1, y2);
    } else if y2 < y1 {
      OffsetGrows(levels, y2, y1);
    }
  }

  /**
   * On a graph whose edges run forward and whose node array lists every node
   * once, the layering terminates and its levels partition the nodes: their
   * concatenation lists every node exactly once.
   */
  lemma LayeringPartitions(g: seq<GraphNode>, nodes: seq<nat>)
    requires EdgesForward(g) && IsOrdering(nodes, |g|)
    ensures LayerPre(g, nodes, [])
    ensures IsOrdering(Flatten(Levels(g, nodes, [])), |g|)
  {
    OrderingCovers(nodes, |g|);
    forall v | v in nodes
      ensures v < |g|
    {
      var k :| 0 <= k < |nodes| && nodes[k] == v;
    }
    PermutationIsOrdering(Flatten(Levels(g, nodes, [])), nodes, |g|);
  }

  /** A parent's level lies strictly below its child's level. */
  lemma ParentLevelBelow(g: seq<GraphNode>, nodes: seq<nat>, y1: nat, y2: nat, v: nat, p: nat)
    requires IsOrdering(nodes, |g|) && LayerPre(g, nodes, [])
    requires var levels := Levels(g, nodes, []);
      v < |g| && y1 < |levels| && y2 < |levels| && v in levels[y2] && p in levels[y1] && p in g[v].parents
    ensures y1 < y2
  {
    LayeringPartitions(g, nodes);
    var none: seq<nat> := [];
    var levels := Levels(g, nodes, none);
    ParentsBefore(g, nodes, none);
    assert none + Flatten(levels[..y2]) == Flatten(levels[..y2]);
    assert p in Flatten(levels[..y2]);
    var front := levels[..y2];
    FlattenMember(front, p);
    var y: nat :| y < |front| && p in front[y];
    var x :| 0 <= x < |levels[y]| && levels[y][x] == p;
    var x1 :| 0 <= x1 < |levels[y1]| && levels[y1][x1] == p;
    SlotsDistinct(levels, y, x, y1, x1);
  }

  // The coordinates (lines 120-131).

  function Max(a: nat, b: nat): (m: nat)
    ensures a <= m && b <= m && (m == a || m == b)
  {
    if a < b then b else a
  }

  /** `levels.reduce((w, l) => Math.max(w, l.length), 0)`: the longest level's length. */
  function Width(levels: seq<seq<nat>>): (w: nat)
    ensures forall y :: 0 <= y < |levels| ==> |levels[y]| <= w
    ensures w == 0 || exists y :: 0 <= y < |levels| && |levels[y]| == w
    decreases |levels|
  {
    if |levels| == 0 then 0
    else
      var n := |levels| - 1;
      var w := Width(levels[..n]);
      assert forall y :: 0 <= y < n ==> levels[..n][y] == levels[y];
      Max(w, |levels[n]|)
  }

  datatype Point = Point(x: real, y: real)

  /**
   * The coordinate of column `col` of row `row` in a grid of `height` rows of
   * at most `width` columns, centred in a square of side max(width, height).
   */
  function Center(col: nat, row: nat, width: nat, height: nat): (pt: Point)
    requires col < width && row < height
    ensures 0.0 < pt.x < Max(width, height) as real
    ensures 0.0 < pt.y < Max(width, height) as real
  {
    var size := Max(width, height);
    var offsetX := (size - width) as real / 2.0;
    var offsetY := (size - height) as real / 2.0;
    Point(col as real + 0.5 + offsetX, row as real + 0.5 + offsetY)
  }

  /**
   * The grid is centred: mirrored columns (and rows) average to the middle
   * of the square, and distinct columns (rows) get distinct coordinates.
   */
  lemma CenterSymmetric(col: nat, row: nat, width: nat, height: nat)
    requires col < width && row < height
    ensures var size := Max(width, height) as real;
      && Center(col, row, width, height).x + Center(width - 1 - col, row, width, height).x == size
      && Center(col, row, width, height).y + Center(col, height - 1 - row, width, height).y == size
  {
  }

  lemma CenterInjective(col1: nat, row1: nat, col2: nat, row2: nat, width: nat, height: nat)
    requires col1 < width && row1 < height && col2 < width && row2 < height
    ensures Center(col1, row1, width, height) == Center(col2, row2, width, height) <==> col1 == col2 && row1 == row2
  {
  }

  /** The concatenation of the first y + 1 levels extends that of the first y by level y. */
  lemma FlattenSnoc(levels: seq<seq<nat>>, y: nat)
    requires y < |levels|
    ensures Flatten(levels[..y + 1]) == Flatten(levels[..y]) + levels[y]
  {
    FlattenSplit(levels[..y + 1], y);
    assert levels[..y + 1][..y] == levels[..y];
    assert levels[..y + 1][y..] == [levels[y]];
    FlattenCons(levels[y], []);
  }

  /**
   * Lines 126-131: node `levels[y][x]` gets the centred coordinate of column x
   * and row y; a node in no level keeps its unset (`NaN`) coordinate.
   */
  method AssignCoordinates(g: seq<GraphNode>, levels: seq<seq<nat>>) returns (pos: seq<Option<Point>>)
    requires Distinct(Flatten(levels))
    requires forall y, x :: 0 <= y < |levels| && 0 <= x < |levels[y]| ==> levels[y][x] < |g|
    ensures |pos| == |g|
    ensures forall y, x :: 0 <= y < |levels| && 0 <= x < |levels[y]| ==>
      pos[levels[y][x]] == Some(Center(x, y, Width(levels), |levels|))
    ensures forall v :: 0 <= v < |g| ==> (pos[v].Some? <==> v in Flatten(levels))
  {
    var width, height := Width(levels), |levels|;
    pos := seq(|g|, _ => None);
    ghost var done: seq<nat> := [];
    for y := 0 to |levels|
      invariant |pos| == |g|
      invariant done == Flatten(levels[..y])
      invariant forall y', x' :: 0 <= y' < y && 0 <= x' < |levels[y']| ==>
        pos[levels[y'][x']] == Some(Center(x', y', width, height))
      invariant forall v :: 0 <= v < |g| ==> (pos[v].Some? <==> v in done)
    {
      for x := 0 to |levels[y]|
        invariant |pos| == |g|
        invariant forall y', x' :: 0 <= y' < y && 0 <= x' < |levels[y']| ==>
          pos[levels[y'][x']] == Some(Center(x', y', width, height))
        invariant forall x' :: 0 <= x' < x ==> pos[levels[y][x']] == Some(Center(x', y, width, height))
        invariant forall v :: 0 <= v < |g| ==> (pos[v].Some? <==> v in done || v in levels[y][..x])
      {
        var v := levels[y][x];
        forall y', x' | 0 <= y' < |levels| && 0 <= x' < |levels[y']|
          ensures levels[y'][x'] == v ==> y' == y && x' == x
        {
          SlotsDistinct(levels, y', x', y, x);
        }
        assert levels[y][..x + 1] == levels[y][..x] + [v];
        pos := pos[v := Some(Center(x, y, width, height))];
      }
      assert levels[y][..|levels[y]|] == levels[y];
      FlattenSnoc(levels, y);
      done := done + levels[y];
    }
    assert levels[..|levels|] == levels;
  }

  lemma ForkFirstPass()
    ensures Split(ForkArena(), [0, 1, 2], []).0 == [0]
    ensures Split(ForkArena(), [0, 1, 2], []).1 == [1, 2]
  {
    var g := ForkArena();
    var p0: seq<nat>, p1: seq<nat>, none: seq<nat> := [0, 1, 2], [1, 2], [];
    ForkChildrenWait();
    assert p0[1..] == p1;
    assert Eligible(g, 0, none);
    SplitStep(g, p0, none);
  }

  /** Before the root is added, neither child is eligible. */
  lemma ForkChildrenWait()
    ensures Split(ForkArena(), [1, 2], []).0 == []
    ensures Split(ForkArena(), [1, 2], []).1 == [1, 2]
  {
    var g := ForkArena();
    var p1: seq<nat>, p2: seq<nat>, none: seq<nat> := [1, 2], [2], [];
    ForkLastChildWaits();
    assert p1[1..] == p2;
    assert 0 in g[1].parents;
    SplitStep(g, p1, none);
  }

  lemma ForkLastChildWaits()
    ensures Split(ForkArena(), [2], []).0 == []
    ensures Split(ForkArena(), [2], []).1 == [2]
  {
    var g := ForkArena();
    var p2: seq<nat>, none: seq<nat> := [2], [];
    assert p2[1..] == [];
    assert 0 in g[2].parents;
    SplitStep(g, p2, none);
  }

  lemma ForkSecondPass()
    ensures Split(ForkArena(), [1, 2], [0]).0 == [2, 1]
    ensures Split(ForkArena(), [1, 2], [0]).1 == []
  {
    var g := ForkArena();
    var p1: seq<nat>, p2: seq<nat>, added: seq<nat> := [1, 2], [2], [0];
    ForkLastChild();
    assert p1[1..] == p2;
    assert Eligible(g, 1, added);
    SplitStep(g, p1, added);
  }

  /** Once the root is added, node 2 is eligible. */
  lemma ForkLastChild()
    ensures Split(ForkArena(), [2], [0]).0 == [2]
    ensures Split(ForkArena(), [2], [0]).1 == []
  {
    var g := ForkArena();
    var p2: seq<nat>, added: seq<nat> := [2], [0];
    assert p2[1..] == [];
    assert Eligible(g, 2, added);
    SplitStep(g, p2, added);
  }

  /** The second pass takes the two children and leaves nothing. */
  lemma ForkSecondLevel()
    ensures LayerPre(ForkArena(), [1, 2], [0])
    ensures Levels(ForkArena(), [1, 2], [0]) == [[2, 1]]
  {
    var g := ForkArena();
    var pool: seq<nat>, added: seq<nat>, e: seq<nat> := [1, 2], [0], [];
    assert LayerPre(g, pool, added);
    ForkSecondPass();
    LevelsUnfold(g, pool, added);
    assert Levels(g, e, added + [2, 1]) == [];
  }

  lemma ForkLayerPre()
    ensures LayerPre(ForkArena(), [0, 1, 2], [])
  {
    var g := ForkArena();
    var pool: seq<nat> := [0, 1, 2];
    assert forall v :: 0 <= v < |g| ==> v in pool;
  }

  /**
   * The scenario of a root with two children: the root forms level 0, and
   * its children share level 1 in reverse array order, node 2 in column 0.
   */
  lemma ForkLevels()
    ensures LayerPre(ForkArena(), [0, 1, 2], [])
    ensures Levels(ForkArena(), [0, 1, 2], []) == [[0], [2, 1]]
  {
    ForkLayerPre();
    ForkFirstPass();
    ForkSecondLevel();
    var none: seq<nat>, top: seq<nat> := [], [0];
    assert none + top == top;
    TwoLevels(ForkArena(), [0, 1, 2], none, top, [1, 2], [2, 1]);
  }

  /** A first pass taking `level0` and leaving a pool that forms the single level `level1`. */
  lemma TwoLevels(g: seq<GraphNode>, pool: seq<nat>, added: seq<nat>, level0: seq<nat>, rest: seq<nat>, level1: seq<nat>)
    requires LayerPre(g, pool, added) && |pool| > 0
    requires Split(g, pool, added).0 == level0 && Split(g, pool, added).1 == rest
    requires LayerPre(g, rest, added + level0) && Levels(g, rest, added + level0) == [level1]
    ensures Levels(g, pool, added) == [level0, level1]
  {
    LevelsUnfold(g, pool, added);
  }
}

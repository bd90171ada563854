/**
 * Sequences of node ids and the few operations on them that the graph code
 * uses: distinctness, orderings of the ids 0..n-1, swapping two positions and
 * JavaScript's `Array.prototype.findIndex` on identity.
 */
module Orderings {

  /** No id occurs twice in `s`. */
  predicate Distinct(s: seq<nat>) {
    forall a, b :: 0 <= a < b < |s| ==> s[a] != s[b]
  }

  /** `s` lists each of the ids 0..n-1 exactly once. */
  predicate IsOrdering(s: seq<nat>, n: nat) {
    && |s| == n
    && Distinct(s)
    && forall k :: 0 <= k < |s| ==> s[k] < n
  }

  /** The ids 0..n-1 in creation order. */
  function Ids(n: nat): (s: seq<nat>)
    ensures IsOrdering(s, n)
    ensures forall k :: 0 <= k < n ==> s[k] == k
  {
    seq(n, k => k)
  }

  /** The set of ids listed in `s`. */
  function Elements(s: seq<nat>): set<nat> {
    set x | x in s
  }

  /** Exchanges the entries at positions `a` and `b`. */
  function Swap(s: seq<nat>, a: nat, b: nat): (r: seq<nat>)
    requires a < |s| && b < |s|
    ensures |r| == |s|
    ensures r[a] == s[b] && r[b] == s[a]
    ensures forall k :: 0 <= k < |s| && k != a && k != b ==> r[k] == s[k]
    ensures multiset(r) == multiset(s)
    ensures Distinct(s) ==> Distinct(r)
  {
    s[a := s[b]][b := s[a]]
  }

  /** A swap keeps an ordering of the ids an ordering of the ids. */
  lemma SwapKeepsOrdering(s: seq<nat>, n: nat, a: nat, b: nat)
    requires IsOrdering(s, n) && a < n && b < n
    ensures IsOrdering(Swap(s, a, b), n)
  {
  }

  /**
   * The first position holding `x`, or -1 when `x` does not occur
   * (`nodes.findIndex((n) => n === x)`).
   */
  function FindIndex(s: seq<nat>, x: nat): (k: int)
    ensures -1 <= k
    ensures k == -1 <==> x !in s
    ensures 0 <= k ==> k < |s| && s[k] == x && x !in s[..k]
  {
    if |s| == 0 then -1
    else if s[0] == x then 0
    else
      var k := FindIndex(s[1..], x);
      if k == -1 then -1
      else
        assert s[..k + 1] == [s[0]] + s[1..][..k];
        k + 1
  }

  lemma {:induction false} DistinctCard(s: seq<nat>)
    requires Distinct(s)
    ensures |Elements(s)| == |s|
  {
    if |s| > 0 {
      var init := s[..|s| - 1];
      assert Distinct(init);
      DistinctCard(init);
      assert Elements(s) == Elements(init) + {s[|s| - 1]};
      assert s[|s| - 1] !in Elements(init);
    } else {
      assert Elements(s) == {};
    }
  }

  lemma {:induction false} SubsetOfEqualSize(a: set<nat>, b: set<nat>)
    requires a <= b && |a| == |b|
    ensures a == b
  {
    if x :| x in b && x !in a {
      assert a <= b - {x};
      SubsetCard(a, b - {x});
      assert false;
    }
  }

  lemma {:induction false} SubsetCard(a: set<nat>, b: set<nat>)
    requires a <= b
    ensures |a| <= |b|
    decreases b
  {
    if a != {} {
      var x :| x in a;
      SubsetCard(a - {x}, b - {x});
    }
  }

  /** Pigeonhole: an ordering of 0..n-1 lists every id below n. */
  lemma OrderingCovers(s: seq<nat>, n: nat)
    requires IsOrdering(s, n)
    ensures forall v :: 0 <= v < n ==> v in s
  {
    var ids := Ids(n);
    DistinctCard(s);
    DistinctCard(ids);
    forall x | x in Elements(s)
      ensures x in Elements(ids)
    {
      assert ids[x] == x;
    }
    SubsetOfEqualSize(Elements(s), Elements(ids));
    forall v | 0 <= v < n
      ensures v in s
    {
      assert ids[v] == v;
      assert v in Elements(ids);
    }
  }

  lemma {:induction false} DistinctMultiplicity(s: seq<nat>, x: nat)
    requires Distinct(s)
    ensures multiset(s)[x] == if x in s then 1 else 0
  {
    if |s| > 0 {
      var init := s[..|s| - 1];
      assert s == init + [s[|s| - 1]];
      assert Distinct(init);
      DistinctMultiplicity(init, x);
    }
  }

  /** Any two orderings of 0..n-1 are permutations of each other. */
  lemma OrderingsArePermutations(s: seq<nat>, t: seq<nat>, n: nat)
    requires IsOrdering(s, n) && IsOrdering(t, n)
    ensures multiset(s) == multiset(t)
  {
    OrderingCovers(s, n);
    OrderingCovers(t, n);
    forall x: nat
      ensures multiset(s)[x] == multiset(t)[x]
    {
      DistinctMultiplicity(s, x);
      DistinctMultiplicity(t, x);
      if x in s {
        var k :| 0 <= k < |s| && s[k] == x;
      }
      if x in t {
        var k :| 0 <= k < |t| && t[k] == x;
      }
    }
  }

  /** A permutation of an ordering of 0..n-1 is again one. */
  lemma PermutationIsOrdering(s: seq<nat>, t: seq<nat>, n: nat)
    requires multiset(s) == multiset(t) && IsOrdering(t, n)
    ensures IsOrdering(s, n)
  {
    assert |s| == |multiset(s)| == |multiset(t)| == |t|;
    forall k | 0 <= k < |s|
      ensures s[k] < n
    {
      assert s[k] in multiset(s);
      assert s[k] in t;
    }
    forall a, b | 0 <= a < b < |s|
      ensures s[a] != s[b]
    {
      DistinctMultiplicity(t, s[b]);
      RepeatMultiplicity(s, a, b);
    }
  }

  /** An id found at two positions occurs at least twice. */
  lemma RepeatMultiplicity(s: seq<nat>, a: nat, b: nat)
    requires a < b < |s|
    ensures s[a] == s[b] ==> multiset(s)[s[b]] >= 2
  {
    assert s == s[..b] + s[b..];
    assert s[..b][a] == s[a];
    assert s[b..][0] == s[b];
  }

  /** `pos` inverts `order`: position k holds `order[k]`, and id v sits at position `pos[v]`. */
  predicate Inverse(order: seq<nat>, pos: seq<nat>) {
    && |pos| == |order|
    && (forall k :: 0 <= k < |order| ==> order[k] < |pos| && pos[order[k]] == k)
    && (forall v :: 0 <= v < |pos| ==> pos[v] < |order| && order[pos[v]] == v)
  }

  lemma InverseIsOrdering(order: seq<nat>, pos: seq<nat>)
    requires Inverse(order, pos)
    ensures IsOrdering(order, |order|)
  {
    forall a, b | 0 <= a < b < |order|
      ensures order[a] != order[b]
    {
      assert pos[order[a]] == a && pos[order[b]] == b;
    }
  }

  /** The positions of the ids in an ordering. */
  ghost function Positions(order: seq<nat>): (pos: seq<nat>)
    requires IsOrdering(order, |order|)
    ensures Inverse(order, pos)
  {
    OrderingCovers(order, |order|);
    var pos := seq(|order|, v requires 0 <= v < |order| => FindIndex(order, v) as nat);
    assert forall k :: 0 <= k < |order| ==> FindIndex(order, order[k]) == k;
    pos
  }

  /** Swapping positions `a` and `b` of `order` swaps the positions of the two ids involved. */
  ghost function SwapPositions(order: seq<nat>, pos: seq<nat>, a: nat, b: nat): (pos': seq<nat>)
    requires Inverse(order, pos) && a < |order| && b < |order|
    ensures Inverse(Swap(order, a, b), pos')
    ensures pos'[order[a]] == b && pos'[order[b]] == a
    ensures forall v :: 0 <= v < |pos| && v != order[a] && v != order[b] ==> pos'[v] == pos[v]
  {
    pos[order[a] := b][order[b] := a]
  }

  /**
   * Swapping the id `c` at position `k` forward to position `j <= k`: `c` now
   * sits at `j`, every id before `j` stays put, and every other id at or
   * after `j` ends up after `j`.
   */
  lemma SwapForward(order: seq<nat>, pos: seq<nat>, c: nat, k: nat, j: nat)
    requires Inverse(order, pos) && c < |pos| && k == pos[c] && j <= k
    ensures var pos' := SwapPositions(order, pos, k, j);
      && Inverse(Swap(order, k, j), pos')
      && pos'[c] == j
      && (forall v :: 0 <= v < |pos| && pos[v] < j ==> pos'[v] == pos[v])
      && (forall v :: 0 <= v < |pos| && pos[v] >= j && v != c ==> pos'[v] > j)
      && (forall x :: 0 <= x < j ==> Swap(order, k, j)[x] == order[x])
  {
    var pos' := SwapPositions(order, pos, k, j);
    assert order[k] == c;
    forall v | 0 <= v < |pos| && pos[v] >= j && v != c
      ensures pos'[v] > j
    {
      assert order[pos[v]] == v;
      if v == order[j] {
        assert k != j;
      }
    }
  }

  /** Concatenation regroups freely (stated once so callers need not unfold nested sequences). */
  lemma Associative<T>(a: seq<T>, b: seq<T>, c: seq<T>)
    ensures (a + b) + c == a + (b + c)
  {
  }

  /** Swapping position `k` forward to `j <= k` extends the prefix before `j` by the entry at `k`. */
  lemma SwapExtendsPrefix(s: seq<nat>, k: nat, j: nat)
    requires j <= k < |s|
    ensures Swap(s, k, j)[..j + 1] == s[..j] + [s[k]]
  {
  }

  /** With an inverse at hand, `findIndex` returns the recorded position. */
  lemma FindIndexIsPosition(order: seq<nat>, pos: seq<nat>, v: nat)
    requires Inverse(order, pos) && v < |pos|
    ensures FindIndex(order, v) == pos[v]
  {
    assert order[pos[v]] == v;
    var k := FindIndex(order, v);
    assert pos[order[k]] == k;
  }
}

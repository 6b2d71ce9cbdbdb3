/**
 * The graph as the shortest-path engine sees it: the dense cost matrix built
 * from the edge list, walks over the nodes of the canvas, their costs, and
 * the facts about them that make Dijkstra's method correct.
 */
module Paths {
  import opened Wrappers
  import opened ExtNats
  import opened GraphStore

  /**
   * The entry `G[a][b]` of the cost matrix after the edges have been written
   * into it in list order, each edge into both of its cells: the cost of the
   * last edge joining the pair, `Inf` if none does.
   */
  function MatrixWeight(es: seq<Edge>, a: nat, b: nat): (r: ExtNat)
  {
    if es == [] then Inf
    else if Joins(es[|es| - 1], a, b) then Fin(es[|es| - 1].cost)
    else MatrixWeight(es[..|es| - 1], a, b)
  }

  /**
   * Later edges overwrite earlier ones: the entry is `Inf` exactly when no edge
   * joins the pair, and otherwise the cost of the last edge that does.
   */
  lemma {:induction false} MatrixWeightIsLastJoin(es: seq<Edge>, a: nat, b: nat)
    ensures MatrixWeight(es, a, b).Inf? <==> forall k :: 0 <= k < |es| ==> !Joins(es[k], a, b)
    ensures MatrixWeight(es, a, b).Fin? ==>
      exists k :: 0 <= k < |es| && Joins(es[k], a, b) && MatrixWeight(es, a, b) == Fin(es[k].cost) &&
        forall j :: k < j < |es| ==> !Joins(es[j], a, b)
  {
    if es != [] {
      var n := |es| - 1;
      if !Joins(es[n], a, b) {
        MatrixWeightIsLastJoin(es[..n], a, b);
        assert forall k :: 0 <= k < n ==> es[..n][k] == es[k];
      }
    }
  }

  /** In a well-formed store the matrix entry is the cost of the one edge joining the pair. */
  lemma {:induction false} MatrixWeightIsEdgeCost(es: seq<Edge>, a: nat, b: nat)
    requires NoDuplicatePairs(es)
    ensures FindEdge(es, a, b).None? ==> MatrixWeight(es, a, b) == Inf
    ensures FindEdge(es, a, b).Some? ==> MatrixWeight(es, a, b) == Fin(es[FindEdge(es, a, b).value].cost)
  {
    if es != [] {
      var n := |es| - 1;
      if Joins(es[n], a, b) {
        UniqueEdge(es, a, b, n);
      } else {
        var init := es[..n];
        assert NoDuplicatePairs(init);
        MatrixWeightIsEdgeCost(init, a, b);
        match FindEdge(init, a, b)
        case None =>
          assert FindEdge(es, a, b).None?;
        case Some(k) =>
          UniqueEdge(es, a, b, k);
      }
    }
  }

  /** A finite matrix entry always comes from an edge of the list. */
  lemma {:induction false} FiniteWeightHasEdge(es: seq<Edge>, a: nat, b: nat)
    requires MatrixWeight(es, a, b).Fin?
    ensures FindEdge(es, a, b).Some?
  {
    var n := |es| - 1;
    if !Joins(es[n], a, b) {
      FiniteWeightHasEdge(es[..n], a, b);
      var k := FindEdge(es[..n], a, b).value;
      assert Joins(es[k], a, b);
    }
  }

  /** The matrix is symmetric, as every edge is written into both of its cells. */
  lemma {:induction false} MatrixWeightSymmetric(es: seq<Edge>, a: nat, b: nat)
    ensures MatrixWeight(es, a, b) == MatrixWeight(es, b, a)
  {
    if es != [] {
      MatrixWeightSymmetric(es[..|es| - 1], a, b);
    }
  }

  /** Flags play no part in the matrix. */
  lemma {:induction false} MatrixWeightIgnoresFlags(es1: seq<Edge>, es2: seq<Edge>, a: nat, b: nat)
    requires UnflaggedEdges(es1) == UnflaggedEdges(es2)
    ensures MatrixWeight(es1, a, b) == MatrixWeight(es2, a, b)
  {
    assert |es1| == |UnflaggedEdges(es1)| == |es2|;
    if es1 != [] {
      var n := |es1| - 1;
      assert UnflaggedEdges(es1)[n] == UnflaggedEdges(es2)[n];
      assert UnflaggedEdges(es1[..n]) == UnflaggedEdges(es1)[..n];
      assert UnflaggedEdges(es2[..n]) == UnflaggedEdges(es2)[..n];
      MatrixWeightIgnoresFlags(es1[..n], es2[..n], a, b);
    }
  }

  /** `p` is a walk from `s` to `t` over nodes in `ids`. */
  ghost predicate IsPath(ids: seq<nat>, s: nat, t: nat, p: seq<nat>)
  {
    |p| > 0 && p[0] == s && p[|p| - 1] == t && forall i :: 0 <= i < |p| ==> p[i] in ids
  }

  /** The cost of a walk: the sum of its matrix entries, `Inf` if it uses a missing edge. */
  ghost function PathCost(es: seq<Edge>, p: seq<nat>): (r: ExtNat)
  {
    if |p| <= 1 then Fin(0)
    else Add(PathCost(es, p[..|p| - 1]), MatrixWeight(es, p[|p| - 2], p[|p| - 1]))
  }

  /** `d` is a lower bound on the cost of every walk from `s` to `t`. */
  ghost predicate Optimal(es: seq<Edge>, ids: seq<nat>, s: nat, t: nat, d: ExtNat)
  {
    forall p :: IsPath(ids, s, t, p) ==> Le(d, PathCost(es, p))
  }

  /** `d` is the shortest-path distance from `s` to `t`: some walk costs `d` and none costs less. */
  ghost predicate ShortestDistance(es: seq<Edge>, ids: seq<nat>, s: nat, t: nat, d: ExtNat)
  {
    (exists p :: IsPath(ids, s, t, p) && PathCost(es, p) == d) && Optimal(es, ids, s, t, d)
  }

  /** Extending a walk by one step adds that step's matrix entry to its cost. */
  lemma PathExtend(es: seq<Edge>, ids: seq<nat>, s: nat, t: nat, p: seq<nat>, v: nat)
    requires IsPath(ids, s, t, p) && v in ids
    ensures IsPath(ids, s, v, p + [v])
    ensures PathCost(es, p + [v]) == Add(PathCost(es, p), MatrixWeight(es, t, v))
  {
    assert (p + [v])[..|p|] == p;
  }

  /** A prefix of a walk costs no more than the walk, as costs are never negative. */
  lemma {:induction false} PrefixCost(es: seq<Edge>, p: seq<nat>, j: nat)
    requires 1 <= j <= |p|
    ensures Le(PathCost(es, p[..j]), PathCost(es, p))
  {
    if j < |p| {
      var init := p[..|p| - 1];
      PrefixCost(es, init, j);
      assert init[..j] == p[..j];
    } else {
      assert p[..j] == p;
    }
  }

  /** A walk that starts inside `R` and ends outside it has a step that leaves `R`. */
  lemma FirstExit(p: seq<nat>, R: set<nat>) returns (k: nat)
    requires |p| > 0 && p[0] in R && p[|p| - 1] !in R
    ensures k + 1 < |p| && p[k] in R && p[k + 1] !in R
  {
    k := 0;
    while p[k + 1] in R
      invariant k + 1 < |p| && p[k] in R
      decreases |p| - k
    {
      k := k + 1;
    }
  }

  /**
   * The key step of Dijkstra's method. Let the settled set `R` contain the
   * source, carry exact distances (`Optimal`), and let every unsettled node's
   * distance be relaxed over every settled node. Then every walk from the
   * source to an unsettled node costs at least any lower bound `m` of the
   * unsettled nodes' distances.
   */
  lemma CrossingBound(es: seq<Edge>, ids: seq<nat>, s: nat, R: set<nat>, dist: map<nat, ExtNat>,
                      t: nat, p: seq<nat>, m: ExtNat)
    requires s in R && t !in R && IsPath(ids, s, t, p)
    requires forall v :: v in ids ==> v in dist
    requires forall x :: x in R ==> x in dist && Optimal(es, ids, s, x, dist[x])
    requires forall x, y :: x in R && y in ids && y !in R ==> Le(dist[y], Add(dist[x], MatrixWeight(es, x, y)))
    requires forall y :: y in ids && y !in R ==> Le(m, dist[y])
    ensures Le(m, PathCost(es, p))
  {
    var k := FirstExit(p, R);
    var x, y := p[k], p[k + 1];
    assert IsPath(ids, s, x, p[..k + 1]);
    ExitStepCost(es, p, k);
    assert Le(dist[x], PathCost(es, p[..k + 1]));
    assert Le(m, dist[y]) && Le(dist[y], Add(dist[x], MatrixWeight(es, x, y)));
  }

  /** The walk up to and including the step `p[k]`-`p[k + 1]` costs its head plus that step, and at most the walk. */
  lemma ExitStepCost(es: seq<Edge>, p: seq<nat>, k: nat)
    requires k + 1 < |p|
    ensures PathCost(es, p[..k + 2]) == Add(PathCost(es, p[..k + 1]), MatrixWeight(es, p[k], p[k + 1]))
    ensures Le(PathCost(es, p[..k + 2]), PathCost(es, p))
  {
    assert p[..k + 2][..k + 1] == p[..k + 1];
    PrefixCost(es, p, k + 2);
  }
}

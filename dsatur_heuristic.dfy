/**
 * The DSATUR heuristic of the benchmark (Brelaz, 1979): repeatedly colour
 * the uncoloured vertex seeing most distinct colours, ties going to the one
 * with most uncoloured neighbours, with the smallest colour its neighbours
 * leave free.
 */
module DsaturHeuristic {
  import opened Collections
  import opened Graphs
  import opened UncolouredNeighbours
  import Heuristics

  /** `(saturation, uncoloured degree)` of `i` ranks no higher than that of `u`. */
  predicate RanksBelow(adjColors: seq<set<int>>, uncAdj: seq<set<int>>, i: int, u: int)
    requires 0 <= i < |adjColors| == |uncAdj| && 0 <= u < |adjColors|
  {
    |adjColors[i]| < |adjColors[u]| || (|adjColors[i]| == |adjColors[u]| && |uncAdj[i]| <= |uncAdj[u]|)
  }

  /**
   * The selection loop: a vertex of `U` of largest saturation, and among
   * those of largest uncoloured degree. The source keeps the first such
   * vertex in its set's iteration order, which is not specified; any of
   * them may come back.
   */
  method SelectVertex(U: set<int>, adjColors: seq<set<int>>, uncAdj: seq<set<int>>) returns (u: int)
    requires U != {} && |adjColors| == |uncAdj| && forall i :: i in U ==> 0 <= i < |adjColors|
    ensures u in U && forall i :: i in U ==> RanksBelow(adjColors, uncAdj, i, u)
  {
    var maxColors: int := -1;
    var maxUncolored: int := -1;
    u := -1;
    var rest := U;
    ghost var done: set<int> := {};
    ghost var some: int;
    while rest != {}
      invariant done + rest == U
      invariant done == {} ==> maxColors == -1
      invariant done != {} ==> u in done && maxColors == |adjColors[u]| && maxUncolored == |uncAdj[u]|
      invariant forall i :: i in done ==> RanksBelow(adjColors, uncAdj, i, u)
      decreases |rest|
    {
      some := ChooseMember(rest);
      var i :| i in rest;
      var n := |adjColors[i]|;
      if n > maxColors {
        maxColors := n;
        maxUncolored := -1;
      }
      if n == maxColors {
        var adjUncolored := |uncAdj[i]|;
        if adjUncolored > maxUncolored {
          u := i;
          maxUncolored := adjUncolored;
        }
      }
      rest := rest - {i};
      done := done + {i};
    }
  }

  /** `adj_colors` after `u` took colour `k`: every uncoloured neighbour of `u` now sees `k`. */
  function Saw(adjColors: seq<set<int>>, uncAdj: seq<set<int>>, u: int, k: int): (r: seq<set<int>>)
    requires 0 <= u < |uncAdj| == |adjColors|
    ensures |r| == |adjColors|
  {
    seq(|adjColors|, v requires 0 <= v < |adjColors| => if v in uncAdj[u] && v != u then adjColors[v] + {k} else adjColors[v])
  }

  /** The update loop after colouring `u` with `k`; `remove` needs `u` in every other listed set. */
  method Update(uncAdj: seq<set<int>>, adjColors: seq<set<int>>, u: int, k: int)
    returns (uncAdj': seq<set<int>>, adjColors': seq<set<int>>)
    requires 0 <= u < |uncAdj| == |adjColors|
    requires forall i :: i in uncAdj[u] ==> 0 <= i < |uncAdj|
    requires forall i :: i in uncAdj[u] && i != u ==> u in uncAdj[i]
    ensures uncAdj' == Detached(uncAdj, u) && adjColors' == Saw(adjColors, uncAdj, u, k)
  {
    uncAdj', adjColors' := uncAdj, adjColors;
    var rest := uncAdj[u];
    ghost var done: set<int> := {};
    ghost var some: int;
    while rest != {}
      invariant done + rest == uncAdj[u] && done !! rest
      invariant |uncAdj'| == |uncAdj| && |adjColors'| == |adjColors|
      invariant forall v :: 0 <= v < |uncAdj| ==> uncAdj'[v] == if v in done && v != u then uncAdj[v] - {u} else uncAdj[v]
      invariant forall v :: 0 <= v < |uncAdj| ==> adjColors'[v] == if v in done && v != u then adjColors[v] + {k} else adjColors[v]
      decreases |rest|
    {
      some := ChooseMember(rest);
      var i :| i in rest;
      if i != u {
        assert u in uncAdj'[i];
        uncAdj' := uncAdj'[i := uncAdj'[i] - {u}];
        adjColors' := adjColors'[i := adjColors'[i] + {k}];
      }
      rest := rest - {i};
      done := done + {i};
    }
  }

  /** `adj_colors[v]` holds the colours around every uncoloured `v`. */
  predicate Sees(adj: Graph, color: seq<int>, adjColors: seq<set<int>>)
    requires |color| == |adj| && GraphOk(adj)
  {
    |adjColors| == |adj| &&
    forall v :: 0 <= v < |adj| && color[v] == -1 ==> adjColors[v] == Heuristics.AdjColors(color, adj[v])
  }

  /**
   * What the colouring satisfies between steps: colours lie in [0, K) and
   * are all used, distinct neighbours differ, and each coloured vertex
   * wears the smallest colour its neighbours leave free.
   */
  predicate Coloured(adj: Graph, color: seq<int>, K: int)
    requires |color| == |adj| && GraphOk(adj)
  {
    && (forall v :: 0 <= v < |color| && color[v] != -1 ==> 0 <= color[v] < K)
    && (forall k :: 0 <= k < K ==> Used(color, k))
    && ProperApartFromLoops(adj, color)
    && (forall v :: 0 <= v < |color| && color[v] != -1 ==> Heuristics.Greedy(adj, color, v))
  }

  /** Colouring `u` with the first colour its neighbours leave free keeps `Sees` and `Coloured`. */
  lemma ColourKeepsInvariant(adj: Graph, color: seq<int>, uncAdj: seq<set<int>>, adjColors: seq<set<int>>, K: int, u: int, k: int)
    requires |color| == |adj| && GraphOk(adj) && Symmetric(adj) && K >= 0
    requires 0 <= u < |adj| && color[u] == -1
    requires Tracks(adj, color, uncAdj) && Sees(adj, color, adjColors) && Coloured(adj, color, K)
    requires k == Heuristics.FirstFree(adjColors[u], 0, K)
    ensures var K' := if k == K then K + 1 else K;
      Sees(adj, color[u := k], Saw(adjColors, uncAdj, u, k)) && Coloured(adj, color[u := k], K')
  {
    var color' := color[u := k];
    var K' := if k == K then K + 1 else K;
    var r := Saw(adjColors, uncAdj, u, k);
    forall v | 0 <= v < |adj| && color'[v] == -1
      ensures r[v] == Heuristics.AdjColors(color', adj[v])
    {
      if u in adj[v] {
        assert v in adj[u];
        assert v in uncAdj[u];
      }
    }
    assert color'[u] == k;
    forall j | 0 <= j < K'
      ensures Used(color', j)
    {
      if j < K {
        assert Used(color, j);
        var v :| 0 <= v < |color| && color[v] == j;
        assert v != u;
        assert color'[v] == j;
      }
    }
    Heuristics.FirstFreeKeepsGreedy(adj, color, u, K);
  }

  /** One step of the main loop: select, colour, update. */
  method Step(adj: Graph, color: seq<int>, uncAdj: seq<set<int>>, adjColors: seq<set<int>>, U: set<int>, K: int)
    returns (color': seq<int>, uncAdj': seq<set<int>>, adjColors': seq<set<int>>, U': set<int>, K': int)
    requires |color| == |adj| && GraphOk(adj) && Symmetric(adj) && K >= 0
    requires U != {} && U == Uncoloured(color)
    requires Tracks(adj, color, uncAdj) && Sees(adj, color, adjColors) && Coloured(adj, color, K)
    ensures |color'| == |adj| && U' == Uncoloured(color') && U' < U && K <= K' <= K + 1 && K' >= 0
    ensures Tracks(adj, color', uncAdj') && Sees(adj, color', adjColors') && Coloured(adj, color', K')
  {
    var u := SelectVertex(U, adjColors, uncAdj);
    var k := Heuristics.SmallestFree(adjColors[u], K);
    K' := if k == K then K + 1 else K;
    color' := color[u := k];
    ColourKeepsTracks(adj, color, uncAdj, u, k);
    ColourKeepsInvariant(adj, color, uncAdj, adjColors, K, u, k);
    uncAdj', adjColors' := Update(uncAdj, adjColors, u, k);
    U' := U - {u};
  }

  /**
   * `dsatur` on the vertices 0..n-1: every vertex ends up coloured with one
   * of the colours 0..K-1, each of which is used, K does not exceed the
   * number of vertices, no edge between distinct vertices joins equal
   * colours, and every vertex wears the smallest colour its neighbours
   * leave free.
   */
  method Dsatur(nodes: seq<int>, adj: Graph) returns (color: seq<int>, K: int)
    requires |adj| == |nodes| && (forall k :: 0 <= k < |nodes| ==> nodes[k] == k)
    requires GraphOk(adj) && Symmetric(adj)
    ensures |color| == |adj| && ColoursBelow(color, K) && 0 <= K <= |adj|
    ensures forall k :: 0 <= k < K ==> Used(color, k)
    ensures ProperApartFromLoops(adj, color)
    ensures forall v :: 0 <= v < |color| ==> Heuristics.Greedy(adj, color, v)
    ensures Loopless(adj) ==> ProperPrefix(adj, color)
  {
    var n := |nodes|;
    var uncAdj := seq(n, i requires 0 <= i < n => adj[i]);
    var adjColors: seq<set<int>> := seq(n, _ => {});
    color := seq(n, _ => -1);
    K := 0;
    var U := set k | 0 <= k < n :: nodes[k];
    forall v | 0 <= v < n
      ensures v in U
    {
      assert nodes[v] == v;
    }
    AllUncoloured(n);
    while U != {}
      invariant |color| == n && U == Uncoloured(color) && 0 <= K && K + |U| <= n
      invariant Tracks(adj, color, uncAdj) && Sees(adj, color, adjColors) && Coloured(adj, color, K)
      decreases |U|
    {
      ghost var U0 := U;
      color, uncAdj, adjColors, U, K := Step(adj, color, uncAdj, adjColors, U, K);
      ProperSubsetSmaller(U, U0);
    }
    forall v | 0 <= v < n
      ensures color[v] != -1
    {
      assert v !in Uncoloured(color);
    }
  }
}

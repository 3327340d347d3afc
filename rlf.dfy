/**
 * The recursive largest fit heuristic (Leighton, 1979) of the benchmark:
 * colour classes are built one at a time, each grown greedily from the
 * uncoloured vertex with most uncoloured neighbours.
 */
module LargestFit {
  import opened Wrappers
  import opened Collections
  import opened Graphs
  import opened UncolouredNeighbours

  /** The error Python raises when a set is changed while a loop runs over it. */
  datatype Fault = SetChangedSize

  /**
   * A vertex of `vs` with the largest score. The source keeps the first
   * such vertex in its set's iteration order; as that order is not
   * specified, any vertex of largest score may come back.
   */
  method PickMax(vs: set<int>, score: int -> nat) returns (u: int)
    requires vs != {}
    ensures u in vs && forall i :: i in vs ==> score(i) <= score(u)
  {
    var maxEdges: int := -1;
    u := -1;
    var rest := vs;
    ghost var done: set<int> := {};
    ghost var some: int;
    while rest != {}
      invariant done + rest == vs
      invariant done == {} ==> maxEdges == -1
      invariant done != {} ==> u in done && maxEdges == score(u)
      invariant forall i :: i in done ==> score(i) <= maxEdges
      decreases |rest|
    {
      some := ChooseMember(rest);
      var i :| i in rest;
      var n := score(i);
      if n > maxEdges {
        maxEdges := n;
        u := i;
      }
      rest := rest - {i};
      done := done + {i};
    }
  }

  /**
   * Phase 1's removal loop as written: it runs over `unc_adj[u]` and removes
   * `u` from each listed set, so a self-loop on `u` changes the set being
   * run over and Python stops with an error.
   */
  function DetachAsWritten(uncAdj: seq<set<int>>, u: int): (r: Result<seq<set<int>>, Fault>)
    requires 0 <= u < |uncAdj|
    ensures r.Err? <==> u in uncAdj[u]
    ensures r.Ok? ==> r.value == Detached(uncAdj, u)
  {
    if u in uncAdj[u] then Err(SetChangedSize) else Ok(Detached(uncAdj, u))
  }

  /** On the one-vertex graph with a self-loop, phase 1 as written stops with an error. */
  lemma SelfLoopStopsPhaseOne()
    ensures DetachAsWritten([{0}], 0) == Err(SetChangedSize)
    ensures Detached([{0}], 0) == [{0}]
  {
  }

  /**
   * Without a self-loop on the picked vertex, phase 1 as written removes the
   * same entries and builds the same `U` and `V` as the corrected phase 1.
   */
  lemma PhaseOneAgreesWithoutLoop(adj: Graph, color: seq<int>, uncAdj: seq<set<int>>, V: set<int>, u: int)
    requires |color| == |adj| && GraphOk(adj) && Tracks(adj, color, uncAdj)
    requires V == Uncoloured(color) && u in V && u !in adj[u]
    ensures DetachAsWritten(uncAdj, u) == Ok(Detached(uncAdj, u))
    ensures uncAdj[u] == uncAdj[u] * (V - {u})
    ensures (V - {u}) - uncAdj[u] == (V - {u}) - uncAdj[u] * (V - {u})
  {
    assert uncAdj[u] == UncolouredAround(adj, color, u);
  }

  /**
   * The removal loop skipping `u` itself, as phase 2 writes it and as phase 1
   * evidently intends; `remove` needs `u` in every other listed set.
   */
  method Detach(uncAdj: seq<set<int>>, u: int) returns (r: seq<set<int>>)
    requires 0 <= u < |uncAdj|
    requires forall i :: i in uncAdj[u] ==> 0 <= i < |uncAdj|
    requires forall i :: i in uncAdj[u] && i != u ==> u in uncAdj[i]
    ensures r == Detached(uncAdj, u)
  {
    r := uncAdj;
    var rest := uncAdj[u];
    ghost var done: set<int> := {};
    ghost var some: int;
    while rest != {}
      invariant done + rest == uncAdj[u] && done !! rest
      invariant |r| == |uncAdj|
      invariant forall v :: 0 <= v < |r| ==> r[v] == if v in done && v != u then uncAdj[v] - {u} else uncAdj[v]
      decreases |rest|
    {
      some := ChooseMember(rest);
      var i :| i in rest;
      if u != i {
        assert u in r[i];
        r := r[i := r[i] - {u}];
      }
      rest := rest - {i};
      done := done + {i};
    }
  }

  /** What holds between colour classes: colours below `K` are used, and the colouring is proper. */
  predicate Classes(adj: Graph, color: seq<int>, K: int)
    requires |color| == |adj|
  {
    && (forall v :: 0 <= v < |color| && color[v] != -1 ==> 0 <= color[v] <= K)
    && (forall k :: 0 <= k < K ==> Used(color, k))
    && ProperApartFromLoops(adj, color)
  }

  /** Every uncoloured neighbour of a vertex of class `K` is in `U`. */
  predicate Blocked(adj: Graph, color: seq<int>, K: int, U: set<int>)
    requires |color| == |adj| && GraphOk(adj)
  {
    forall c, w :: 0 <= c < |adj| && color[c] == K && w in adj[c] && w != c && color[w] == -1 ==> w in U
  }

  /**
   * Colours `u` with `K`, detaches it from its uncoloured neighbours and moves
   * those still in `V` to `U`, as they can no longer join class `K`.
   */
  method ColourVertex(adj: Graph, color: seq<int>, uncAdj: seq<set<int>>, V: set<int>, U: set<int>, K: int, u: int)
    returns (color': seq<int>, uncAdj': seq<set<int>>, V': set<int>, U': set<int>)
    requires |color| == |adj| && GraphOk(adj) && Symmetric(adj) && K >= 0
    requires u in V && V !! U && V + U == Uncoloured(color)
    requires Tracks(adj, color, uncAdj) && Classes(adj, color, K) && Blocked(adj, color, K, U)
    ensures |color'| == |adj| && V' !! U' && V' + U' == Uncoloured(color') && |V'| < |V|
    ensures Uncoloured(color') < Uncoloured(color)
    ensures Tracks(adj, color', uncAdj') && Classes(adj, color', K) && Blocked(adj, color', K, U')
    ensures Used(color', K)
  {
    V' := V - {u};
    color' := color[u := K];
    ColourKeepsTracks(adj, color, uncAdj, u, K);
    uncAdj' := Detach(uncAdj, u);
    var notColoured := uncAdj'[u] * V';
    V' := V' - notColoured;
    U' := U + notColoured;
    Repartition(V, U, u, uncAdj'[u]);
    JoinClass(adj, color, uncAdj, V, U, K, u);
  }

  /** One step of phase 2: colour the vertex of `V` with most neighbours in `U`. */
  method GrowClass(adj: Graph, color: seq<int>, uncAdj: seq<set<int>>, V: set<int>, U: set<int>, K: int)
    returns (color': seq<int>, uncAdj': seq<set<int>>, V': set<int>, U': set<int>)
    requires |color| == |adj| && GraphOk(adj) && Symmetric(adj) && K >= 0
    requires V != {} && V !! U && V + U == Uncoloured(color)
    requires Tracks(adj, color, uncAdj) && Classes(adj, color, K) && Blocked(adj, color, K, U)
    ensures |color'| == |adj| && V' !! U' && V' + U' == Uncoloured(color') && |V'| < |V|
    ensures Uncoloured(color') < Uncoloured(color)
    ensures Tracks(adj, color', uncAdj') && Classes(adj, color', K) && Blocked(adj, color', K, U')
    ensures Used(color', K)
  {
    var u := PickMax(V, i => if 0 <= i < |uncAdj| then |uncAdj[i] * U| else 0);
    color', uncAdj', V', U' := ColourVertex(adj, color, uncAdj, V, U, K, u);
  }

  /**
   * Moving `u` out of `V` and the members of `N` from `V` to `U` keeps the
   * two apart, loses only `u`, and shrinks `V`.
   */
  lemma Repartition(V: set<int>, U: set<int>, u: int, N: set<int>)
    requires u in V && V !! U
    ensures var W := V - {u}; var moved := N * W;
      && (W - moved) !! (U + moved)
      && (W - moved) + (U + moved) == (V + U) - {u}
      && W - moved == W - N
      && |W - moved| < |V|
  {
    var W := V - {u};
    ProperSubsetSmaller(W - N * W, V);
  }

  /** Colouring `u` with `K` keeps the classes apart and its uncoloured neighbours out of class `K`. */
  lemma JoinClass(adj: Graph, color: seq<int>, uncAdj: seq<set<int>>, V: set<int>, U: set<int>, K: int, u: int)
    requires |color| == |adj| && GraphOk(adj) && Symmetric(adj) && K >= 0
    requires u in V && V !! U && V + U == Uncoloured(color)
    requires Tracks(adj, color, uncAdj) && Classes(adj, color, K) && Blocked(adj, color, K, U)
    ensures var color' := color[u := K];
      Classes(adj, color', K) && Blocked(adj, color', K, U + uncAdj[u] * (V - {u})) && Used(color', K)
  {
    var color' := color[u := K];
    var U' := U + uncAdj[u] * (V - {u});
    assert color'[u] == K;
    forall c, w | 0 <= c < |adj| && color'[c] == K && w in adj[c] && w != c && color'[w] == -1
      ensures w in U'
    {
      if c == u {
        assert w in UncolouredAround(adj, color, u);
      }
    }
    forall v, w | 0 <= v < |adj| && w in adj[v] && 0 <= w < |adj| && w != v && color'[v] != -1 && color'[w] != -1
      ensures color'[v] != color'[w]
    {
    }
    forall k | 0 <= k < K
      ensures Used(color', k)
    {
      assert Used(color, k);
      var v :| 0 <= v < |color| && color[v] == k;
      assert color'[v] == k;
    }
  }

  /** Phase 2: grow class `K` until no vertex can join it. */
  method CompleteClass(adj: Graph, color: seq<int>, uncAdj: seq<set<int>>, V: set<int>, U: set<int>, K: int)
    returns (color': seq<int>, uncAdj': seq<set<int>>, U': set<int>)
    requires |color| == |adj| && GraphOk(adj) && Symmetric(adj) && K >= 0
    requires V !! U && V + U == Uncoloured(color)
    requires Tracks(adj, color, uncAdj) && Classes(adj, color, K) && Blocked(adj, color, K, U)
    ensures |color'| == |adj| && U' == Uncoloured(color') && Uncoloured(color') <= Uncoloured(color)
    ensures Tracks(adj, color', uncAdj') && Classes(adj, color', K)
    ensures Used(color, K) ==> Used(color', K)
  {
    color', uncAdj', U' := color, uncAdj, U;
    var V' := V;
    while V' != {}
      invariant |color'| == |adj| && V' !! U' && V' + U' == Uncoloured(color') && Uncoloured(color') <= Uncoloured(color)
      invariant Tracks(adj, color', uncAdj') && Classes(adj, color', K) && Blocked(adj, color', K, U')
      invariant Used(color, K) ==> Used(color', K)
      decreases |V'|
    {
      color', uncAdj', V', U' := GrowClass(adj, color', uncAdj', V', U', K);
    }
  }

  /**
   * Phase 1: colour the uncoloured vertex with most uncoloured neighbours
   * with the new colour `K`; its uncoloured neighbours cannot join the class.
   */
  method StartClass(adj: Graph, color: seq<int>, uncAdj: seq<set<int>>, V: set<int>, K: int)
    returns (color': seq<int>, uncAdj': seq<set<int>>, V': set<int>, U: set<int>)
    requires |color| == |adj| && GraphOk(adj) && Symmetric(adj) && K >= 0
    requires V != {} && V == Uncoloured(color)
    requires Tracks(adj, color, uncAdj) && Classes(adj, color, K) && !Used(color, K)
    ensures |color'| == |adj| && V' !! U && V' + U == Uncoloured(color') && Uncoloured(color') < Uncoloured(color)
    ensures Tracks(adj, color', uncAdj') && Classes(adj, color', K) && Blocked(adj, color', K, U) && Used(color', K)
  {
    var u := PickMax(V, i => if 0 <= i < |uncAdj| then |uncAdj[i]| else 0);
    NoClassYet(adj, color, K);
    color', uncAdj', V', U := ColourVertex(adj, color, uncAdj, V, {}, K, u);
  }

  /** Before phase 1 no vertex has colour `K`, so nothing blocks it. */
  lemma NoClassYet(adj: Graph, color: seq<int>, K: int)
    requires |color| == |adj| && GraphOk(adj) && !Used(color, K)
    ensures Blocked(adj, color, K, {})
  {
    forall c | 0 <= c < |adj|
      ensures color[c] != K
    {
      if color[c] == K {
        assert Used(color, K);
      }
    }
  }

  /**
   * `recursive_largest_fit` on the vertices 0..n-1, with the self-loop
   * correction to phase 1: every vertex ends up coloured with one of
   * the colours 0..K-1, each of which is used, K does not exceed the
   * number of vertices, and no edge between distinct vertices joins
   * equal colours.
   */
  method RecursiveLargestFit(nodes: seq<int>, adj: Graph) returns (color: seq<int>, K: int)
    requires |adj| == |nodes| && (forall k :: 0 <= k < |nodes| ==> nodes[k] == k)
    requires GraphOk(adj) && Symmetric(adj)
    ensures |color| == |adj| && ColoursBelow(color, K) && 0 <= K <= |adj|
    ensures forall k :: 0 <= k < K ==> Used(color, k)
    ensures ProperApartFromLoops(adj, color)
    ensures Loopless(adj) ==> ProperPrefix(adj, color)
  {
    var n := |nodes|;
    K := 0;
    color := seq(n, _ => -1);
    var uncAdj := seq(n, i requires 0 <= i < n => adj[i]);
    var V := set k | 0 <= k < n :: nodes[k];
    forall v | 0 <= v < n
      ensures v in V
    {
      assert nodes[v] == v;
    }
    AllUncoloured(n);
    while V != {}
      invariant |color| == n && V == Uncoloured(color) && 0 <= K && K + |V| <= n
      invariant Tracks(adj, color, uncAdj) && Classes(adj, color, K) && !Used(color, K)
      invariant forall v :: 0 <= v < n && color[v] != -1 ==> color[v] < K
      decreases |V|
    {
      var U;
      ghost var V0 := V;
      color, uncAdj, V, U := StartClass(adj, color, uncAdj, V, K);
      color, uncAdj, U := CompleteClass(adj, color, uncAdj, V, U, K);
      ProperSubsetSmaller(Uncoloured(color), V0);
      V := U;
      K := K + 1;
      assert forall v :: 0 <= v < |color| ==> color[v] != K;
    }
    forall v | 0 <= v < n
      ensures color[v] != -1
    {
      assert v !in Uncoloured(color);
    }
  }
}

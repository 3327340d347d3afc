/**
 * The `unc_adj` lists both colouring heuristics keep: for each uncoloured
 * vertex, the set of its neighbours that are still uncoloured.
 */
module UncolouredNeighbours {
  import opened Collections
  import opened Graphs

  /** The uncoloured neighbours of `v`. */
  function UncolouredAround(adj: Graph, color: seq<int>, v: int): set<int>
    requires |color| == |adj| && GraphOk(adj) && 0 <= v < |adj|
  {
    set w | w in adj[v] && color[w] == -1
  }

  /** `unc_adj[v]` holds the uncoloured neighbours of every uncoloured `v`. */
  predicate Tracks(adj: Graph, color: seq<int>, uncAdj: seq<set<int>>)
    requires |color| == |adj| && GraphOk(adj)
  {
    |uncAdj| == |adj| &&
    forall v :: 0 <= v < |adj| && color[v] == -1 ==> uncAdj[v] == UncolouredAround(adj, color, v)
  }

  /** `unc_adj` after the coloured vertex `u` has been taken out of its uncoloured neighbours' sets. */
  function Detached(uncAdj: seq<set<int>>, u: int): (r: seq<set<int>>)
    requires 0 <= u < |uncAdj|
    ensures |r| == |uncAdj| && r[u] == uncAdj[u]
  {
    seq(|uncAdj|, v requires 0 <= v < |uncAdj| => if v in uncAdj[u] && v != u then uncAdj[v] - {u} else uncAdj[v])
  }

  /** Colouring `u` with `K` and detaching it keeps `unc_adj` tracking the uncoloured neighbours. */
  lemma ColourKeepsTracks(adj: Graph, color: seq<int>, uncAdj: seq<set<int>>, u: int, K: int)
    requires |color| == |adj| && GraphOk(adj) && Symmetric(adj) && Tracks(adj, color, uncAdj)
    requires 0 <= u < |adj| && color[u] == -1 && K >= 0
    ensures Tracks(adj, color[u := K], Detached(uncAdj, u))
    ensures Uncoloured(color[u := K]) == Uncoloured(color) - {u} && Uncoloured(color[u := K]) < Uncoloured(color)
    ensures forall i :: i in uncAdj[u] ==> 0 <= i < |uncAdj|
    ensures forall i :: i in uncAdj[u] && i != u ==> u in uncAdj[i]
  {
    assert u in Uncoloured(color);
    forall i | i in uncAdj[u] && i != u
      ensures u in uncAdj[i]
    {
      assert u in adj[i];
    }
    var color' := color[u := K];
    var r := Detached(uncAdj, u);
    forall v | 0 <= v < |adj| && color'[v] == -1
      ensures r[v] == UncolouredAround(adj, color', v)
    {
      if u in adj[v] {
        assert v in adj[u];
      }
    }
  }

  /** The graph's vertices, all uncoloured at the start. */
  lemma AllUncoloured(n: nat)
    ensures |Uncoloured(seq(n, _ => -1))| <= n
  {
    WithinRange(Uncoloured(seq(n, _ => -1)), n);
  }
}

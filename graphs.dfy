/**
 * Graphs as adjacency lists, `graph[v]` holding the neighbours of vertex `v`
 * (the `list[set[int]]` shape used by the colouring domains and the
 * benchmark).
 */
module Graphs {
  type Graph = seq<set<int>>

  /** Every neighbour index names a vertex of the graph. */
  predicate GraphOk(graph: Graph)
  {
    forall v, u :: 0 <= v < |graph| && u in graph[v] ==> 0 <= u < |graph|
  }

  /** Every edge is listed in both directions. */
  predicate Symmetric(graph: Graph)
  {
    forall v, u :: 0 <= v < |graph| && u in graph[v] && 0 <= u < |graph| ==> v in graph[u]
  }

  /** No vertex is its own neighbour. */
  predicate Loopless(graph: Graph)
  {
    forall v :: 0 <= v < |graph| ==> v !in graph[v]
  }

  /**
   * No vertex of the colouring's prefix shares its colour with a neighbour
   * inside the prefix; neighbours beyond the colouring's length are not
   * looked at, and a self-loop on a coloured vertex makes it fail.
   */
  predicate ProperPrefix(graph: Graph, color: seq<int>)
    requires |color| <= |graph|
  {
    forall i, j :: 0 <= i < |color| && j in graph[i] && 0 <= j < |color| ==> color[i] != color[j]
  }

  /** Every colour lies in [0, k). */
  predicate ColoursBelow(color: seq<int>, k: int)
  {
    forall i :: 0 <= i < |color| ==> 0 <= color[i] < k
  }

  /** The colours in lo..hi that are not in `taken`, ascending. */
  function Offered(taken: set<int>, lo: int, hi: int): seq<int>
    decreases hi - lo + 1
  {
    if lo > hi then []
    else if lo in taken then Offered(taken, lo + 1, hi)
    else [lo] + Offered(taken, lo + 1, hi)
  }

  /** `Offered` lists exactly the colours of lo..hi outside `taken`. */
  lemma {:induction false} OfferedMembers(taken: set<int>, lo: int, hi: int, c: int)
    ensures c in Offered(taken, lo, hi) <==> lo <= c <= hi && c !in taken
    decreases hi - lo + 1
  {
    if lo <= hi {
      OfferedMembers(taken, lo + 1, hi, c);
    }
  }

  /** `Offered` lists its colours in strictly ascending order. */
  lemma {:induction false} OfferedIncreasing(taken: set<int>, lo: int, hi: int)
    ensures forall i, j :: 0 <= i < j < |Offered(taken, lo, hi)| ==> Offered(taken, lo, hi)[i] < Offered(taken, lo, hi)[j]
    decreases hi - lo + 1
  {
    if lo <= hi {
      var rest := Offered(taken, lo + 1, hi);
      OfferedIncreasing(taken, lo + 1, hi);
      forall k | 0 <= k < |rest|
        ensures lo < rest[k]
      {
        OfferedMembers(taken, lo + 1, hi, rest[k]);
      }
    }
  }

  /** The vertices a colouring leaves uncoloured (colour -1). */
  function Uncoloured(color: seq<int>): set<int>
  {
    set v | 0 <= v < |color| && color[v] == -1
  }

  /** Colour `k` is worn by some vertex. */
  predicate Used(color: seq<int>, k: int)
  {
    exists v :: 0 <= v < |color| && color[v] == k
  }

  /**
   * No two distinct adjacent coloured vertices share a colour; a vertex's
   * edge to itself is not looked at.
   */
  predicate ProperApartFromLoops(graph: Graph, color: seq<int>)
    requires |color| == |graph|
  {
    forall v, w :: 0 <= v < |color| && w in graph[v] && 0 <= w < |color| && w != v && color[v] != -1 && color[w] != -1 ==>
      color[v] != color[w]
  }
}

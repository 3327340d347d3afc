/**
 * The benchmark's colouring checker (`check_coloring` in benchmark/main.py)
 * and the colour count it reports for a result
 * (`BenchmarkResult.color_count`).
 */
module Benchmark {
  import opened Wrappers
  import opened Collections
  import opened Graphs

  /** Every neighbour index is non-negative, so Python never reads it from the end of the list. */
  predicate NonNegativeNeighbours(edges: Graph)
  {
    forall v, u :: 0 <= v < |edges| && u in edges[v] ==> u >= 0
  }

  /**
   * `check_coloring`: with `complete`, the colouring must cover every
   * vertex; and no coloured vertex may share its colour with a neighbour
   * inside the colouring. Indexing `edges` by the colouring's positions
   * needs the colouring to be no longer than the vertex list.
   */
  method CheckColoring(edges: Graph, coloring: seq<int>, complete: bool) returns (b: bool)
    requires NonNegativeNeighbours(edges)
    requires complete || |coloring| <= |edges|
    ensures b <==> (!complete || |coloring| == |edges|) && |coloring| <= |edges| && ProperPrefix(edges, coloring)
  {
    if complete && |coloring| != |edges| {
      return false;
    }
    for index := 0 to |coloring|
      invariant forall i, j :: 0 <= i < index && j in edges[i] && 0 <= j < |coloring| ==> coloring[i] != coloring[j]
    {
      var color := coloring[index];
      var rest := edges[index];
      ghost var done: set<int> := {};
      ghost var some: int;
      while rest != {}
        invariant done + rest == edges[index]
        invariant forall j :: j in done && 0 <= j < |coloring| ==> coloring[j] != color
        decreases |rest|
      {
        some := ChooseMember(rest);
        var neighbor :| neighbor in rest;
        if neighbor < |coloring| && coloring[neighbor] == color {
          return false;
        }
        rest := rest - {neighbor};
        done := done + {neighbor};
      }
    }
    return true;
  }

  /** A vertex with a self-loop fails the check whenever the colouring covers it. */
  lemma SelfLoopFails(edges: Graph, coloring: seq<int>, v: int)
    requires |coloring| <= |edges| && 0 <= v < |coloring| && v in edges[v]
    ensures !ProperPrefix(edges, coloring)
  {
    assert coloring[v] in coloring;
  }

  /** The error Python raises for `max` of an empty list. */
  datatype Fault = EmptyColoring

  /** The largest colour of a non-empty colouring. */
  function MaxColour(coloring: seq<int>): (m: int)
    requires coloring != []
    ensures m in coloring && forall c :: c in coloring ==> c <= m
  {
    if |coloring| == 1 then coloring[0]
    else
      var rest := MaxColour(coloring[1..]);
      assert coloring == [coloring[0]] + coloring[1..];
      if coloring[0] >= rest then coloring[0] else rest
  }

  /** `color_count`: -1 for an invalid result, else one more than the largest colour. */
  function ColorCount(isValid: bool, coloring: seq<int>): (r: Result<int, Fault>)
  {
    if !isValid then Ok(-1)
    else if coloring == [] then Err(EmptyColoring)
    else Ok(MaxColour(coloring) + 1)
  }

  /**
   * The count is -1 for an invalid result, fails on an empty valid
   * colouring, and otherwise exceeds every colour and is reached by one.
   */
  lemma ColorCountSpec(isValid: bool, coloring: seq<int>)
    ensures !isValid ==> ColorCount(isValid, coloring) == Ok(-1)
    ensures isValid && coloring == [] ==> ColorCount(isValid, coloring).Err?
    ensures isValid && coloring != [] ==>
      && ColorCount(isValid, coloring).Ok?
      && (forall c :: c in coloring ==> c < ColorCount(isValid, coloring).value)
      && ColorCount(isValid, coloring).value - 1 in coloring
  {
  }

  /**
   * For a colouring that uses exactly the colours 0..K-1, as every heuristic
   * returns, the reported count of a valid result is K.
   */
  lemma ColorCountOfHeuristic(coloring: seq<int>, K: int)
    requires coloring != [] && ColoursBelow(coloring, K) && forall k :: 0 <= k < K ==> Used(coloring, k)
    ensures ColorCount(true, coloring) == Ok(K)
  {
    var m := MaxColour(coloring);
    var i := IndexOf(coloring, m);
    assert m < K;
    assert Used(coloring, K - 1);
    var v :| 0 <= v < |coloring| && coloring[v] == K - 1;
    assert coloring[v] in coloring;
  }
}

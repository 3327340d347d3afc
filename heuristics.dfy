/**
 * Greedy colouring heuristics of the benchmark
 * (benchmark/src/algorithms/heuristic_algorithms.py): sequential first-fit
 * assignment and largest-first ordering. A colour of -1 marks an uncoloured
 * vertex.
 */
module Heuristics {
  import opened Collections
  import opened Graphs

  /** The adjacency lists fit the node list: one list per node and every neighbour a valid index. */
  predicate Fits(nodes: seq<int>, adj: Graph)
  {
    |adj| == |nodes| && GraphOk(adj) && forall k :: 0 <= k < |nodes| ==> 0 <= nodes[k] < |nodes|
  }

  /** `nodes` lists every vertex 0..n-1 exactly once. */
  predicate IsOrdering(nodes: seq<int>)
  {
    && (forall k :: 0 <= k < |nodes| ==> 0 <= nodes[k] < |nodes|)
    && (forall k, l :: 0 <= k < l < |nodes| ==> nodes[k] != nodes[l])
    && (forall v :: 0 <= v < |nodes| ==> v in nodes)
  }

  /** The colours of the already coloured vertices among `nbrs`. */
  function AdjColors(color: seq<int>, nbrs: set<int>): set<int>
    requires forall j :: j in nbrs ==> 0 <= j < |color|
  {
    set j | j in nbrs && color[j] != -1 :: color[j]
  }

  /** The colour the `for k in range(K) ... else` search settles on: the first of 0..K-1 not taken, else K. */
  function FirstFree(taken: set<int>, from: int, K: int): (k: int)
    ensures from < K ==> from <= k <= K
    ensures from >= K ==> k == K
    ensures k < K ==> k !in taken
    ensures forall j :: from <= j < k && j < K ==> j in taken
    decreases K - from
  {
    if from >= K then K
    else if from !in taken then from
    else FirstFree(taken, from + 1, K)
  }

  /** The `for ... else` loop choosing a colour among the `K` in use, or the new colour `K`. */
  method SmallestFree(taken: set<int>, K: int) returns (k: int)
    ensures k == FirstFree(taken, 0, K)
  {
    k := 0;
    while k < K && k in taken
      invariant (0 < K ==> k <= K) && FirstFree(taken, k, K) == FirstFree(taken, 0, K)
      decreases K - k
    {
      k := k + 1;
    }
    if k >= K {
      k := K;
    }
  }

  /** The colouring and colour count after `seq_assignment` has handled `nodes[..t]`. */
  function Assign(nodes: seq<int>, adj: Graph, t: nat): (r: (seq<int>, int))
    requires Fits(nodes, adj) && t <= |nodes|
    ensures |r.0| == |nodes| && 0 <= r.1 <= t
  {
    if t == 0 then (seq(|nodes|, _ => -1), 0)
    else
      var (color, K) := Assign(nodes, adj, t - 1);
      var i := nodes[t - 1];
      var k := FirstFree(AdjColors(color, adj[i]), 0, K);
      (color[i := k], if k == K then K + 1 else K)
  }

  /** `seq_assignment`: first-fit colouring of the vertices in the order `nodes` lists them. */
  method SeqAssignment(nodes: seq<int>, adj: Graph) returns (color: seq<int>, K: int)
    requires Fits(nodes, adj)
    ensures (color, K) == Assign(nodes, adj, |nodes|)
    ensures IsOrdering(nodes) ==> ColoursBelow(color, K) && K <= |nodes|
    ensures IsOrdering(nodes) && Symmetric(adj) ==> ProperApartFromLoops(adj, color)
    ensures IsOrdering(nodes) && Symmetric(adj) && Loopless(adj) ==> ProperPrefix(adj, color)
  {
    K := 0;
    color := seq(|nodes|, _ => -1);
    for t := 0 to |nodes|
      invariant (color, K) == Assign(nodes, adj, t)
    {
      var i := nodes[t];
      var adjColors := set j | j in adj[i] && color[j] != -1 :: color[j];
      var k := SmallestFree(adjColors, K);
      if k < K {
        color := color[i := k];
      } else {
        color := color[i := K];
        K := K + 1;
      }
    }
    if IsOrdering(nodes) {
      AssignSpec(nodes, adj);
    }
  }

  /** Every colour below `v`'s own colour is worn by one of its neighbours. */
  predicate Greedy(adj: Graph, color: seq<int>, v: int)
    requires |adj| == |color| && GraphOk(adj) && 0 <= v < |color|
  {
    forall k :: 0 <= k < color[v] ==> k in AdjColors(color, adj[v])
  }

  /**
   * Colouring an uncoloured vertex with the first colour its neighbours
   * leave free keeps every coloured vertex greedy.
   */
  lemma FirstFreeKeepsGreedy(adj: Graph, color: seq<int>, i: int, K: int)
    requires |adj| == |color| && GraphOk(adj) && 0 <= i < |color| && color[i] == -1 && K >= 0
    requires forall v :: 0 <= v < |color| && color[v] != -1 ==> Greedy(adj, color, v)
    ensures var color' := color[i := FirstFree(AdjColors(color, adj[i]), 0, K)];
      forall v :: 0 <= v < |color| && color'[v] != -1 ==> Greedy(adj, color', v)
  {
    var taken := AdjColors(color, adj[i]);
    var color' := color[i := FirstFree(taken, 0, K)];
    forall v | 0 <= v < |color| && color'[v] != -1
      ensures Greedy(adj, color', v)
    {
      forall c | 0 <= c < color'[v]
        ensures c in AdjColors(color', adj[v])
      {
        var w: int;
        if v == i {
          assert c in taken;
          w :| w in adj[i] && color[w] != -1 && color[w] == c;
        } else {
          assert Greedy(adj, color, v);
          assert c in AdjColors(color, adj[v]);
          w :| w in adj[v] && color[w] != -1 && color[w] == c;
        }
        assert color'[w] == c;
      }
    }
  }

  /** After `nodes[..t]`, exactly those vertices are coloured, with colours below `K`. */
  lemma {:induction false} AssignedPrefix(nodes: seq<int>, adj: Graph, t: nat)
    requires Fits(nodes, adj) && t <= |nodes| && IsOrdering(nodes)
    ensures var (color, K) := Assign(nodes, adj, t);
      && (forall v :: 0 <= v < |nodes| && v in nodes[..t] ==> 0 <= color[v] < K)
      && (forall v :: 0 <= v < |nodes| && v !in nodes[..t] ==> color[v] == -1)
  {
    if t > 0 {
      AssignedPrefix(nodes, adj, t - 1);
      assert nodes[..t] == nodes[..t - 1] + [nodes[t - 1]];
    }
  }

  /** The vertex handled at step `t` is still uncoloured then. */
  lemma NextUncoloured(nodes: seq<int>, adj: Graph, t: nat)
    requires Fits(nodes, adj) && t < |nodes| && IsOrdering(nodes)
    ensures Assign(nodes, adj, t).0[nodes[t]] == -1
  {
    AssignedPrefix(nodes, adj, t);
    assert nodes[t] !in nodes[..t];
  }

  /** Every colour below `K` is used. */
  lemma {:induction false} AssignUsesAll(nodes: seq<int>, adj: Graph, t: nat)
    requires Fits(nodes, adj) && t <= |nodes| && IsOrdering(nodes)
    ensures var (color, K) := Assign(nodes, adj, t);
      forall k :: 0 <= k < K ==> Used(color, k)
  {
    if t > 0 {
      AssignUsesAll(nodes, adj, t - 1);
      NextUncoloured(nodes, adj, t - 1);
      var (color, K) := Assign(nodes, adj, t - 1);
      var i := nodes[t - 1];
      var (color', K') := Assign(nodes, adj, t);
      assert color'[i] != -1 && color'[i] <= K;
      forall k | 0 <= k < K'
        ensures Used(color', k)
      {
        if k == color'[i] {
          assert color'[i] == k;
        } else {
          assert Used(color, k);
          var v :| 0 <= v < |color| && color[v] == k;
          assert color'[v] == k;
        }
      }
    }
  }

  /** Every coloured vertex is greedy. */
  lemma {:induction false} AssignGreedy(nodes: seq<int>, adj: Graph, t: nat)
    requires Fits(nodes, adj) && t <= |nodes| && IsOrdering(nodes)
    ensures var color := Assign(nodes, adj, t).0;
      forall v :: 0 <= v < |nodes| && color[v] != -1 ==> Greedy(adj, color, v)
  {
    if t > 0 {
      AssignGreedy(nodes, adj, t - 1);
      NextUncoloured(nodes, adj, t - 1);
      var (color, K) := Assign(nodes, adj, t - 1);
      var i := nodes[t - 1];
      assert Assign(nodes, adj, t).0 == color[i := FirstFree(AdjColors(color, adj[i]), 0, K)];
      FirstFreeKeepsGreedy(adj, color, i, K);
    }
  }

  /**
   * On an ordering of all vertices, first-fit colours every vertex with a
   * colour in [0, K), uses each of those colours, gives each vertex a colour
   * all of whose predecessors occur among its neighbours, and on a
   * symmetric graph no edge between distinct vertices joins equal colours.
   */
  lemma AssignSpec(nodes: seq<int>, adj: Graph)
    requires Fits(nodes, adj) && IsOrdering(nodes)
    ensures var (color, K) := Assign(nodes, adj, |nodes|);
      && ColoursBelow(color, K) && K <= |nodes|
      && (forall k :: 0 <= k < K ==> Used(color, k))
      && (forall v :: 0 <= v < |nodes| ==> Greedy(adj, color, v))
      && (Symmetric(adj) ==> ProperApartFromLoops(adj, color))
      && (Symmetric(adj) && Loopless(adj) ==> ProperPrefix(adj, color))
  {
    var (color, K) := Assign(nodes, adj, |nodes|);
    AssignedPrefix(nodes, adj, |nodes|);
    AssignUsesAll(nodes, adj, |nodes|);
    AssignGreedy(nodes, adj, |nodes|);
    assert nodes[..|nodes|] == nodes;
    forall v | 0 <= v < |nodes|
      ensures color[v] != -1
    {
      assert v in nodes[..|nodes|];
    }
    if Symmetric(adj) {
      ProperAfter(nodes, adj, |nodes|);
    }
  }

  /** On a symmetric graph, no edge between distinct coloured vertices joins equal colours. */
  lemma {:induction false} ProperAfter(nodes: seq<int>, adj: Graph, t: nat)
    requires Fits(nodes, adj) && IsOrdering(nodes) && Symmetric(adj) && t <= |nodes|
    ensures ProperApartFromLoops(adj, Assign(nodes, adj, t).0)
  {
    if t > 0 {
      ProperAfter(nodes, adj, t - 1);
      NextUncoloured(nodes, adj, t - 1);
      AssignedPrefix(nodes, adj, t - 1);
      var (color, K) := Assign(nodes, adj, t - 1);
      var i := nodes[t - 1];
      var taken := AdjColors(color, adj[i]);
      var color' := Assign(nodes, adj, t).0;
      var k := FirstFree(taken, 0, K);
      assert color' == color[i := k];
      assert k !in taken;
      forall v, w | 0 <= v < |nodes| && w in adj[v] && 0 <= w < |nodes| && w != v && color'[v] != -1 && color'[w] != -1
        ensures color'[v] != color'[w]
      {
        if v == i {
          assert color[w] in taken;
        } else if w == i {
          assert v in adj[i];
          assert color[v] in taken;
        }
      }
    }
  }

  /** A `(degree, vertex)` pair of `largest_first`'s list. */
  type Pair = (int, int)

  /** Python's tuple order, greater-or-equal. */
  predicate Geq(x: Pair, y: Pair)
  {
    x.0 > y.0 || (x.0 == y.0 && x.1 >= y.1)
  }

  predicate Descending(s: seq<Pair>)
  {
    forall k, l :: 0 <= k < l < |s| ==> Geq(s[k], s[l])
  }

  /** Inserts `x` before the first element it is not smaller than. */
  function Insert(x: Pair, s: seq<Pair>): seq<Pair>
  {
    if s == [] || Geq(x, s[0]) then [x] + s
    else [s[0]] + Insert(x, s[1..])
  }

  /**
   * The list sorted into decreasing tuple order: `tmp.sort()` followed by
   * `tmp.reverse()`. The order is total, so the result is the only
   * descending arrangement of the list.
   */
  function SortDescending(s: seq<Pair>): seq<Pair>
  {
    if s == [] then [] else Insert(s[0], SortDescending(s[1..]))
  }

  lemma {:induction false} InsertSpec(x: Pair, s: seq<Pair>)
    requires Descending(s)
    ensures multiset(Insert(x, s)) == multiset(s) + multiset{x}
    ensures Descending(Insert(x, s))
  {
    InsertPermutes(x, s);
    if s != [] && !Geq(x, s[0]) {
      InsertSpec(x, s[1..]);
      var r := Insert(x, s[1..]);
      forall k | 0 <= k < |r|
        ensures Geq(s[0], r[k])
      {
        assert r[k] in multiset(r);
        assert r[k] == x || r[k] in multiset(s[1..]);
      }
      DescendingCons(s[0], r);
    }
  }

  lemma {:induction false} InsertPermutes(x: Pair, s: seq<Pair>)
    ensures multiset(Insert(x, s)) == multiset(s) + multiset{x}
  {
    if s != [] && !Geq(x, s[0]) {
      InsertPermutes(x, s[1..]);
      assert s == [s[0]] + s[1..];
    }
  }

  /** A descending list stays descending behind an element at least as large as all of it. */
  lemma DescendingCons(y: Pair, r: seq<Pair>)
    requires Descending(r) && forall k :: 0 <= k < |r| ==> Geq(y, r[k])
    ensures Descending([y] + r)
  {
    var t := [y] + r;
    forall k, l | 0 <= k < l < |t|
      ensures Geq(t[k], t[l])
    {
      if k > 0 {
        assert t[k] == r[k - 1] && t[l] == r[l - 1];
      } else {
        assert t[l] == r[l - 1];
      }
    }
  }

  /** Sorting permutes the list into descending order. */
  lemma {:induction false} SortDescendingSpec(s: seq<Pair>)
    ensures multiset(SortDescending(s)) == multiset(s)
    ensures Descending(SortDescending(s))
  {
    if s != [] {
      SortDescendingSpec(s[1..]);
      InsertSpec(s[0], SortDescending(s[1..]));
      assert s == [s[0]] + s[1..];
    }
  }

  /** The pairs `(len(adj[i]), i)` in the order of `nodes`. */
  function DegreePairs(nodes: seq<int>, adj: Graph): (r: seq<Pair>)
    requires Fits(nodes, adj)
    ensures |r| == |nodes|
  {
    seq(|nodes|, k requires 0 <= k < |nodes| => (|adj[nodes[k]]|, nodes[k]))
  }

  /** The vertices of a list of pairs, in order. */
  function Vertices(s: seq<Pair>): (r: seq<int>)
    ensures |r| == |s| && forall k :: 0 <= k < |s| ==> r[k] == s[k].1
  {
    if s == [] then [] else [s[0].1] + Vertices(s[1..])
  }

  /** The order in which `largest_first` hands the vertices to `seq_assignment`. */
  function ByDegree(nodes: seq<int>, adj: Graph): (r: seq<int>)
    requires Fits(nodes, adj)
    ensures multiset(r) == multiset(nodes) && Fits(r, adj)
  {
    var pairs := DegreePairs(nodes, adj);
    SortVertices(pairs);
    assert Vertices(pairs) == nodes;
    var r := Vertices(SortDescending(pairs));
    assert |r| == |multiset(r)| == |nodes|;
    assert forall k :: 0 <= k < |r| ==> r[k] in multiset(nodes);
    r
  }

  lemma {:induction false} InsertVertices(x: Pair, s: seq<Pair>)
    ensures multiset(Vertices(Insert(x, s))) == multiset(Vertices(s)) + multiset{x.1}
  {
    if s != [] && !Geq(x, s[0]) {
      InsertVertices(x, s[1..]);
    }
  }

  lemma {:induction false} SortVertices(s: seq<Pair>)
    ensures multiset(Vertices(SortDescending(s))) == multiset(Vertices(s))
  {
    if s != [] {
      SortVertices(s[1..]);
      InsertVertices(s[0], SortDescending(s[1..]));
    }
  }

  lemma {:induction false} VerticesConcat(a: seq<Pair>, b: seq<Pair>)
    ensures Vertices(a + b) == Vertices(a) + Vertices(b)
  {
    var l, r := Vertices(a + b), Vertices(a) + Vertices(b);
    forall k | 0 <= k < |l|
      ensures l[k] == r[k]
    {
      if k < |a| {
        assert (a + b)[k] == a[k];
      } else {
        assert (a + b)[k] == b[k - |a|];
      }
    }
  }

  /**
   * `largest_first` hands `seq_assignment` the same vertices, ordered by
   * decreasing degree, equal degrees by decreasing vertex number.
   */
  lemma ByDegreeSpec(nodes: seq<int>, adj: Graph)
    requires Fits(nodes, adj)
    ensures var b := ByDegree(nodes, adj);
      forall k, l :: 0 <= k < l < |b| ==>
        (|adj[b[k]]| > |adj[b[l]]| || (|adj[b[k]]| == |adj[b[l]]| && b[k] >= b[l]))
  {
    var pairs := DegreePairs(nodes, adj);
    var sorted := SortDescending(pairs);
    SortDescendingSpec(pairs);
    forall k | 0 <= k < |sorted|
      ensures 0 <= sorted[k].1 < |adj| && sorted[k].0 == |adj[sorted[k].1]|
    {
      assert sorted[k] in multiset(pairs);
      var m := IndexOf(pairs, sorted[k]);
    }
  }

  /** On an ordering of all vertices, any permutation is again an ordering. */
  lemma PermutedOrdering(a: seq<int>, b: seq<int>)
    requires IsOrdering(a) && multiset(a) == multiset(b)
    ensures IsOrdering(b)
  {
    assert |b| == |multiset(b)| == |a|;
    forall k | 0 <= k < |b|
      ensures 0 <= b[k] < |b|
    {
      assert b[k] in multiset(a);
    }
    forall v | 0 <= v < |b|
      ensures v in b
    {
      assert v in a;
      assert v in multiset(a);
    }
    forall k, l | 0 <= k < l < |b|
      ensures b[k] != b[l]
    {
      if b[k] == b[l] {
        TwoOccurrences(b, k, l);
        Distinct(a, b[k]);
        assert false;
      }
    }
  }

  lemma TwoOccurrences(b: seq<int>, k: nat, l: nat)
    requires k < l < |b| && b[k] == b[l]
    ensures multiset(b)[b[k]] >= 2
  {
    assert b == b[..l] + b[l..];
    assert b[k] in b[..l];
    assert b[l..][0] == b[l];
  }

  /** A vertex occurs at most once in an ordering. */
  lemma {:induction false} Distinct(a: seq<int>, x: int)
    requires forall k, l :: 0 <= k < l < |a| ==> a[k] != a[l]
    ensures multiset(a)[x] <= 1
  {
    if a != [] {
      var p := a[..|a| - 1];
      assert a == p + [a[|a| - 1]];
      Distinct(p, x);
      if x == a[|a| - 1] {
        assert x !in p;
      }
    }
  }

  /** The loop building the `(degree, i)` list. */
  method PairUp(nodes: seq<int>, adj: Graph) returns (tmp: seq<Pair>)
    requires Fits(nodes, adj)
    ensures tmp == DegreePairs(nodes, adj)
  {
    tmp := [];
    for k := 0 to |nodes|
      invariant tmp == DegreePairs(nodes, adj)[..k]
    {
      var i := nodes[k];
      tmp := tmp + [(|adj[i]|, i)];
    }
  }

  /** The comprehension extracting the vertices from the sorted pairs. */
  method VerticesOf(tmp: seq<Pair>) returns (vs: seq<int>)
    ensures vs == Vertices(tmp)
  {
    vs := [];
    for k := 0 to |tmp|
      invariant vs == Vertices(tmp[..k])
    {
      VerticesConcat(tmp[..k], [tmp[k]]);
      assert tmp[..k + 1] == tmp[..k] + [tmp[k]];
      vs := vs + [tmp[k].1];
    }
    assert tmp[..|tmp|] == tmp;
  }

  /** `largest_first`: first-fit in order of decreasing degree. */
  method LargestFirst(nodes: seq<int>, adj: Graph) returns (color: seq<int>, K: int)
    requires Fits(nodes, adj)
    ensures (color, K) == Assign(ByDegree(nodes, adj), adj, |nodes|)
    ensures IsOrdering(nodes) ==> ColoursBelow(color, K) && K <= |nodes|
    ensures IsOrdering(nodes) && Symmetric(adj) ==> ProperApartFromLoops(adj, color)
    ensures IsOrdering(nodes) && Symmetric(adj) && Loopless(adj) ==> ProperPrefix(adj, color)
  {
    var tmp := PairUp(nodes, adj);
    tmp := SortDescending(tmp);
    var sortedNodes := VerticesOf(tmp);
    assert sortedNodes == ByDegree(nodes, adj);
    color, K := SeqAssignment(sortedNodes, adj);
    if IsOrdering(nodes) {
      PermutedOrdering(nodes, sortedNodes);
    }
  }
}

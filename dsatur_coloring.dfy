/**
 * Graph colouring in DSATUR order as a search domain
 * (mcts/src/mcts/sample/graph_color_dsatur_state.py): each step colours the
 * uncoloured vertex with the most distinct neighbour colours, and the state
 * carries, per vertex, the set of colours seen on its neighbours.
 */
module DsaturColoring {
  import opened Wrappers
  import opened Collections
  import opened Graphs
  import opened Games

  /** A colouring as a vertex-to-colour map, the neighbour-colour sets and `n_colors`. */
  datatype DsaturState = DsaturState(graph: Graph, colorings: map<int, int>,
                                     neighborsColors: map<int, set<int>>, nColors: int)

  /** An action `(vertex, colour)`. */
  type Assignment = (int, int)

  predicate IsTerminal(s: DsaturState)
  {
    |s.colorings| == |s.graph|
  }

  function Reward(s: DsaturState): int
  {
    -s.nColors
  }

  /** `equals`: only the colourings are compared. */
  predicate Equals(s: DsaturState, t: DsaturState)
  {
    s.colorings == t.colorings
  }

  /** The colour set recorded for `u`, empty when it has none. */
  function NbColors(s: DsaturState, u: int): set<int>
  {
    if u in s.neighborsColors then s.neighborsColors[u] else {}
  }

  /** The saturation of `u`: how many distinct colours its recorded set holds. */
  function Saturation(s: DsaturState, u: int): nat
  {
    |NbColors(s, u)|
  }

  /** The colours of the coloured neighbours of `u`, what `NbColors` should record. */
  function ColorsAround(s: DsaturState, u: int): set<int>
    requires 0 <= u < |s.graph|
  {
    set w | w in s.graph[u] && w in s.colorings :: s.colorings[w]
  }

  /** The scan's test: `u` replaces the vertex chosen so far, whose saturation is `maxColors`. */
  predicate Beats(s: DsaturState, u: int, best: int, maxColors: int)
    requires 0 <= u < |s.graph| && -1 <= best < |s.graph| && (best == -1 ==> maxColors < 0)
  {
    || Saturation(s, u) > maxColors
    || (Saturation(s, u) == maxColors && |s.graph[u]| > |s.graph[best]|)
  }

  /** The vertex choice of the iterator's constructor from vertex `node` on. */
  function Scan(s: DsaturState, node: nat, best: int, maxColors: int, isDefault: bool): int
    requires -1 <= best < |s.graph| && (best == -1 ==> maxColors < 0)
    decreases |s.graph| - node
  {
    if node >= |s.graph| then best
    else if node in s.colorings then Scan(s, node + 1, best, maxColors, isDefault)
    else if Beats(s, node, best, maxColors) then
      if isDefault then node else Scan(s, node + 1, node, Saturation(s, node), isDefault)
    else if isDefault then best
    else Scan(s, node + 1, best, maxColors, isDefault)
  }

  /** The vertex the iterator colours, or -1 when no vertex is left uncoloured. */
  function ChosenVertex(s: DsaturState, isDefault: bool): int
  {
    Scan(s, 0, -1, -1, isDefault)
  }

  /** `u` ranks below `v`: lower saturation, or equal saturation and lower total degree. */
  predicate RanksBelow(s: DsaturState, u: int, v: int)
    requires 0 <= u < |s.graph| && 0 <= v < |s.graph|
  {
    Saturation(s, u) < Saturation(s, v) || (Saturation(s, u) == Saturation(s, v) && |s.graph[u]| < |s.graph[v]|)
  }

  predicate AllColoured(s: DsaturState, n: int)
  {
    forall u :: 0 <= u < n && u < |s.graph| ==> u in s.colorings
  }

  /**
   * The DSATUR choice: an uncoloured vertex no other uncoloured vertex ranks
   * above, and which ranks strictly above every uncoloured vertex before it.
   */
  predicate SaturationChoice(s: DsaturState, v: int)
  {
    && (v == -1 <==> AllColoured(s, |s.graph|))
    && (v != -1 ==>
         && 0 <= v < |s.graph| && v !in s.colorings
         && (forall u :: 0 <= u < |s.graph| && u !in s.colorings ==> !RanksBelow(s, v, u))
         && (forall u :: 0 <= u < v && u !in s.colorings ==> RanksBelow(s, u, v)))
  }

  /** The default choice: the first uncoloured vertex. */
  predicate FirstUncoloured(s: DsaturState, v: int)
  {
    && (v == -1 <==> AllColoured(s, |s.graph|))
    && (v != -1 ==> 0 <= v < |s.graph| && v !in s.colorings && AllColoured(s, v))
  }

  /** What the scan has established after looking at the vertices below `node`. */
  predicate ScannedSoFar(s: DsaturState, node: nat, best: int, maxColors: int)
  {
    && node <= |s.graph| && -1 <= best < |s.graph|
    && (best == -1 <==> maxColors == -1)
    && (best == -1 ==> AllColoured(s, node))
    && (best != -1 ==>
         && best < node && best !in s.colorings && maxColors == Saturation(s, best)
         && (forall u :: 0 <= u < node && u !in s.colorings ==> !RanksBelow(s, best, u))
         && (forall u :: 0 <= u < best && u !in s.colorings ==> RanksBelow(s, u, best)))
  }

  lemma {:induction false} ScanFindsSaturationChoice(s: DsaturState, node: nat, best: int, maxColors: int)
    requires ScannedSoFar(s, node, best, maxColors)
    ensures SaturationChoice(s, Scan(s, node, best, maxColors, false))
    decreases |s.graph| - node
  {
    if node < |s.graph| {
      if node in s.colorings {
        ScanFindsSaturationChoice(s, node + 1, best, maxColors);
      } else if Beats(s, node, best, maxColors) {
        ScanFindsSaturationChoice(s, node + 1, node, Saturation(s, node));
      } else {
        ScanFindsSaturationChoice(s, node + 1, best, maxColors);
      }
    }
  }

  lemma {:induction false} ScanFindsFirstUncoloured(s: DsaturState, node: nat)
    requires node <= |s.graph| && AllColoured(s, node)
    ensures FirstUncoloured(s, Scan(s, node, -1, -1, true))
    decreases |s.graph| - node
  {
    if node < |s.graph| && node in s.colorings {
      ScanFindsFirstUncoloured(s, node + 1);
    }
  }

  /**
   * The vertex the iterator picks: by saturation, ties by total degree,
   * remaining ties by lowest index; with `is_default`, the first uncoloured
   * vertex.
   */
  lemma ChosenVertexSpec(s: DsaturState, isDefault: bool)
    ensures !isDefault ==> SaturationChoice(s, ChosenVertex(s, isDefault))
    ensures isDefault ==> FirstUncoloured(s, ChosenVertex(s, isDefault))
  {
    if isDefault {
      ScanFindsFirstUncoloured(s, 0);
    } else {
      ScanFindsSaturationChoice(s, 0, -1, -1);
    }
  }

  /** The loop of the iterator's constructor. */
  method SelectVertex(s: DsaturState, isDefault: bool) returns (vertex: int)
    ensures vertex == ChosenVertex(s, isDefault)
  {
    vertex := -1;
    var maxColors := -1;
    for node := 0 to |s.graph|
      invariant -1 <= vertex < |s.graph| && (vertex == -1 <==> maxColors == -1)
      invariant Scan(s, node, vertex, maxColors, isDefault) == ChosenVertex(s, isDefault)
    {
      if node in s.colorings {
        continue;
      }
      var colors := if node in s.neighborsColors then s.neighborsColors[node] else {};
      if |colors| > maxColors || (|colors| == maxColors && |s.graph[node]| > |s.graph[vertex]|) {
        maxColors := |colors|;
        vertex := node;
      }
      if isDefault {
        return;
      }
    }
  }

  /** The colour choices for vertex `v`, in order. */
  function Pairs(v: int, colours: seq<int>): (ps: seq<Assignment>)
    ensures |ps| == |colours| && forall i :: 0 <= i < |ps| ==> ps[i] == (v, colours[i])
  {
    seq(|colours|, i requires 0 <= i < |colours| => (v, colours[i]))
  }

  /** The colours the chosen vertex may not take. */
  function Taken(s: DsaturState, v: int): set<int>
  {
    if v != -1 then NbColors(s, v) else {}
  }

  /**
   * The actions of a non-terminal state: the chosen vertex paired with each
   * colour of 0..n_colors not recorded around it, ascending.
   */
  function Actions(s: DsaturState, isDefault: bool): seq<Assignment>
  {
    var v := ChosenVertex(s, isDefault);
    Pairs(v, Offered(Taken(s, v), 0, s.nColors))
  }

  /**
   * `GraphColorDsaturActionIterator`: the chosen vertex and its recorded
   * colours, fixed at construction, and a colour cursor.
   */
  class DsaturActionIterator {
    const state: DsaturState
    const isDefault: bool
    const isTerminal: bool
    const vertex: int
    const neighborsColors: set<int>
    var color: int

    ghost predicate Valid()
    {
      && isTerminal == IsTerminal(state)
      && (!isTerminal ==> vertex == ChosenVertex(state, isDefault) && neighborsColors == Taken(state, vertex))
    }

    /** The actions still to come. */
    ghost function Remaining(): seq<Assignment>
      reads this
    {
      if isTerminal then [] else Pairs(vertex, Offered(neighborsColors, color, state.nColors))
    }

    constructor(s: DsaturState, isDefault: bool)
      ensures state == s && this.isDefault == isDefault && color == 0 && Valid()
      ensures !IsTerminal(s) ==> Remaining() == Actions(s, isDefault)
    {
      state := s;
      this.isDefault := isDefault;
      color := 0;
      if IsTerminal(s) {
        isTerminal := true;
        vertex := -1;
        neighborsColors := {};
      } else {
        isTerminal := false;
        var v := SelectVertex(s, isDefault);
        vertex := v;
        neighborsColors := if v != -1 && v in s.neighborsColors then s.neighborsColors[v] else {};
      }
    }

    /** `__iter__`: restart from colour 0. */
    method Reset()
      requires Valid()
      modifies this
      ensures Valid() && color == 0
      ensures !isTerminal ==> Remaining() == Actions(state, isDefault)
    {
      color := 0;
    }

    /**
     * `__next__` on a non-terminal state: the next free colour for the
     * chosen vertex, or `None` for `StopIteration`. On a terminal state the
     * source ends the process instead, which is excluded here.
     */
    method Next() returns (r: Option<Assignment>)
      requires Valid() && !isTerminal
      modifies this
      ensures Valid()
      ensures old(Remaining()) == [] ==> r == None && Remaining() == []
      ensures old(Remaining()) != [] ==> r == Some(old(Remaining())[0]) && Remaining() == old(Remaining())[1..]
    {
      while color <= state.nColors
        invariant Remaining() == old(Remaining())
        decreases state.nColors + 1 - color
      {
        var assignment := (vertex, color);
        color := color + 1;
        if assignment.1 in neighborsColors {
          continue;
        }
        return Some(assignment);
      }
      return None;
    }
  }

  /** The neighbour-colour sets after colour `c` is added around every uncoloured vertex of `vs`. */
  function AddAround(s: DsaturState, vs: set<int>, c: int): (m: map<int, set<int>>)
    ensures m.Keys == s.neighborsColors.Keys + (vs - s.colorings.Keys)
    ensures forall u :: u in m ==> m[u] == if u in vs && u !in s.colorings then NbColors(s, u) + {c} else s.neighborsColors[u]
  {
    map u | u in s.neighborsColors.Keys + (vs - s.colorings.Keys) ::
      if u in vs && u !in s.colorings then NbColors(s, u) + {c} else s.neighborsColors[u]
  }

  /** Adding one more vertex `n` to the visited neighbours updates at most its own entry. */
  lemma AddAroundSkip(s: DsaturState, done: set<int>, n: int, c: int)
    requires n in s.colorings
    ensures AddAround(s, done + {n}, c) == AddAround(s, done, c)
  {
    assert AddAround(s, done + {n}, c).Keys == AddAround(s, done, c).Keys;
  }

  lemma AddAroundAdd(s: DsaturState, done: set<int>, n: int, c: int, nbc: map<int, set<int>>)
    requires n !in done && n !in s.colorings && nbc == AddAround(s, done, c)
    ensures AddAround(s, done + {n}, c) == nbc[n := (if n in nbc then nbc[n] else {}) + {c}]
  {
    assert (if n in nbc then nbc[n] else {}) == NbColors(s, n);
    assert AddAround(s, done + {n}, c).Keys == nbc.Keys + {n};
  }

  /** The loop body of `play`: an uncoloured neighbour records `c`. */
  method AddColorAt(s: DsaturState, nbc: map<int, set<int>>, neighbor: int, c: int, ghost done: set<int>)
    returns (nbc': map<int, set<int>>)
    requires neighbor !in done && nbc == AddAround(s, done, c)
    ensures nbc' == AddAround(s, done + {neighbor}, c)
  {
    nbc' := nbc;
    if neighbor !in s.colorings {
      AddAroundAdd(s, done, neighbor, c, nbc);
      nbc' := nbc[neighbor := (if neighbor in nbc then nbc[neighbor] else {}) + {c}];
    } else {
      AddAroundSkip(s, done, neighbor, c);
    }
  }

  /**
   * `play((v, c))`: a new state with `v` coloured `c`, `c` added to the
   * recorded colours of every uncoloured neighbour of `v`, and the colour
   * count raised to cover `c`.
   */
  function Played(s: DsaturState, a: Assignment): DsaturState
    requires 0 <= a.0 < |s.graph|
  {
    DsaturState(s.graph, s.colorings[a.0 := a.1], AddAround(s, s.graph[a.0], a.1),
                if s.nColors >= a.1 + 1 then s.nColors else a.1 + 1)
  }

  /** `play`: the colouring and the neighbour-colour sets are copied, the receiver is left as it is. */
  method Play(s: DsaturState, a: Assignment) returns (t: DsaturState)
    requires 0 <= a.0 < |s.graph|
    ensures t == Played(s, a)
  {
    var newColorings := s.colorings[a.0 := a.1];
    var nbc := AddNeighborColors(s, a.0, a.1);
    t := DsaturState(s.graph, newColorings, nbc, if s.nColors >= a.1 + 1 then s.nColors else a.1 + 1);
  }

  /** The loop of `play` over the neighbours of `v`, on a copy of the neighbour-colour sets. */
  method AddNeighborColors(s: DsaturState, v: int, c: int) returns (nbc: map<int, set<int>>)
    requires 0 <= v < |s.graph|
    ensures nbc == AddAround(s, s.graph[v], c)
  {
    nbc := s.neighborsColors;
    var rest := s.graph[v];
    ghost var done: set<int> := {};
    while rest != {}
      invariant done + rest == s.graph[v] && done !! rest
      invariant nbc == AddAround(s, done, c)
      decreases |rest|
    {
      ghost var some := ChooseMember(rest);
      var neighbor :| neighbor in rest;
      nbc := AddColorAt(s, nbc, neighbor, c, done);
      MoveOne(done, rest, s.graph[v], neighbor);
      rest := rest - {neighbor};
      done := done + {neighbor};
    }
  }

  /**
   * The states reachable from the empty colouring of `graph`: colours lie
   * in [0, n_colors) and every uncoloured vertex records exactly the colours
   * of its coloured neighbours.
   */
  predicate Inv(graph: Graph, s: DsaturState)
  {
    && s.graph == graph && s.nColors >= 0
    && (forall u :: u in s.colorings ==> 0 <= u < |graph| && 0 <= s.colorings[u] < s.nColors)
    && (forall u :: 0 <= u < |graph| && u !in s.colorings ==> NbColors(s, u) == ColorsAround(s, u))
  }

  /** The initial state `GraphColorDsaturState(graph)`. */
  lemma EmptyInv(graph: Graph)
    ensures Inv(graph, DsaturState(graph, map[], map[], 0))
  {
  }

  /** A non-terminal reachable state has an uncoloured vertex, so the choice is a real vertex. */
  lemma ChosenIsVertex(graph: Graph, s: DsaturState, isDefault: bool)
    requires Inv(graph, s) && !IsTerminal(s)
    ensures 0 <= ChosenVertex(s, isDefault) < |graph| && ChosenVertex(s, isDefault) !in s.colorings
  {
    ChosenVertexSpec(s, isDefault);
    WithinRange(s.colorings.Keys, |graph|);
    if AllColoured(s, |graph|) {
      RangeCovered(s.colorings.Keys, |graph|);
    }
  }

  /** A non-terminal reachable state always offers the fresh colour `n_colors` to the chosen vertex. */
  lemma FreshColourOffered(graph: Graph, s: DsaturState, isDefault: bool)
    requires Inv(graph, s) && !IsTerminal(s)
    ensures (ChosenVertex(s, isDefault), s.nColors) in Actions(s, isDefault)
  {
    var v := ChosenVertex(s, isDefault);
    ChosenIsVertex(graph, s, isDefault);
    OfferedMembers(Taken(s, v), 0, s.nColors, s.nColors);
    forall x | x in ColorsAround(s, v)
      ensures x < s.nColors
    {
      var w :| w in graph[v] && w in s.colorings && s.colorings[w] == x;
    }
    var i := IndexOf(Offered(Taken(s, v), 0, s.nColors), s.nColors);
    assert Actions(s, isDefault)[i] == (v, s.nColors);
  }

  /** Every action of a non-terminal reachable state colours the chosen vertex with a free colour. */
  lemma ActionsSpec(graph: Graph, s: DsaturState, isDefault: bool, a: Assignment)
    requires Inv(graph, s) && !IsTerminal(s)
    ensures 0 <= ChosenVertex(s, isDefault) < |graph| && ChosenVertex(s, isDefault) !in s.colorings
    ensures a in Actions(s, isDefault) <==>
      a.0 == ChosenVertex(s, isDefault) && 0 <= a.1 <= s.nColors && a.1 !in ColorsAround(s, a.0)
  {
    var v := ChosenVertex(s, isDefault);
    ChosenIsVertex(graph, s, isDefault);
    OfferedMembers(Taken(s, v), 0, s.nColors, a.1);
    var cs := Offered(Taken(s, v), 0, s.nColors);
    if a in Actions(s, isDefault) {
      var i := IndexOf(Actions(s, isDefault), a);
      assert cs[i] == a.1;
    }
    if a.0 == v && a.1 in cs {
      var i := IndexOf(cs, a.1);
      assert Actions(s, isDefault)[i] == a;
    }
  }

  /** On a symmetric graph, playing an action keeps the recorded neighbour colours exact. */
  lemma PlayKeepsInv(graph: Graph, s: DsaturState, isDefault: bool, a: Assignment)
    requires GraphOk(graph) && Symmetric(graph)
    requires Inv(graph, s) && !IsTerminal(s) && a in Actions(s, isDefault)
    ensures 0 <= a.0 < |graph| && a.0 !in s.colorings
    ensures Inv(graph, Played(s, a)) && |Played(s, a).colorings| == |s.colorings| + 1
  {
    ActionsSpec(graph, s, isDefault, a);
    ChosenIsVertex(graph, s, isDefault);
    PlayKeepsRecorded(graph, s, a);
  }

  /** Colouring an uncoloured vertex keeps every recorded neighbour-colour set equal to the colours around. */
  lemma PlayKeepsRecorded(graph: Graph, s: DsaturState, a: Assignment)
    requires GraphOk(graph) && Symmetric(graph) && Inv(graph, s)
    requires 0 <= a.0 < |graph| && a.0 !in s.colorings
    ensures var t := Played(s, a);
      forall u :: 0 <= u < |graph| && u !in t.colorings ==> NbColors(t, u) == ColorsAround(t, u)
  {
    var (v, c) := a;
    var t := Played(s, a);
    forall u | 0 <= u < |graph| && u !in t.colorings
      ensures NbColors(t, u) == ColorsAround(t, u)
    {
      ColorsAroundAfterPlay(s, a, u);
      NbColorsAfterPlay(s, a, u);
      assert u in graph[v] <==> v in graph[u];
    }
  }

  /** Colouring `v` adds its colour to the recorded set of each uncoloured neighbour of `v`. */
  lemma NbColorsAfterPlay(s: DsaturState, a: Assignment, u: int)
    requires 0 <= a.0 < |s.graph| && u != a.0 && u !in s.colorings
    ensures NbColors(Played(s, a), u) == NbColors(s, u) + if u in s.graph[a.0] then {a.1} else {}
  {
  }

  /** Colouring `v` adds its colour around exactly the vertices that list `v` as a neighbour. */
  lemma ColorsAroundAfterPlay(s: DsaturState, a: Assignment, u: int)
    requires 0 <= a.0 < |s.graph| && a.0 !in s.colorings && 0 <= u < |s.graph|
    ensures ColorsAround(Played(s, a), u) == ColorsAround(s, u) + if a.0 in s.graph[u] then {a.1} else {}
  {
    var t := Played(s, a);
    forall x | x in ColorsAround(t, u)
      ensures x in ColorsAround(s, u) + if a.0 in s.graph[u] then {a.1} else {}
    {
      var w :| w in s.graph[u] && w in t.colorings && t.colorings[w] == x;
      if w != a.0 {
        assert x in ColorsAround(s, u);
      }
    }
    forall x | x in ColorsAround(s, u)
      ensures x in ColorsAround(t, u)
    {
      var w :| w in s.graph[u] && w in s.colorings && s.colorings[w] == x;
      assert t.colorings[w] == x;
    }
    if a.0 in s.graph[u] {
      assert t.colorings[a.0] == a.1;
    }
  }

  /** `is_valid`: no coloured vertex shares its colour with a coloured neighbour. */
  predicate IsValid(s: DsaturState)
  {
    forall i, j :: i in s.colorings && 0 <= i < |s.graph| && j in s.graph[i] && j in s.colorings ==>
      s.colorings[i] != s.colorings[j]
  }

  /** On a symmetric graph without self-loops, playing an action keeps the colouring proper. */
  lemma PlayKeepsValid(graph: Graph, s: DsaturState, isDefault: bool, a: Assignment)
    requires GraphOk(graph) && Symmetric(graph) && Loopless(graph)
    requires Inv(graph, s) && !IsTerminal(s) && IsValid(s) && a in Actions(s, isDefault)
    ensures 0 <= a.0 < |graph|
    ensures IsValid(Played(s, a))
  {
    ActionsSpec(graph, s, isDefault, a);
    ChosenIsVertex(graph, s, isDefault);
    var (v, c) := a;
    var t := Played(s, a);
    forall i, j | i in t.colorings && 0 <= i < |t.graph| && j in t.graph[i] && j in t.colorings
      ensures t.colorings[i] != t.colorings[j]
    {
      if i == v && j != v {
        assert s.colorings[j] in ColorsAround(s, v);
      } else if j == v && i != v {
        assert i in graph[v];
        assert s.colorings[i] in ColorsAround(s, v);
      }
    }
  }

  /** `equals` ignores the neighbour-colour sets, which on reachable states the colouring determines. */
  lemma EqualsAgreesOnRecordedColours(graph: Graph, s: DsaturState, t: DsaturState)
    requires Inv(graph, s) && Inv(graph, t) && Equals(s, t)
    ensures IsTerminal(s) == IsTerminal(t) && IsValid(s) == IsValid(t)
    ensures forall u :: 0 <= u < |graph| && u !in s.colorings ==> NbColors(s, u) == NbColors(t, u)
  {
  }

  /** The domain as the search engine sees it: both action lists are the saturation iterator's. */
  function DsaturGame(graph: Graph): (g: Game<DsaturState, Assignment>)
    ensures forall s :: g.inv(s) <==> Inv(graph, s)
    ensures forall s :: Inv(graph, s) && !IsTerminal(s) ==> g.actionsTree(s) == g.actionsDefault(s) == Actions(s, false)
  {
    Game(
      (s: DsaturState) => Inv(graph, s),
      (s: DsaturState) => IsTerminal(s),
      (s: DsaturState) => Reward(s),
      (s: DsaturState, r: int) => r,
      (s: DsaturState) => if IsTerminal(s) then [] else Actions(s, false),
      (s: DsaturState) => if IsTerminal(s) then [] else Actions(s, false),
      (s: DsaturState, a: Assignment) => if 0 <= a.0 < |s.graph| then Played(s, a) else s,
      (s: DsaturState) => if |s.colorings| <= |s.graph| then |s.graph| - |s.colorings| else 0)
  }

  /** On a symmetric graph the DSATUR domain meets the engine's contract, and its rewards are taken as they are. */
  lemma DsaturGameWellFormed(graph: Graph)
    requires GraphOk(graph) && Symmetric(graph)
    ensures WellFormed(DsaturGame(graph))
    ensures IdentityInterpretation(DsaturGame(graph))
  {
    var g := DsaturGame(graph);
    forall s | g.inv(s) && !g.isTerminal(s)
      ensures g.actionsTree(s) != [] && g.actionsDefault(s) != []
    {
      FreshColourOffered(graph, s, false);
    }
    forall s, a | g.inv(s) && a in g.actionsTree(s)
      ensures g.inv(g.play(s, a))
    {
      PlayKeepsInv(graph, s, false, a);
    }
    forall s, a | g.inv(s) && !g.isTerminal(s) && a in g.actionsDefault(s)
      ensures g.inv(g.play(s, a)) && g.measure(g.play(s, a)) < g.measure(s)
    {
      PlayKeepsInv(graph, s, false, a);
      WithinRange(s.colorings.Keys, |graph|);
    }
  }
}

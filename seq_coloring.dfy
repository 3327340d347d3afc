/**
 * Sequential graph colouring as a search domain
 * (mcts/src/mcts/sample/graph_color_seq_state.py): vertices are coloured in
 * index order, an action is the colour for the next vertex, and the reward
 * is minus the number of colours in use.
 */
module SeqColoring {
  import opened Wrappers
  import opened Collections
  import opened Graphs
  import opened Games

  /** A partial colouring of vertices 0..|colorings|-1 and the colour count `n_colors`. */
  datatype SeqState = SeqState(graph: Graph, colorings: seq<int>, nColors: int)

  predicate IsTerminal(s: SeqState)
  {
    |s.colorings| == |s.graph|
  }

  function Reward(s: SeqState): int
  {
    -s.nColors
  }

  /** `play`: a new state with the colour appended and the colour count raised to cover it. */
  function Play(s: SeqState, c: int): (t: SeqState)
    ensures t.graph == s.graph && t.colorings == s.colorings + [c]
    ensures t.nColors >= s.nColors && t.nColors > c
    ensures t.nColors == s.nColors || t.nColors == c + 1
  {
    SeqState(s.graph, s.colorings + [c], if s.nColors >= c + 1 then s.nColors else c + 1)
  }

  /** `equals`: only the colourings are compared. */
  predicate Equals(s: SeqState, t: SeqState)
  {
    s.colorings == t.colorings
  }

  /** The colours the already coloured neighbours of the next vertex use. */
  function NeighborColors(s: SeqState): set<int>
    requires |s.colorings| < |s.graph|
  {
    ColorsOf(s.colorings, s.graph[|s.colorings|])
  }

  /** The colours of the coloured vertices among `vs`. */
  function ColorsOf(colorings: seq<int>, vs: set<int>): set<int>
  {
    set adj | adj in vs && 0 <= adj < |colorings| :: colorings[adj]
  }

  /**
   * The actions the iterator yields: nothing for a terminal state, otherwise
   * each colour in 0..n_colors not used by a coloured neighbour of the next
   * vertex, ascending.
   */
  function Actions(s: SeqState): seq<int>
    requires |s.colorings| <= |s.graph|
  {
    if IsTerminal(s) then [] else Offered(NeighborColors(s), 0, s.nColors)
  }

  /** The actions are exactly the free colours in 0..n_colors, each once and ascending. */
  lemma ActionsSpec(s: SeqState)
    requires |s.colorings| < |s.graph|
    ensures forall c :: c in Actions(s) <==> 0 <= c <= s.nColors && c !in NeighborColors(s)
    ensures forall i, j :: 0 <= i < j < |Actions(s)| ==> Actions(s)[i] < Actions(s)[j]
  {
    forall c
      ensures c in Actions(s) <==> 0 <= c <= s.nColors && c !in NeighborColors(s)
    {
      OfferedMembers(NeighborColors(s), 0, s.nColors, c);
    }
    OfferedIncreasing(NeighborColors(s), 0, s.nColors);
  }

  /** The loop of the iterator's constructor: the colours of the next vertex's coloured neighbours. */
  method GatherNeighborColors(s: SeqState) returns (nc: set<int>)
    requires GraphOk(s.graph) && |s.colorings| < |s.graph|
    ensures nc == NeighborColors(s)
  {
    nc := {};
    var v := |s.colorings|;
    var rest := s.graph[v];
    ghost var done: set<int> := {};
    while rest != {}
      invariant done + rest == s.graph[v] && done !! rest
      invariant nc == ColorsOf(s.colorings, done)
      decreases |rest|
    {
      ghost var some := ChooseMember(rest);
      var adj :| adj in rest;
      if adj < v {
        nc := nc + {s.colorings[adj]};
      }
      rest := rest - {adj};
      done := done + {adj};
    }
  }

  /**
   * `GraphColorSeqActionIterator`: the neighbour colours of the next vertex,
   * gathered once, and a colour cursor advanced by `Next`.
   */
  class SeqActionIterator {
    const state: SeqState
    const isTerminal: bool
    const neighborsColors: set<int>
    var color: int

    ghost predicate Valid()
    {
      && GraphOk(state.graph) && |state.colorings| <= |state.graph|
      && isTerminal == IsTerminal(state)
      && (!isTerminal ==> neighborsColors == NeighborColors(state))
    }

    /** The actions still to come. */
    ghost function Remaining(): seq<int>
      reads this
    {
      if isTerminal then [] else Offered(neighborsColors, color, state.nColors)
    }

    constructor(s: SeqState)
      requires GraphOk(s.graph) && |s.colorings| <= |s.graph|
      ensures state == s && color == 0 && Valid()
      ensures Remaining() == Actions(s)
    {
      var nc: set<int> := {};
      if !IsTerminal(s) {
        nc := GatherNeighborColors(s);
      }
      state := s;
      isTerminal := IsTerminal(s);
      neighborsColors := nc;
      color := 0;
    }

    /** `__iter__`: restart from colour 0. */
    method Reset()
      requires Valid()
      modifies this
      ensures Valid() && color == 0 && Remaining() == Actions(state)
    {
      color := 0;
    }

    /** `__next__`: the next free colour, or `None` for `StopIteration`. */
    method Next() returns (r: Option<int>)
      requires Valid()
      modifies this
      ensures Valid()
      ensures old(Remaining()) == [] ==> r == None && Remaining() == []
      ensures old(Remaining()) != [] ==> r == Some(old(Remaining())[0]) && Remaining() == old(Remaining())[1..]
    {
      while !isTerminal && color <= state.nColors
        invariant Remaining() == old(Remaining())
        decreases state.nColors + 1 - color
      {
        var newColor := color;
        color := color + 1;
        if newColor in neighborsColors {
          continue;
        }
        return Some(newColor);
      }
      return None;
    }
  }

  /** The largest colour plus one, or 0 if there is none or it is negative: what `n_colors` tracks from the empty state. */
  function MaxPlusOne(colorings: seq<int>): (k: int)
    ensures forall i :: 0 <= i < |colorings| ==> colorings[i] < k
    ensures k >= 0 && (k == 0 || exists i :: 0 <= i < |colorings| && colorings[i] == k - 1)
  {
    if colorings == [] then 0
    else
      var front := colorings[..|colorings| - 1];
      var k0 := MaxPlusOne(front);
      var last := colorings[|colorings| - 1];
      assert forall i :: 0 <= i < |front| ==> colorings[i] == front[i];
      assert k0 > 0 ==> exists i :: 0 <= i < |front| && colorings[i] == k0 - 1;
      if k0 >= last + 1 then k0 else last + 1
  }

  /** The states reachable from the empty colouring of `graph`. */
  predicate Inv(graph: Graph, s: SeqState)
  {
    && s.graph == graph && GraphOk(graph) && |s.colorings| <= |graph|
    && ColoursBelow(s.colorings, s.nColors)
    && s.nColors == MaxPlusOne(s.colorings)
  }

  /** The initial state `GraphColorSeqState(graph)`. */
  lemma EmptyInv(graph: Graph)
    requires GraphOk(graph)
    ensures Inv(graph, SeqState(graph, [], 0))
  {
  }

  /** `n_colors` stays one past the largest colour, so the fresh colour `n_colors` is always offered. */
  lemma PlayKeepsInv(graph: Graph, s: SeqState, c: int)
    requires Inv(graph, s) && c in Actions(s)
    ensures Inv(graph, Play(s, c))
    ensures !IsTerminal(s)
  {
    ActionsSpec(s);
    var t := Play(s, c);
    assert t.colorings[..|t.colorings| - 1] == s.colorings;
  }

  /** A non-terminal reachable state always offers the fresh colour `n_colors`. */
  lemma FreshColourOffered(graph: Graph, s: SeqState)
    requires Inv(graph, s) && !IsTerminal(s)
    ensures s.nColors in Actions(s)
  {
    ActionsSpec(s);
  }

  /** `is_valid`: no coloured vertex shares its colour with a coloured neighbour. */
  predicate IsValid(s: SeqState)
    requires |s.colorings| <= |s.graph|
  {
    ProperPrefix(s.graph, s.colorings)
  }

  /** On a symmetric graph, playing an offered colour keeps the colouring proper. */
  lemma PlayKeepsValid(s: SeqState, c: int)
    requires GraphOk(s.graph) && Symmetric(s.graph) && Loopless(s.graph) && |s.colorings| < |s.graph|
    requires IsValid(s) && c in Actions(s)
    ensures IsValid(Play(s, c))
  {
    ActionsSpec(s);
    var t := Play(s, c);
    var v := |s.colorings|;
    forall i, j | 0 <= i < |t.colorings| && j in t.graph[i] && 0 <= j < |t.colorings|
      ensures t.colorings[i] != t.colorings[j]
    {
      if i == v && j < v {
        assert s.colorings[j] in NeighborColors(s);
      } else if j == v && i < v {
        assert v in s.graph[i];
        assert i in s.graph[v];
        assert s.colorings[i] in NeighborColors(s);
      }
    }
  }

  /** On reachable states of one graph, `equals` (colourings only) is full equality. */
  lemma EqualsIsEquality(graph: Graph, s: SeqState, t: SeqState)
    requires Inv(graph, s) && Inv(graph, t)
    ensures Equals(s, t) <==> s == t
  {
  }

  /** The domain as the search engine sees it: both action lists are the iterator's. */
  function SeqGame(graph: Graph): (g: Game<SeqState, int>)
    ensures forall s :: g.inv(s) <==> Inv(graph, s)
    ensures forall s :: Inv(graph, s) ==> g.actionsTree(s) == g.actionsDefault(s) == Actions(s)
  {
    Game(
      (s: SeqState) => Inv(graph, s),
      (s: SeqState) => IsTerminal(s),
      (s: SeqState) => Reward(s),
      (s: SeqState, r: int) => r,
      (s: SeqState) => if |s.colorings| <= |s.graph| then Actions(s) else [],
      (s: SeqState) => if |s.colorings| <= |s.graph| then Actions(s) else [],
      (s: SeqState, c: int) => Play(s, c),
      (s: SeqState) => if |s.colorings| <= |s.graph| then |s.graph| - |s.colorings| else 0)
  }

  /** The sequential colouring domain meets the engine's contract, and its rewards are taken as they are. */
  lemma SeqGameWellFormed(graph: Graph)
    ensures WellFormed(SeqGame(graph))
    ensures IdentityInterpretation(SeqGame(graph))
  {
    var g := SeqGame(graph);
    forall s | g.inv(s) && !g.isTerminal(s)
      ensures g.actionsTree(s) != [] && g.actionsDefault(s) != []
    {
      FreshColourOffered(graph, s);
    }
    forall s, a | g.inv(s) && a in g.actionsTree(s)
      ensures g.inv(g.play(s, a))
    {
      PlayKeepsInv(graph, s, a);
    }
    forall s, a | g.inv(s) && !g.isTerminal(s) && a in g.actionsDefault(s)
      ensures g.inv(g.play(s, a)) && g.measure(g.play(s, a)) < g.measure(s)
    {
      PlayKeepsInv(graph, s, a);
    }
  }
}

/**
 * Tic-tac-toe as a search domain (mcts/src/mcts/sample/tic_tac_toe_state.py):
 * a board of nine cells (0 empty, 1 for X, 2 for O) and the mark whose turn
 * it is.
 */
module TicTacToe {
  import opened Wrappers
  import opened Collections
  import opened Games

  datatype TttState = TttState(board: seq<int>, turn: int)

  /** The initial state: an empty board, X to move. */
  const Start: TttState := TttState([0, 0, 0, 0, 0, 0, 0, 0, 0], 1)

  /** `play`: an index outside 0..8 or an occupied cell leaves the state as it is. */
  function Play(s: TttState, action: int): TttState
    requires |s.board| == 9
  {
    if action < 0 || action > 8 || s.board[action] != 0 then s
    else TttState(s.board[action := s.turn], s.turn % 2 + 1)
  }

  /** `check_sequence`: three equal non-empty cells. */
  predicate CheckSequence(a: int, b: int, c: int)
  {
    a != 0 && a == b && b == c
  }

  /** The product of the cells, which `winner` compares with 0. */
  function Prod(b: seq<int>): int
  {
    if b == [] then 1 else b[0] * Prod(b[1..])
  }

  /** The product of integers is 0 exactly when one of them is. */
  lemma {:induction false} ProdZero(b: seq<int>)
    ensures Prod(b) == 0 <==> 0 in b
  {
    if b != [] {
      ProdZero(b[1..]);
      assert b == [b[0]] + b[1..];
    }
  }

  /** The loop of `winner` from row and column `i` on, then the diagonals, then the empty-cell test. */
  function WinnerFrom(b: seq<int>, i: nat): int
    requires |b| == 9 && i <= 3
    decreases 3 - i
  {
    if i == 3 then
      if CheckSequence(b[0], b[4], b[8]) then b[0]
      else if CheckSequence(b[2], b[4], b[6]) then b[2]
      else if Prod(b) == 0 then -1
      else 0
    else if CheckSequence(b[i * 3], b[i * 3 + 1], b[i * 3 + 2]) then b[i * 3]
    else if CheckSequence(b[i], b[3 + i], b[6 + i]) then b[i]
    else WinnerFrom(b, i + 1)
  }

  /** `winner`: the mark of a completed line, -1 while cells are empty, 0 for a full board. */
  function Winner(b: seq<int>): int
    requires |b| == 9
  {
    WinnerFrom(b, 0)
  }

  /** The eight lines in the order `winner` inspects them: row 0, column 0, row 1, column 1, row 2, column 2, the diagonals. */
  const Lines: seq<(int, int, int)> :=
    [(0, 1, 2), (0, 3, 6), (3, 4, 5), (1, 4, 7), (6, 7, 8), (2, 5, 8), (0, 4, 8), (2, 4, 6)]

  predicate Completed(b: seq<int>, k: int)
    requires |b| == 9 && 0 <= k < 8
  {
    CheckSequence(b[Lines[k].0], b[Lines[k].1], b[Lines[k].2])
  }

  /**
   * `winner` returns the mark of the first completed line; with no completed
   * line, -1 if a cell is empty and 0 otherwise.
   */
  lemma WinnerSpec(b: seq<int>)
    requires |b| == 9
    ensures forall k :: 0 <= k < 8 && Completed(b, k) && (forall j :: 0 <= j < k ==> !Completed(b, j)) ==>
      Winner(b) == b[Lines[k].0]
    ensures (forall k :: 0 <= k < 8 ==> !Completed(b, k)) ==> Winner(b) == if 0 in b then -1 else 0
  {
    ProdZero(b);
    assert WinnerFrom(b, 0) == if Completed(b, 0) then b[0] else if Completed(b, 1) then b[0] else WinnerFrom(b, 1);
    assert WinnerFrom(b, 1) == if Completed(b, 2) then b[3] else if Completed(b, 3) then b[1] else WinnerFrom(b, 2);
    assert WinnerFrom(b, 2) == if Completed(b, 4) then b[6] else if Completed(b, 5) then b[2] else WinnerFrom(b, 3);
    assert WinnerFrom(b, 3) ==
      if Completed(b, 6) then b[0] else if Completed(b, 7) then b[2] else if 0 in b then -1 else 0;
  }

  /** `is_terminal`: the game is over once `winner` is not -1. */
  predicate IsTerminal(s: TttState)
    requires |s.board| == 9
  {
    Winner(s.board) != -1
  }

  /** `get_reward`: 1 when X has won, -1 when O has won, 0 otherwise. */
  function Reward(s: TttState): int
    requires |s.board| == 9
  {
    var w := Winner(s.board);
    if w == 1 then 1 else if w == 2 then -1 else 0
  }

  /** `interpret_reward`: negated when X is to move. */
  function Interpret(s: TttState, reward: int): int
  {
    if s.turn == 1 then -1 * reward else reward
  }

  /** `equals`: only the boards are compared. */
  predicate Equals(s: TttState, t: TttState)
  {
    s.board == t.board
  }

  /** The indices from `from` to 8 of the empty cells, ascending. */
  function EmptyCells(b: seq<int>, from: nat): seq<int>
    requires |b| == 9
    decreases 9 - from
  {
    if from >= 9 then []
    else if b[from] != 0 then EmptyCells(b, from + 1)
    else [from] + EmptyCells(b, from + 1)
  }

  lemma {:induction false} EmptyCellsMembers(b: seq<int>, from: nat, c: int)
    requires |b| == 9
    ensures c in EmptyCells(b, from) <==> from <= c < 9 && b[c] == 0
    decreases 9 - from
  {
    if from < 9 {
      EmptyCellsMembers(b, from + 1, c);
    }
  }

  lemma {:induction false} EmptyCellsIncreasing(b: seq<int>, from: nat)
    requires |b| == 9
    ensures forall i, j :: 0 <= i < j < |EmptyCells(b, from)| ==> EmptyCells(b, from)[i] < EmptyCells(b, from)[j]
    decreases 9 - from
  {
    if from < 9 {
      var rest := EmptyCells(b, from + 1);
      EmptyCellsIncreasing(b, from + 1);
      forall k | 0 <= k < |rest|
        ensures from < rest[k]
      {
        EmptyCellsMembers(b, from + 1, rest[k]);
      }
    }
  }

  /** The actions the iterator yields: nothing for a terminal state, otherwise the empty cells. */
  function Actions(s: TttState): seq<int>
    requires |s.board| == 9
  {
    if IsTerminal(s) then [] else EmptyCells(s.board, 0)
  }

  /** The actions of a non-terminal state are exactly its empty cells, ascending. */
  lemma ActionsSpec(s: TttState)
    requires |s.board| == 9 && !IsTerminal(s)
    ensures forall c :: c in Actions(s) <==> 0 <= c < 9 && s.board[c] == 0
    ensures forall i, j :: 0 <= i < j < |Actions(s)| ==> Actions(s)[i] < Actions(s)[j]
  {
    forall c
      ensures c in Actions(s) <==> 0 <= c < 9 && s.board[c] == 0
    {
      EmptyCellsMembers(s.board, 0, c);
    }
    EmptyCellsIncreasing(s.board, 0);
  }

  /** `TicTacToeStateIterator`: a cell cursor over the state's board. */
  class TttIterator {
    const state: TttState
    var iterIndex: nat

    /** The actions still to come. */
    ghost function Remaining(): seq<int>
      requires |state.board| == 9
      reads this
    {
      if IsTerminal(state) then [] else EmptyCells(state.board, iterIndex)
    }

    constructor(s: TttState)
      requires |s.board| == 9
      ensures state == s && iterIndex == 0 && Remaining() == Actions(s)
    {
      state := s;
      iterIndex := 0;
    }

    /** `__iter__`: restart from cell 0. */
    method Reset()
      requires |state.board| == 9
      modifies this
      ensures iterIndex == 0 && Remaining() == Actions(state)
    {
      iterIndex := 0;
    }

    /** `__next__`: the next empty cell, or `None` for `StopIteration`. */
    method Next() returns (r: Option<int>)
      requires |state.board| == 9
      modifies this
      ensures old(Remaining()) == [] ==> r == None && Remaining() == []
      ensures old(Remaining()) != [] ==> r == Some(old(Remaining())[0]) && Remaining() == old(Remaining())[1..]
    {
      if !IsTerminal(state) {
        while iterIndex < 9
          invariant Remaining() == old(Remaining())
          decreases 9 - iterIndex
        {
          if state.board[iterIndex] != 0 {
            iterIndex := iterIndex + 1;
            continue;
          }
          var action := iterIndex;
          iterIndex := iterIndex + 1;
          return Some(action);
        }
      }
      return None;
    }
  }

  /** How often `mark` occurs on the board. */
  function Count(b: seq<int>, mark: int): nat
  {
    if b == [] then 0 else (if b[0] == mark then 1 else 0) + Count(b[1..], mark)
  }

  lemma {:induction false} CountUpdate(b: seq<int>, i: nat, mark: int)
    requires i < |b| && b[i] == 0 && mark != 0
    ensures Count(b[i := mark], mark) == Count(b, mark) + 1
    ensures Count(b[i := mark], 0) == Count(b, 0) - 1
    ensures forall m :: m != mark && m != 0 ==> Count(b[i := mark], m) == Count(b, m)
  {
    if i > 0 {
      CountUpdate(b[1..], i - 1, mark);
      assert b[i := mark][1..] == b[1..][i - 1 := mark];
    }
  }

  /**
   * The states reachable from the empty board: cells hold 0, 1 or 2, and X
   * has one mark more than O exactly when O is to move.
   */
  predicate Inv(s: TttState)
  {
    && |s.board| == 9
    && (forall i :: 0 <= i < 9 ==> s.board[i] in {0, 1, 2})
    && s.turn in {1, 2}
    && Count(s.board, 1) == Count(s.board, 2) + (if s.turn == 2 then 1 else 0)
  }

  lemma StartInv()
    ensures Inv(Start) && !IsTerminal(Start)
  {
    assert Count(Start.board, 1) == 0 && Count(Start.board, 2) == 0;
    WinnerSpec(Start.board);
  }

  /** A legal play marks one empty cell for the player to move and passes the turn; the board alternates. */
  lemma PlayKeepsInv(s: TttState, a: int)
    requires Inv(s) && 0 <= a < 9 && s.board[a] == 0
    ensures Play(s, a).board == s.board[a := s.turn]
    ensures Play(s, a).turn == 3 - s.turn
    ensures Inv(Play(s, a))
    ensures Count(Play(s, a).board, 0) < Count(s.board, 0)
  {
    CountUpdate(s.board, a, s.turn);
  }

  /** An out-of-range index or an occupied cell changes nothing. */
  lemma IllegalPlayIsIgnored(s: TttState, a: int)
    requires |s.board| == 9 && (a < 0 || a > 8 || s.board[a] != 0)
    ensures Play(s, a) == s
  {
  }

  /** On a board of proper marks, the game is over exactly when a line is completed or no cell is empty. */
  lemma TerminalSpec(s: TttState)
    requires Inv(s)
    ensures IsTerminal(s) <==> (exists k :: 0 <= k < 8 && Completed(s.board, k)) || 0 !in s.board
  {
    WinnerSpec(s.board);
    var b := s.board;
    if exists k :: 0 <= k < 8 && Completed(b, k) {
      var k :| 0 <= k < 8 && Completed(b, k) && (forall j :: 0 <= j < k ==> !Completed(b, j)) by {
        FirstCompleted(b);
      }
      assert b[Lines[k].0] in {1, 2};
    }
  }

  /** Some completed line comes first in `winner`'s order. */
  lemma FirstCompleted(b: seq<int>)
    requires |b| == 9 && exists k :: 0 <= k < 8 && Completed(b, k)
    ensures exists k :: 0 <= k < 8 && Completed(b, k) && forall j :: 0 <= j < k ==> !Completed(b, j)
  {
    var k :| 0 <= k < 8 && Completed(b, k);
    var m := 0;
    while !Completed(b, m)
      invariant 0 <= m <= k && forall j :: 0 <= j < m ==> !Completed(b, j)
      decreases k - m
    {
      m := m + 1;
    }
  }

  /**
   * The interpreted reward of a won game is +1 for the player who made the
   * last move (the one not to move now) and -1 for the other.
   */
  lemma InterpretFavoursLastMover(s: TttState)
    requires Inv(s) && Winner(s.board) in {1, 2}
    ensures Interpret(s, Reward(s)) == if Winner(s.board) == s.turn then -1 else 1
  {
  }

  /** On reachable states, `equals` (boards only) is full equality: the board determines whose turn it is. */
  lemma EqualsIsEquality(s: TttState, t: TttState)
    requires Inv(s) && Inv(t)
    ensures Equals(s, t) <==> s == t
  {
  }

  /** The domain as the search engine sees it: both action lists are the iterator's. */
  function TttGame(): (g: Game<TttState, int>)
    ensures forall s :: g.inv(s) <==> Inv(s)
    ensures forall s :: Inv(s) ==> g.actionsTree(s) == g.actionsDefault(s) == Actions(s)
  {
    Game(
      (s: TttState) => Inv(s),
      (s: TttState) => |s.board| == 9 && IsTerminal(s),
      (s: TttState) => if |s.board| == 9 then Reward(s) else 0,
      (s: TttState, r: int) => Interpret(s, r),
      (s: TttState) => if |s.board| == 9 then Actions(s) else [],
      (s: TttState) => if |s.board| == 9 then Actions(s) else [],
      (s: TttState, a: int) => if |s.board| == 9 then Play(s, a) else s,
      (s: TttState) => Count(s.board, 0))
  }

  /** Tic-tac-toe meets the engine's contract. */
  lemma TttGameWellFormed()
    ensures WellFormed(TttGame())
  {
    var g := TttGame();
    forall s | g.inv(s) && !g.isTerminal(s)
      ensures g.actionsTree(s) != [] && g.actionsDefault(s) != []
    {
      TerminalSpec(s);
      var c := IndexOf(s.board, 0);
      ActionsSpec(s);
      assert c in Actions(s);
    }
    forall s, a | g.inv(s) && a in g.actionsTree(s)
      ensures g.inv(g.play(s, a))
    {
      ActionsSpec(s);
      PlayKeepsInv(s, a);
    }
    forall s, a | g.inv(s) && !g.isTerminal(s) && a in g.actionsDefault(s)
      ensures g.inv(g.play(s, a)) && g.measure(g.play(s, a)) < g.measure(s)
    {
      ActionsSpec(s);
      PlayKeepsInv(s, a);
    }
  }
}

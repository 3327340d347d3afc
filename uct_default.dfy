/**
 * The UCT default policy (mcts/src/mcts/algorithms/uct/uct_default_policy.py):
 * run `nSims` rollouts from a node's state, report every rollout's terminal
 * state and raw reward to an optional solutions tracker, and return the sum
 * of the raw rewards with weight `nSims`. Only the sequential path is
 * modelled.
 */
module UctDefault {
  import opened Wrappers
  import opened Games
  import opened Rollouts
  import opened SolutionsTracker

  /** `sum(res[1] for res in results)`. */
  function SumScores<S>(results: seq<Solution<S>>): int
    decreases |results|
  {
    if results == [] then 0 else SumScores(results[..|results| - 1]) + results[|results| - 1].score
  }

  class UctDefaultPolicy<S(!new), A(!new)> {
    const game: Game<S, A>
    const nSims: int
    const heur: Option<(S, seq<A>) -> seq<real>>
    const solutions: Solutions?<S>

    constructor (game: Game<S, A>, nSims: int, heur: Option<(S, seq<A>) -> seq<real>>, solutions: Solutions?<S>)
      ensures this.game == game && this.nSims == nSims && this.heur == heur && this.solutions == solutions
    {
      this.game := game;
      this.nSims := nSims;
      this.heur := heur;
      this.solutions := solutions;
    }

    /** `run_simulation` from `start`: one rollout, weighted by `heur(start, actions)` at every step. */
    method RunSimulation(start: S) returns (last: S, reward: int, ghost picks: seq<nat>)
      requires WellFormed(game) && game.inv(start) && Admissible(heur)
      ensures game.isTerminal(last) && reward == game.reward(last)
      ensures Rollout(game, heur, start, start, picks, last)
      ensures game.isTerminal(start) ==> last == start
    {
      last, reward, picks := RunRollout(game, heur, start);
    }

    /**
     * `simulate` from `start`: `nSims` rollouts (none when `nSims` is not
     * positive), all submitted in order to the tracker, if there is one; the
     * result is the sum of their raw rewards with weight `nSims`.
     */
    method Simulate(start: S) returns (reward: int, weight: int, ghost results: seq<Solution<S>>)
      requires WellFormed(game) && game.inv(start) && Admissible(heur)
      modifies solutions
      ensures weight == nSims
      ensures |results| == if nSims > 0 then nSims else 0
      ensures forall k :: 0 <= k < |results| ==>
        && game.isTerminal(results[k].state) && results[k].score == game.reward(results[k].state)
        && Reaches(game, heur, start, results[k].state)
      ensures reward == SumScores(results)
      ensures solutions != null ==>
        && solutions.best == Fold(old(solutions.best), results)
        && solutions.history == old(solutions.history) + if solutions.keepHistory then results else []
    {
      var count := if nSims > 0 then nSims else 0;
      var all: seq<Solution<S>> := [];
      for i := 0 to count
        invariant |all| == i
        invariant forall k :: 0 <= k < i ==>
          && game.isTerminal(all[k].state) && all[k].score == game.reward(all[k].state)
          && Reaches(game, heur, start, all[k].state)
        invariant solutions != null ==> unchanged(solutions)
      {
        var last, r, picks := RunSimulation(start);
        all := all + [Solution(last, r)];
        assert Reaches(game, heur, start, last);
      }
      if solutions != null {
        solutions.AddSolutions(all);
      }
      results := all;
      reward := SumScores(all);
      weight := nSims;
    }
  }
}

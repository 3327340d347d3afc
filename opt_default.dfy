/**
 * The OPT default policy (mcts/src/mcts/algorithms/opt/opt_default_policy.py):
 * one uniformly drawn rollout per simulation, with weight 1, and a record of
 * the best terminal state seen, by interpreted reward.
 */
module OptDefault {
  import opened Wrappers
  import opened Extended
  import opened Games
  import opened Rollouts

  class OptDefaultPolicy<S(!new), A(!new)> {
    const game: Game<S, A>
    /** `best_solution`: the best terminal state so far (`None` at first) and its interpreted reward (`-inf` at first). */
    var bestState: Option<S>
    var bestScore: ExtInt

    /** A recorded state is terminal and scored by its own interpreted reward. */
    ghost predicate Valid()
      reads this
    {
      && (bestState.None? <==> bestScore == NegInf)
      && (bestState.Some? ==>
            && game.isTerminal(bestState.value)
            && bestScore == Fin(game.interpret(bestState.value, game.reward(bestState.value))))
    }

    constructor (game: Game<S, A>)
      ensures Valid() && this.game == game
      ensures bestState == None && bestScore == NegInf
    {
      this.game := game;
      bestState := None;
      bestScore := NegInf;
    }

    /**
     * `simulate` from `start`: a rollout with uniform draws; the terminal
     * state replaces the recorded one exactly when its interpreted reward is
     * strictly greater. Returns the raw reward with weight 1.
     */
    method Simulate(start: S) returns (reward: int, weight: int, ghost last: S)
      requires Valid() && WellFormed(game) && game.inv(start)
      modifies this
      ensures Valid()
      ensures weight == 1
      ensures game.isTerminal(last) && reward == game.reward(last) && Reaches(game, None, start, last)
      ensures game.isTerminal(start) ==> last == start
      ensures bestScore == Max(old(bestScore), game.interpret(last, reward))
      ensures bestState == if Less(old(bestScore), Fin(game.interpret(last, reward))) then Some(last) else old(bestState)
      ensures LessEq(old(bestScore), bestScore)
    {
      var final, r, picks := RunRollout(game, None, start);
      last := final;
      reward := r;
      var value := game.interpret(final, r);
      if Less(bestScore, Fin(value)) {
        bestState := Some(final);
        bestScore := Fin(value);
      }
      weight := 1;
    }
  }
}

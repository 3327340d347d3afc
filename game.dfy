/**
 * The state contract every domain plugged into the search engine satisfies
 * (the abstract `State` class of mcts/src/mcts/interfaces/state.py), given as
 * a record of total functions so that the engine can be generic over it.
 *
 * `actionsTree` and `actionsDefault` are the finite action sequences the
 * domain's iterators enumerate, materialised as lists. `inv` says which states
 * the domain can reach, and `measure` is a progress measure: the engine's
 * rollouts only terminate because playing a legal action moves towards a
 * terminal state, which the domain contract promises.
 */
module Games {

  datatype Game<!S, !A> = Game(
    inv: S -> bool,
    isTerminal: S -> bool,
    reward: S -> int,
    interpret: (S, int) -> int,
    actionsTree: S -> seq<A>,
    actionsDefault: S -> seq<A>,
    play: (S, A) -> S,
    measure: S -> nat)

  /**
   * The domain contract: a reachable non-terminal state has actions, playing
   * an enumerated action yields a reachable state, and every rollout step
   * decreases the progress measure.
   */
  ghost predicate WellFormed<S(!new), A(!new)>(g: Game<S, A>)
  {
    && (forall s :: g.inv(s) && !g.isTerminal(s) ==> g.actionsTree(s) != [] && g.actionsDefault(s) != [])
    && (forall s, a :: g.inv(s) && a in g.actionsTree(s) ==> g.inv(g.play(s, a)))
    && (forall s, a :: g.inv(s) && !g.isTerminal(s) && a in g.actionsDefault(s) ==>
          g.inv(g.play(s, a)) && g.measure(g.play(s, a)) < g.measure(s))
  }

  /** The domain scores every state's reward as it is (the colouring domains do). */
  ghost predicate IdentityInterpretation<S(!new), A>(g: Game<S, A>)
  {
    forall s: S, r: int :: g.interpret(s, r) == r
  }
}

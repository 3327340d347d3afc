/**
 * Rollouts: play actions drawn at random from a state's default actions
 * until a terminal state is reached. The random draw is a nondeterministic
 * choice among the actions `random.choice` / `random.choices` can return.
 */
module Rollouts {
  import opened Wrappers
  import opened Games

  /**
   * `random.choices(actions, weights)[0]` can return `actions[k]`: any
   * action when there are no weights, otherwise one of positive weight.
   * The weights are computed from the rollout's `origin` state.
   */
  predicate Drawable<S, A>(heur: Option<(S, seq<A>) -> seq<real>>, origin: S, actions: seq<A>, k: nat)
  {
    && k < |actions|
    && (heur.None? || (k < |heur.value(origin, actions)| && heur.value(origin, actions)[k] > 0.0))
  }

  /**
   * What `random.choices` demands of the weights: one per action, none
   * negative, and a positive total.
   */
  ghost predicate Admissible<S(!new), A(!new)>(heur: Option<(S, seq<A>) -> seq<real>>)
  {
    heur.Some? ==>
      forall s: S, actions: seq<A> | actions != [] ::
        && |heur.value(s, actions)| == |actions|
        && (forall k :: 0 <= k < |actions| ==> heur.value(s, actions)[k] >= 0.0)
        && (exists k :: 0 <= k < |actions| && heur.value(s, actions)[k] > 0.0)
  }

  lemma SomeDrawable<S(!new), A(!new)>(heur: Option<(S, seq<A>) -> seq<real>>, origin: S, actions: seq<A>)
    requires Admissible(heur) && actions != []
    ensures exists k :: Drawable(heur, origin, actions, k)
  {
    if heur.None? {
      assert Drawable(heur, origin, actions, 0);
    } else {
      var k :| 0 <= k < |actions| && heur.value(origin, actions)[k] > 0.0;
      assert Drawable(heur, origin, actions, k);
    }
  }

  /**
   * Starting in `s`, drawing the default actions at positions `picks` (each
   * from a non-terminal state) ends in `last`.
   */
  ghost predicate Rollout<S, A>(g: Game<S, A>, heur: Option<(S, seq<A>) -> seq<real>>, origin: S,
                                s: S, picks: seq<nat>, last: S)
    decreases |picks|
  {
    if picks == [] then last == s
    else
      && !g.isTerminal(s)
      && Drawable(heur, origin, g.actionsDefault(s), picks[0])
      && Rollout(g, heur, origin, g.play(s, g.actionsDefault(s)[picks[0]]), picks[1..], last)
  }

  /** Some rollout from `start` ends in `last`. */
  ghost predicate Reaches<S, A>(g: Game<S, A>, heur: Option<(S, seq<A>) -> seq<real>>, start: S, last: S)
  {
    exists picks :: Rollout(g, heur, start, start, picks, last)
  }

  lemma {:induction false} RolloutExtend<S, A>(g: Game<S, A>, heur: Option<(S, seq<A>) -> seq<real>>, origin: S,
                                               s: S, picks: seq<nat>, last: S, k: nat)
    requires Rollout(g, heur, origin, s, picks, last)
    requires !g.isTerminal(last) && Drawable(heur, origin, g.actionsDefault(last), k)
    ensures Rollout(g, heur, origin, s, picks + [k], g.play(last, g.actionsDefault(last)[k]))
    decreases |picks|
  {
    if picks == [] {
      assert picks + [k] == [k];
    } else {
      var next := g.play(s, g.actionsDefault(s)[picks[0]]);
      RolloutExtend(g, heur, origin, next, picks[1..], last, k);
      assert (picks + [k])[1..] == picks[1..] + [k];
    }
  }

  /** A rollout from a terminal state makes no move. */
  lemma RolloutFromTerminal<S, A>(g: Game<S, A>, heur: Option<(S, seq<A>) -> seq<real>>, origin: S,
                                  s: S, picks: seq<nat>, last: S)
    requires Rollout(g, heur, origin, s, picks, last) && g.isTerminal(s)
    ensures picks == [] && last == s
  {
  }

  /**
   * The rollout loop: from `start`, draw and play default actions until the
   * state is terminal, then return it with its raw reward.
   */
  method RunRollout<S(!new), A(!new)>(g: Game<S, A>, heur: Option<(S, seq<A>) -> seq<real>>, start: S)
    returns (last: S, reward: int, ghost picks: seq<nat>)
    requires WellFormed(g) && g.inv(start) && Admissible(heur)
    ensures g.isTerminal(last) && g.inv(last) && reward == g.reward(last)
    ensures Rollout(g, heur, start, start, picks, last)
    ensures g.isTerminal(start) ==> last == start
  {
    last := start;
    picks := [];
    while !g.isTerminal(last)
      invariant g.inv(last) && Rollout(g, heur, start, start, picks, last)
      invariant g.isTerminal(start) ==> last == start
      decreases g.measure(last)
    {
      var actions := g.actionsDefault(last);
      SomeDrawable(heur, start, actions);
      var k: nat :| k < |actions| && Drawable(heur, start, actions, k);
      assert actions[k] in actions;
      RolloutExtend(g, heur, start, start, picks, last, k);
      picks := picks + [k];
      last := g.play(last, actions[k]);
    }
    reward := g.reward(last);
  }
}

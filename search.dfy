/**
 * The search driver (mcts/src/mcts/monte_carlo_tree_search.py): a fixed
 * number of iterations, each descending with the tree policy, simulating from
 * the node it returns and backpropagating that result from the same node.
 * `maxTime` is accepted and never consulted; the random draws of iteration
 * `k` are the oracle `explore(k)`.
 */
module Search {
  import opened Wrappers
  import opened Games
  import opened SearchTree
  import opened Rollouts
  import opened Extended
  import opened SolutionsTracker
  import UctNode
  import UctPolicy
  import UctDefault
  import OptNode
  import OptPolicy
  import OptDefault

  /** The number of iterations `while n_iter < max_iter` performs. */
  function Iterations(maxIter: int): nat
  {
    if maxIter > 0 then maxIter else 0
  }

  // ---------------------------------------------------------------------------
  // What the iterations did

  /**
   * One iteration: the node the tree policy returned, the reward the
   * default policy reported from it, and the rollouts behind that reward.
   */
  datatype Visit<S> = Visit(node: nat, reward: int, results: seq<Solution<S>>)

  /**
   * `reward` is what simulating from `from` reports: `nSims` rollouts (none
   * when it is not positive) drawn with the weights `heur`, each ending in a
   * terminal state scored by its raw reward, and `reward` is their sum.
   */
  ghost predicate SimulatedFrom<S, A>(g: Game<S, A>, heur: Option<(S, seq<A>) -> seq<real>>, nSims: int, from: S,
                                     reward: int, results: seq<Solution<S>>)
  {
    && |results| == (if nSims > 0 then nSims else 0)
    && (forall k :: 0 <= k < |results| ==>
          && g.isTerminal(results[k].state) && results[k].score == g.reward(results[k].state)
          && Reaches(g, heur, from, results[k].state))
    && reward == UctDefault.SumScores(results)
  }

  /** Every iteration of `trace` reached a node of `a` at or below `start` and simulated from that node's state. */
  ghost predicate Traced<S, A>(g: Game<S, A>, heur: Option<(S, seq<A>) -> seq<real>>, nSims: int,
                               a: Arena<S>, start: nat, trace: seq<Visit<S>>)
    requires Linked(a)
  {
    forall k :: 0 <= k < |trace| ==>
      && trace[k].node < a.Size() && start in Anc(a.parent, trace[k].node)
      && SimulatedFrom(g, heur, nSims, a.state[trace[k].node], trace[k].reward, trace[k].results)
  }

  /** The number of iterations of `trace` whose backpropagation passed through node `j`. */
  ghost function VisitsTo<S>(parent: seq<int>, trace: seq<Visit<S>>, j: nat): nat
    requires ParentsOrdered(parent)
    decreases |trace|
  {
    if trace == [] then 0
    else
      var v := trace[|trace| - 1];
      VisitsTo(parent, trace[..|trace| - 1], j) + if v.node < |parent| && j in Anc(parent, v.node) then 1 else 0
  }

  /** The total of the rewards of those iterations, each as node `j`'s state interprets it. */
  ghost function CreditsTo<S, A>(g: Game<S, A>, states: seq<S>, parent: seq<int>, trace: seq<Visit<S>>, j: nat): int
    requires ParentsOrdered(parent) && j < |states|
    decreases |trace|
  {
    if trace == [] then 0
    else
      var v := trace[|trace| - 1];
      CreditsTo(g, states, parent, trace[..|trace| - 1], j)
        + if v.node < |parent| && j in Anc(parent, v.node) then g.interpret(states[j], v.reward) else 0
  }

  /** OPT statistics after applying the rewards of `trace`, in order, each along its path with weight 1. */
  ghost function Replayed<S, A>(g: Game<S, A>, states: seq<S>, parent: seq<int>, stats: seq<OptNode.NodeStats>,
                                trace: seq<Visit<S>>): (r: seq<OptNode.NodeStats>)
    requires ParentsOrdered(parent) && |states| == |parent| == |stats|
    ensures |r| == |stats|
    decreases |trace|
  {
    if trace == [] then stats
    else
      var v := trace[|trace| - 1];
      var before := Replayed(g, states, parent, stats, trace[..|trace| - 1]);
      if v.node < |parent| then OptNode.UpdatedOn(g, states, before, Anc(parent, v.node), v.reward, 1) else before
  }

  lemma VisitsAppend<S>(parent: seq<int>, trace: seq<Visit<S>>, v: Visit<S>, j: nat)
    requires ParentsOrdered(parent)
    ensures VisitsTo(parent, trace + [v], j)
         == VisitsTo(parent, trace, j) + if v.node < |parent| && j in Anc(parent, v.node) then 1 else 0
  {
    assert (trace + [v])[..|trace|] == trace;
  }

  lemma CreditsAppend<S, A>(g: Game<S, A>, states: seq<S>, parent: seq<int>, trace: seq<Visit<S>>, v: Visit<S>, j: nat)
    requires ParentsOrdered(parent) && j < |states|
    ensures CreditsTo(g, states, parent, trace + [v], j)
         == CreditsTo(g, states, parent, trace, j)
            + if v.node < |parent| && j in Anc(parent, v.node) then g.interpret(states[j], v.reward) else 0
  {
    assert (trace + [v])[..|trace|] == trace;
  }

  /**
   * When the tree grows from `a0` to `a1`, a node of `a0` keeps its count of
   * iterations that reached nodes of `a0`, and an appended node lies on none
   * of their paths.
   */
  lemma {:induction false} VisitsExtends<S>(a0: Arena<S>, a1: Arena<S>, trace: seq<Visit<S>>, j: nat)
    requires Extends(a0, a1) && j < a1.Size()
    requires forall k :: 0 <= k < |trace| ==> trace[k].node < a0.Size()
    ensures VisitsTo(a1.parent, trace, j) == if j < a0.Size() then VisitsTo(a0.parent, trace, j) else 0
    decreases |trace|
  {
    if trace != [] {
      var v := trace[|trace| - 1];
      VisitsExtends(a0, a1, trace[..|trace| - 1], j);
      AncPrefix(a0.parent, a1.parent, v.node);
      if j >= a0.Size() && j in Anc(a0.parent, v.node) {
        AncBelow(a0.parent, v.node, j);
      }
    }
  }

  /** The same for the credited rewards, which old nodes interpret by their unchanged states. */
  lemma {:induction false} CreditsExtends<S, A>(g: Game<S, A>, a0: Arena<S>, a1: Arena<S>, trace: seq<Visit<S>>, j: nat)
    requires Extends(a0, a1) && j < a1.Size()
    requires forall k :: 0 <= k < |trace| ==> trace[k].node < a0.Size()
    ensures CreditsTo(g, a1.state, a1.parent, trace, j)
         == if j < a0.Size() then CreditsTo(g, a0.state, a0.parent, trace, j) else 0
    decreases |trace|
  {
    if trace != [] {
      var v := trace[|trace| - 1];
      CreditsExtends(g, a0, a1, trace[..|trace| - 1], j);
      AncPrefix(a0.parent, a1.parent, v.node);
      if j < a0.Size() {
        assert a1.state[j] == a1.state[..a0.Size()][j];
      } else if j in Anc(a0.parent, v.node) {
        AncBelow(a0.parent, v.node, j);
      }
    }
  }

  /**
   * The invariant of the UCT loop for N, kept by one iteration at node `j`.
   * Suppose N of `j` was its value before the loop (0 for a node expanded
   * since) plus `weight` for each iteration of `trace` whose path passed
   * through it. Then, after the tree grows from `a0` to `a1` and `v` is
   * backpropagated, the same holds of `trace + [v]`.
   */
  lemma UctVisitsAt<S>(a0: Arena<S>, a1: Arena<S>, n0: seq<int>, n: seq<int>, trace: seq<Visit<S>>, v: Visit<S>,
                       weight: int, j: nat)
    requires Extends(a0, a1) && |n0| <= a0.Size() && |n| == a0.Size() && v.node < a1.Size() && j < a1.Size()
    requires forall k :: 0 <= k < |trace| ==> trace[k].node < a0.Size()
    requires j < a0.Size() ==> n[j] == Padded(n0, a0.Size(), 0)[j] + weight * VisitsTo(a0.parent, trace, j)
    ensures Bump(Padded(n, a1.Size(), 0), Anc(a1.parent, v.node), weight)[j]
         == Padded(n0, a1.Size(), 0)[j] + weight * VisitsTo(a1.parent, trace + [v], j)
  {
    VisitsExtends(a0, a1, trace, j);
    VisitsAppend(a1.parent, trace, v, j);
    var before := VisitsTo(a1.parent, trace, j);
    var hit := if j in Anc(a1.parent, v.node) then 1 else 0;
    var m := Padded(n, a1.Size(), 0)[j];
    var base := Padded(n0, a1.Size(), 0)[j];
    if j < a0.Size() {
      assert m == n[j] && base == Padded(n0, a0.Size(), 0)[j];
    } else {
      assert m == 0 && base == 0 && before == 0;
      MulZero(weight);
    }
    assert m == base + weight * before;
    MulDistributes(weight, before, hit);
  }

  /** The same invariant for W: node `j`'s W gains the reward of every iteration through it, as it interprets it. */
  lemma UctCreditsAt<S, A>(g: Game<S, A>, a0: Arena<S>, a1: Arena<S>, w0: seq<int>, w: seq<int>,
                           trace: seq<Visit<S>>, v: Visit<S>, j: nat)
    requires Extends(a0, a1) && |w0| <= a0.Size() && |w| == a0.Size() && v.node < a1.Size() && j < a1.Size()
    requires forall k :: 0 <= k < |trace| ==> trace[k].node < a0.Size()
    requires j < a0.Size() ==> w[j] == Padded(w0, a0.Size(), 0)[j] + CreditsTo(g, a0.state, a0.parent, trace, j)
    ensures UctNode.Credited(g, a1.state, Padded(w, a1.Size(), 0), Anc(a1.parent, v.node), v.reward)[j]
         == Padded(w0, a1.Size(), 0)[j] + CreditsTo(g, a1.state, a1.parent, trace + [v], j)
  {
    CreditsExtends(g, a0, a1, trace, j);
    CreditsAppend(g, a1.state, a1.parent, trace, v, j);
  }

  /** A single uniform rollout that ends in `last` is a simulation of one game from `from`. */
  lemma SimulatedOnce<S, A>(g: Game<S, A>, from: S, last: S)
    requires g.isTerminal(last) && Reaches(g, None, from, last)
    ensures SimulatedFrom(g, None, 1, from, g.reward(last), [Solution(last, g.reward(last))])
  {
    assert UctDefault.SumScores([Solution(last, g.reward(last))]) == g.reward(last);
  }

  /**
   * The visit counts `n` and the totals `w` of tree `a` are those of the counts `n0` and totals `w0`
   * it started from (zero for nodes added since), plus `weight` times the number of iterations of
   * `trace` that passed through each node, and the credit each of them gave it.
   */
  ghost predicate Tallied<S, A>(g: Game<S, A>, a: Arena<S>, n0: seq<int>, w0: seq<int>, n: seq<int>, w: seq<int>,
                                trace: seq<Visit<S>>, weight: int)
    requires Linked(a)
  {
    && |n0| <= a.Size() && |w0| <= a.Size() && |n| == |w| == a.Size()
    && (forall j :: 0 <= j < a.Size() ==> n[j] == Padded(n0, a.Size(), 0)[j] + weight * VisitsTo(a.parent, trace, j))
    && (forall j :: 0 <= j < a.Size() ==> w[j] == Padded(w0, a.Size(), 0)[j] + CreditsTo(g, a.state, a.parent, trace, j))
  }

  /** Both UCT loop invariants, kept by one iteration at every node of the grown tree. */
  lemma UctTallyStep<S, A>(g: Game<S, A>, a0: Arena<S>, a1: Arena<S>, n0: seq<int>, w0: seq<int>, n: seq<int>, w: seq<int>,
                           trace: seq<Visit<S>>, v: Visit<S>, weight: int)
    requires Extends(a0, a1) && v.node < a1.Size()
    requires forall k :: 0 <= k < |trace| ==> trace[k].node < a0.Size()
    requires Tallied(g, a0, n0, w0, n, w, trace, weight)
    ensures Tallied(g, a1, n0, w0, Bump(Padded(n, a1.Size(), 0), Anc(a1.parent, v.node), weight),
                    UctNode.Credited(g, a1.state, Padded(w, a1.Size(), 0), Anc(a1.parent, v.node), v.reward), trace + [v], weight)
  {
    forall j | 0 <= j < a1.Size()
      ensures Bump(Padded(n, a1.Size(), 0), Anc(a1.parent, v.node), weight)[j]
           == Padded(n0, a1.Size(), 0)[j] + weight * VisitsTo(a1.parent, trace + [v], j)
      ensures UctNode.Credited(g, a1.state, Padded(w, a1.Size(), 0), Anc(a1.parent, v.node), v.reward)[j]
           == Padded(w0, a1.Size(), 0)[j] + CreditsTo(g, a1.state, a1.parent, trace + [v], j)
    {
      UctVisitsAt(a0, a1, n0, n, trace, v, weight, j);
      UctCreditsAt(g, a0, a1, w0, w, trace, v, j);
    }
  }

  /** A node on the path of every recorded iteration, such as `start` or the root, was visited by each of them. */
  lemma {:induction false} VisitedEveryTime<S, A>(g: Game<S, A>, heur: Option<(S, seq<A>) -> seq<real>>, nSims: int,
                                                  a: Arena<S>, start: nat, trace: seq<Visit<S>>, j: nat)
    requires Linked(a) && start < a.Size() && Traced(g, heur, nSims, a, start, trace)
    requires j == start || j in Anc(a.parent, start)
    ensures VisitsTo(a.parent, trace, j) == |trace|
    decreases |trace|
  {
    if trace != [] {
      var v := trace[|trace| - 1];
      VisitedEveryTime(g, heur, nSims, a, start, trace[..|trace| - 1], j);
      if j != start {
        AncTrans(a.parent, v.node, start, j);
      }
    }
  }

  /** Every recorded iteration added `nSims` visits to `start` and to the root. */
  lemma TalliedAtRoot<S, A>(g: Game<S, A>, heur: Option<(S, seq<A>) -> seq<real>>, nSims: int, a: Arena<S>, start: nat,
                            n0: seq<int>, w0: seq<int>, n: seq<int>, w: seq<int>, trace: seq<Visit<S>>)
    requires Linked(a) && start < |n0| && Traced(g, heur, nSims, a, start, trace)
    requires Tallied(g, a, n0, w0, n, w, trace, nSims)
    ensures n[start] == n0[start] + |trace| * nSims
    ensures n[0] == n0[0] + |trace| * nSims
  {
    AncHasRoot(a.parent, start);
    VisitedEveryTime(g, heur, nSims, a, start, trace, start);
    VisitedEveryTime(g, heur, nSims, a, start, trace, 0);
    MulComm(nSims, |trace|);
  }

  /** Scores that each lie in [lo, hi] add up to between `lo` and `hi` times their number. */
  lemma {:induction false} SumScoresInRange<S>(results: seq<Solution<S>>, lo: int, hi: int)
    requires forall k :: 0 <= k < |results| ==> lo <= results[k].score <= hi
    ensures lo * |results| <= UctDefault.SumScores(results) <= hi * |results|
    decreases |results|
  {
    if results != [] {
      var front := results[..|results| - 1];
      SumScoresInRange(front, lo, hi);
      MulDistributes(lo, |front|, 1);
      MulDistributes(hi, |front|, 1);
    }
  }

  /**
   * With rewards read as they are and every terminal reward in [lo, hi], a
   * UCT iteration keeps every node's W between `lo` and `hi` times its N: the
   * nodes it adds start at N = 0, W = 0, and the `nSims` games it simulates
   * add `nSims` to N and their summed rewards to W along the path.
   */
  lemma IterationKeepsRange<S(!new), A>(g: Game<S, A>, heur: Option<(S, seq<A>) -> seq<real>>, nSims: int, a: Arena<S>,
                                        n0: seq<int>, w0: seq<int>, node: nat, reward: int, results: seq<Solution<S>>,
                                        lo: int, hi: int)
    requires Linked(a) && node < a.Size() && |n0| <= a.Size() && UctNode.InRange(n0, w0, lo, hi)
    requires SimulatedFrom(g, heur, nSims, a.state[node], reward, results)
    requires IdentityInterpretation(g) && nSims >= 0
    requires forall s :: g.isTerminal(s) ==> lo <= g.reward(s) <= hi
    ensures UctNode.InRange(Bump(Padded(n0, a.Size(), 0), Anc(a.parent, node), nSims),
                            UctNode.Credited(g, a.state, Padded(w0, a.Size(), 0), Anc(a.parent, node), reward), lo, hi)
  {
    UctNode.PaddedKeepsRange(n0, w0, a.Size(), lo, hi);
    SumScoresInRange(results, lo, hi);
    UctNode.BackpropKeepsRange(g, a.state, Padded(n0, a.Size(), 0), Padded(w0, a.Size(), 0), Anc(a.parent, node),
                               reward, nSims, lo, hi);
  }

  /** Growing the tree keeps the record of earlier iterations true of the larger tree. */
  lemma TracedExtends<S, A>(g: Game<S, A>, heur: Option<(S, seq<A>) -> seq<real>>, nSims: int,
                            a0: Arena<S>, a1: Arena<S>, start: nat, trace: seq<Visit<S>>)
    requires Extends(a0, a1) && Traced(g, heur, nSims, a0, start, trace)
    ensures Traced(g, heur, nSims, a1, start, trace)
  {
    forall k | 0 <= k < |trace|
      ensures trace[k].node < a1.Size() && start in Anc(a1.parent, trace[k].node)
      ensures a1.state[trace[k].node] == a0.state[trace[k].node]
    {
      AncPrefix(a0.parent, a1.parent, trace[k].node);
      assert a1.state[trace[k].node] == a1.state[..a0.Size()][trace[k].node];
    }
  }

  /**
   * OPT statistics replayed on a larger tree: the appended nodes lie on no
   * recorded path, so they keep the fresh statistics, and the old nodes
   * replay exactly as before.
   */
  lemma {:induction false} ReplayedExtends<S, A>(g: Game<S, A>, a0: Arena<S>, a1: Arena<S>, s0: seq<OptNode.NodeStats>,
                                                 trace: seq<Visit<S>>)
    requires Extends(a0, a1) && |s0| <= a0.Size()
    requires forall k :: 0 <= k < |trace| ==> trace[k].node < a0.Size()
    ensures Replayed(g, a1.state, a1.parent, Padded(s0, a1.Size(), OptNode.Unvisited), trace)
         == Padded(Replayed(g, a0.state, a0.parent, Padded(s0, a0.Size(), OptNode.Unvisited), trace),
                   a1.Size(), OptNode.Unvisited)
    decreases |trace|
  {
    var p1 := Padded(s0, a1.Size(), OptNode.Unvisited);
    var p0 := Padded(s0, a0.Size(), OptNode.Unvisited);
    if trace == [] {
      assert p1 == Padded(p0, a1.Size(), OptNode.Unvisited);
    } else {
      var v := trace[|trace| - 1];
      var front := trace[..|trace| - 1];
      ReplayedExtends(g, a0, a1, s0, front);
      var b1 := Replayed(g, a1.state, a1.parent, p1, front);
      var b0 := Replayed(g, a0.state, a0.parent, p0, front);
      AncPrefix(a0.parent, a1.parent, v.node);
      var path := Anc(a0.parent, v.node);
      var m1 := OptNode.UpdatedOn(g, a1.state, b1, path, v.reward, 1);
      var m0 := OptNode.UpdatedOn(g, a0.state, b0, path, v.reward, 1);
      forall j | 0 <= j < a1.Size()
        ensures m1[j] == Padded(m0, a1.Size(), OptNode.Unvisited)[j]
      {
        if j < a0.Size() {
          assert a1.state[j] == a1.state[..a0.Size()][j];
        } else if j in path {
          AncBelow(a0.parent, v.node, j);
        }
      }
    }
  }

  /** Replaying one more iteration applies its reward along its path to the statistics replayed so far. */
  lemma ReplayedAppend<S, A>(g: Game<S, A>, states: seq<S>, parent: seq<int>, stats: seq<OptNode.NodeStats>,
                             trace: seq<Visit<S>>, v: Visit<S>)
    requires ParentsOrdered(parent) && |states| == |parent| == |stats| && v.node < |parent|
    ensures Replayed(g, states, parent, stats, trace + [v])
         == OptNode.UpdatedOn(g, states, Replayed(g, states, parent, stats, trace), Anc(parent, v.node), v.reward, 1)
  {
    assert (trace + [v])[..|trace|] == trace;
  }

  // ---------------------------------------------------------------------------
  // UCT

  /**
   * `run` with the UCT policies from node `start`. It returns `start`, and
   * `trace` records what each of the `max(max_iter, 0)` iterations did. Each
   * iteration reached a node at or below `start`, ran the simulations of
   * `simulate` from that node's state, and backpropagated their summed reward
   * from that node. The result: every node's N is its N before the run plus
   * `nSims` per iteration whose path passed through it, and its W gains
   * those iterations' rewards as its state interprets them.
   */
  method RunUct<S(!new), A(!new)>(t: UctNode.UctTree<S, A>, policy: UctDefault.UctDefaultPolicy<S, A>, start: nat,
                                   maxIter: int, maxTime: real, explore: nat -> (int, nat) -> real)
    returns (root: nat, ghost trace: seq<Visit<S>>)
    requires t.Valid() && start < t.Size() && policy.game == t.game
    requires WellFormed(t.game) && AllReachable(t.shape, t.game) && Admissible(policy.heur)
    modifies t, policy.solutions
    ensures root == start && |trace| == Iterations(maxIter)
    ensures t.Valid() && AllReachable(t.shape, t.game) && Extends(old(t.shape), t.shape)
    ensures Traced(t.game, policy.heur, policy.nSims, t.shape, start, trace)
    ensures forall j :: 0 <= j < t.Size() ==>
      t.n[j] == Padded(old(t.n), t.Size(), 0)[j] + policy.nSims * VisitsTo(t.shape.parent, trace, j)
    ensures forall j :: 0 <= j < t.Size() ==>
      t.w[j] == Padded(old(t.w), t.Size(), 0)[j] + CreditsTo(t.game, t.shape.state, t.shape.parent, trace, j)
    ensures t.n[start] == old(t.n[start]) + Iterations(maxIter) * policy.nSims
    ensures t.n[0] == old(t.n[0]) + Iterations(maxIter) * policy.nSims
    ensures Balanced(old(t.shape), old(t.n), old(t.direct)) ==> Balanced(t.shape, t.n, t.direct)
  {
    ghost var balanced := Balanced(t.shape, t.n, t.direct);
    ghost var a0, n0, w0 := t.shape, t.n, t.w;
    trace := [];
    ProgressStarts(t, policy, start);
    var nIter := 0;
    while nIter < maxIter
      invariant UctProgress(t, policy, start, a0, n0, w0, trace)
      invariant 0 <= nIter <= Iterations(maxIter) && |trace| == nIter
      invariant balanced ==> Balanced(t.shape, t.n, t.direct)
      decreases maxIter - nIter
    {
      ghost var v := UctStep(t, policy, start, explore(nIter), a0, n0, w0, trace);
      trace := trace + [v];
      nIter := nIter + 1;
    }
    root := start;
    ProgressTallies(t, policy, start, a0, n0, w0, trace);
  }

  /**
   * The state of `RunUct`'s loop: the tree extends `a0`, the tree it
   * started from; `trace` records the iterations so far; and N and W are
   * the starting `n0` and `w0` (zero for nodes added since) plus their
   * tallies over `trace`.
   */
  ghost predicate UctProgress<S(!new), A(!new)>(t: UctNode.UctTree<S, A>, policy: UctDefault.UctDefaultPolicy<S, A>,
                                                start: nat, a0: Arena<S>, n0: seq<int>, w0: seq<int>,
                                                trace: seq<Visit<S>>)
    reads t
  {
    && t.Valid() && start < t.Size() && policy.game == t.game && AllReachable(t.shape, t.game)
    && Extends(a0, t.shape)
    && Traced(t.game, policy.heur, policy.nSims, t.shape, start, trace)
    && Tallied(t.game, t.shape, n0, w0, t.n, t.w, trace, policy.nSims)
  }

  /** Before the first iteration the record is empty and N and W are as they started. */
  lemma ProgressStarts<S(!new), A(!new)>(t: UctNode.UctTree<S, A>, policy: UctDefault.UctDefaultPolicy<S, A>, start: nat)
    requires t.Valid() && start < t.Size() && policy.game == t.game && AllReachable(t.shape, t.game)
    ensures UctProgress(t, policy, start, t.shape, t.n, t.w, [])
  {
    PaddedGrow(t.n, 0);
    PaddedGrow(t.w, 0);
  }

  /** What the state of `RunUct`'s loop says about N and W, node by node, and about the start node and the root. */
  lemma ProgressTallies<S(!new), A(!new)>(t: UctNode.UctTree<S, A>, policy: UctDefault.UctDefaultPolicy<S, A>,
                                          start: nat, a0: Arena<S>, n0: seq<int>, w0: seq<int>, trace: seq<Visit<S>>)
    requires UctProgress(t, policy, start, a0, n0, w0, trace) && start < |n0|
    ensures forall j :: 0 <= j < t.Size() ==>
      t.n[j] == Padded(n0, t.Size(), 0)[j] + policy.nSims * VisitsTo(t.shape.parent, trace, j)
    ensures forall j :: 0 <= j < t.Size() ==>
      t.w[j] == Padded(w0, t.Size(), 0)[j] + CreditsTo(t.game, t.shape.state, t.shape.parent, trace, j)
    ensures t.n[start] == n0[start] + |trace| * policy.nSims
    ensures t.n[0] == n0[0] + |trace| * policy.nSims
  {
    TalliedAtRoot(t.game, policy.heur, policy.nSims, t.shape, start, n0, w0, t.n, t.w, trace);
  }

  /** One iteration of the loop of `RunUct`, which adds its visit to the record of the earlier ones. */
  method UctStep<S(!new), A(!new)>(t: UctNode.UctTree<S, A>, policy: UctDefault.UctDefaultPolicy<S, A>, start: nat,
                                    explore: (int, nat) -> real, ghost a0: Arena<S>, ghost n0: seq<int>,
                                    ghost w0: seq<int>, ghost trace: seq<Visit<S>>)
    returns (ghost v: Visit<S>)
    requires WellFormed(t.game) && Admissible(policy.heur)
    requires UctProgress(t, policy, start, a0, n0, w0, trace)
    modifies t, policy.solutions
    ensures UctProgress(t, policy, start, a0, n0, w0, trace + [v])
    ensures Balanced(old(t.shape), old(t.n), old(t.direct)) ==> Balanced(t.shape, t.n, t.direct)
  {
    ghost var a, n, w := t.shape, t.n, t.w;
    var node, reward, results := UctIteration(t, policy, start, explore);
    v := Visit(node, reward, results);
    UctTallyStep(t.game, a, t.shape, n0, w0, n, w, trace, v, policy.nSims);
    TracedExtends(t.game, policy.heur, policy.nSims, a, t.shape, start, trace);
    TracedAppend(t.game, policy.heur, policy.nSims, t.shape, start, trace, v);
    ExtendsTrans(a0, a, t.shape);
  }

  lemma TracedAppend<S, A>(g: Game<S, A>, heur: Option<(S, seq<A>) -> seq<real>>, nSims: int,
                           a: Arena<S>, start: nat, trace: seq<Visit<S>>, v: Visit<S>)
    requires Linked(a) && Traced(g, heur, nSims, a, start, trace)
    requires v.node < a.Size() && start in Anc(a.parent, v.node)
    requires SimulatedFrom(g, heur, nSims, a.state[v.node], v.reward, v.results)
    ensures Traced(g, heur, nSims, a, start, trace + [v])
  {
    assert forall k :: 0 <= k < |trace| ==> (trace + [v])[k] == trace[k];
  }

  /**
   * One iteration of `run` with the UCT policies. The tree policy returns
   * `node`, at or below `start`, unvisited or terminal. `simulate` from its
   * state reports `reward`, the sum of the raw rewards of the rollouts
   * `results`, which are also submitted to the tracker. That reward is then
   * backpropagated from `node` with weight `nSims`.
   */
  method UctIteration<S(!new), A(!new)>(t: UctNode.UctTree<S, A>, policy: UctDefault.UctDefaultPolicy<S, A>, start: nat,
                                         explore: (int, nat) -> real)
    returns (node: nat, reward: int, ghost results: seq<Solution<S>>)
    requires t.Valid() && start < t.Size() && policy.game == t.game
    requires WellFormed(t.game) && AllReachable(t.shape, t.game) && Admissible(policy.heur)
    modifies t, policy.solutions
    ensures t.Valid() && AllReachable(t.shape, t.game) && Extends(old(t.shape), t.shape)
    ensures node < t.Size() && start in Anc(t.shape.parent, node)
    ensures Padded(old(t.n), t.Size(), 0)[node] == 0 || t.game.isTerminal(t.shape.state[node])
    ensures SimulatedFrom(t.game, policy.heur, policy.nSims, t.shape.state[node], reward, results)
    ensures t.n == Bump(Padded(old(t.n), t.Size(), 0), Anc(t.shape.parent, node), policy.nSims)
    ensures t.w == UctNode.Credited(t.game, t.shape.state, Padded(old(t.w), t.Size(), 0), Anc(t.shape.parent, node), reward)
    ensures policy.solutions != null ==>
      && policy.solutions.best == Fold(old(policy.solutions.best), results)
      && policy.solutions.history == old(policy.solutions.history) + if policy.solutions.keepHistory then results else []
    ensures t.n[start] == old(t.n[start]) + policy.nSims
    ensures t.n[0] == old(t.n[0]) + policy.nSims
    ensures Balanced(old(t.shape), old(t.n), old(t.direct)) ==> Balanced(t.shape, t.n, t.direct)
  {
    node := UctDescend(t, start, explore);
    reward, results := UctPlayout(t, policy, node);
    AncHasRoot(t.shape.parent, node);
  }

  /**
   * The descent of a UCT iteration: the tree policy reaches a node at or
   * below `start`, unvisited or terminal, expanding at most one fresh node
   * (N = W = 0) on the way. In a well-formed domain it cannot fail.
   */
  method UctDescend<S(!new), A(!new)>(t: UctNode.UctTree<S, A>, start: nat, explore: (int, nat) -> real)
    returns (node: nat)
    requires t.Valid() && start < t.Size()
    requires WellFormed(t.game) && AllReachable(t.shape, t.game)
    modifies t
    ensures t.Valid() && AllReachable(t.shape, t.game) && Extends(old(t.shape), t.shape)
    ensures node < t.Size() && start in Anc(t.shape.parent, node)
    ensures t.n == Padded(old(t.n), t.Size(), 0) && t.w == Padded(old(t.w), t.Size(), 0)
    ensures t.n[node] == 0 || t.game.isTerminal(t.shape.state[node])
    ensures Balanced(old(t.shape), old(t.n), old(t.direct)) ==> Balanced(t.shape, t.n, t.direct)
  {
    ghost var a0 := t.shape;
    PaddedGrow(t.n, 0);
    PaddedGrow(t.w, 0);
    var next := UctPolicy.TreePolicy(t, start, explore);
    node := next.value;
    ExpansionExtends(t.game, a0, t.shape);
  }

  /**
   * Simulation from node `x` and backpropagation of its result: `simulate`
   * from `x`'s state reports `reward`, the sum of the raw rewards of the
   * rollouts `results` (also submitted to the tracker), and that reward is
   * backpropagated from `x` with weight `nSims`.
   */
  method UctPlayout<S(!new), A(!new)>(t: UctNode.UctTree<S, A>, policy: UctDefault.UctDefaultPolicy<S, A>, x: nat)
    returns (reward: int, ghost results: seq<Solution<S>>)
    requires t.Valid() && x < t.Size() && policy.game == t.game
    requires WellFormed(t.game) && AllReachable(t.shape, t.game) && Admissible(policy.heur)
    modifies t, policy.solutions
    ensures t.Valid() && t.shape == old(t.shape)
    ensures SimulatedFrom(t.game, policy.heur, policy.nSims, t.shape.state[x], reward, results)
    ensures t.n == Bump(old(t.n), Anc(t.shape.parent, x), policy.nSims)
    ensures t.w == UctNode.Credited(t.game, t.shape.state, old(t.w), Anc(t.shape.parent, x), reward)
    ensures policy.solutions != null ==>
      && policy.solutions.best == Fold(old(policy.solutions.best), results)
      && policy.solutions.history == old(policy.solutions.history) + if policy.solutions.keepHistory then results else []
    ensures Balanced(old(t.shape), old(t.n), old(t.direct)) ==> Balanced(t.shape, t.n, t.direct)
  {
    var weight;
    reward, weight, results := policy.Simulate(t.shape.state[x]);
    UctPolicy.Backpropagate(t, x, reward, weight);
  }

  // ---------------------------------------------------------------------------
  // OPT

  /** A backpropagation of weight 1 from `x` leaves every non-root node visited, if all but `x` were. */
  lemma VisitedAfterBackprop<S, A>(a: Arena<S>, g: Game<S, A>, stats: seq<OptNode.NodeStats>, x: nat, reward: int)
    requires Linked(a) && |stats| == a.Size() && x < a.Size()
    requires forall c :: 0 < c < |stats| && c != x ==> stats[c].n >= 1
    requires x > 0 ==> stats[x].n >= 0
    ensures OptNode.VisitedBelowRootIn(OptNode.UpdatedOn(g, a.state, stats, Anc(a.parent, x), reward, 1))
  {
    assert x in Anc(a.parent, x);
  }

  /**
   * One iteration of `run` with the OPT policies. The descent from `start`
   * either fails, changing no statistics, or reaches `visit.node`, at or
   * below `start`, unvisited or terminal. One uniform rollout from its state
   * ends in `visit.results[0].state`, whose raw reward `visit.reward` is
   * backpropagated from `visit.node` with weight 1 and offered to the
   * recorded best. The descent cannot fail when every non-root node has been
   * visited.
   */
  method OptIteration<S(!new), A(!new)>(t: OptNode.OptTree<S, A>, policy: OptDefault.OptDefaultPolicy<S, A>, start: nat,
                                         explore: (int, nat) -> real)
    returns (r: Result<nat, Fault>, ghost visit: Visit<S>)
    requires t.Valid() && start < t.Size() && policy.game == t.game && policy.Valid()
    requires WellFormed(t.game) && AllReachable(t.shape, t.game)
    modifies t, policy
    ensures t.Valid() && start < t.Size() && policy.Valid() && AllReachable(t.shape, t.game)
    ensures Extends(old(t.shape), t.shape)
    ensures old(t.VisitedBelowRoot()) ==> r.Ok? && t.VisitedBelowRoot()
    ensures r.Err? ==> t.stats == Padded(old(t.stats), t.Size(), OptNode.Unvisited)
    ensures r.Ok? ==> r.value == start && t.stats[start].n == old(t.stats[start].n) + 1
    ensures r.Ok? ==> visit.node < t.Size() && start in Anc(t.shape.parent, visit.node)
    ensures r.Ok? ==>
      Padded(old(t.stats), t.Size(), OptNode.Unvisited)[visit.node].n == 0 || t.game.isTerminal(t.shape.state[visit.node])
    ensures r.Ok? ==> SimulatedFrom(t.game, None, 1, t.shape.state[visit.node], visit.reward, visit.results)
    ensures r.Ok? ==> t.stats == OptNode.UpdatedOn(t.game, t.shape.state, Padded(old(t.stats), t.Size(), OptNode.Unvisited),
                                                   Anc(t.shape.parent, visit.node), visit.reward, 1)
    ensures r.Ok? ==> policy.bestScore == Max(old(policy.bestScore), t.game.interpret(visit.results[0].state, visit.reward))
    ensures LessEq(old(policy.bestScore), policy.bestScore)
    ensures Balanced(old(t.shape), OptNode.Counts(old(t.stats)), old(t.direct)) ==>
      Balanced(t.shape, OptNode.Counts(t.stats), t.direct)
    ensures IdentityInterpretation(t.game) && old(t.Contained()) ==> t.Contained()
  {
    var next := OptDescend(t, start, explore);
    if next.Err? {
      return Err(next.error), Visit(0, 0, []);
    }
    var x := next.value;
    ghost var before := t.stats;
    assert before[start] == old(t.stats[start]);
    var reward, last := OptPlayout(t, policy, x);
    assert t.stats[start].n == before[start].n + 1;
    visit := Visit(x, reward, [Solution(last, reward)]);
    SimulatedOnce(t.game, t.shape.state[x], last);
    return Ok(start), visit;
  }

  /**
   * The descent of an OPT iteration: it reaches a node at or below `start`,
   * unvisited or terminal, expanding at most one fresh node on the way. When
   * every node below the root had been visited, it succeeds and only the
   * node reached may still be unvisited.
   */
  method OptDescend<S(!new), A(!new)>(t: OptNode.OptTree<S, A>, start: nat, explore: (int, nat) -> real)
    returns (r: Result<nat, Fault>)
    requires t.Valid() && start < t.Size()
    requires WellFormed(t.game) && AllReachable(t.shape, t.game)
    modifies t
    ensures t.Valid() && start < t.Size() && AllReachable(t.shape, t.game) && Extends(old(t.shape), t.shape)
    ensures t.stats == Padded(old(t.stats), t.Size(), OptNode.Unvisited)
    ensures r.Ok? ==> r.value < t.Size() && start in Anc(t.shape.parent, r.value)
    ensures r.Ok? ==> t.stats[r.value].n == 0 || t.game.isTerminal(t.shape.state[r.value])
    ensures old(t.VisitedBelowRoot()) ==> r.Ok? && (r.value > 0 ==> t.stats[r.value].n >= 0)
    ensures old(t.VisitedBelowRoot()) ==> r.Ok? && forall c :: 0 < c < |t.stats| && c != r.value ==> t.stats[c].n >= 1
    ensures Balanced(old(t.shape), OptNode.Counts(old(t.stats)), old(t.direct)) ==>
      Balanced(t.shape, OptNode.Counts(t.stats), t.direct)
    ensures old(t.Contained()) ==> t.Contained()
  {
    ghost var a0 := t.shape;
    ghost var visited := t.VisitedBelowRoot();
    PaddedGrow(t.stats, OptNode.Unvisited);
    r := OptPolicy.TreePolicy(t, start, explore);
    ExpansionExtends(t.game, a0, t.shape);
    if visited {
      assert forall c :: 0 < c < |t.stats| && c != r.value ==> t.stats[c].n >= 1;
    }
  }

  /**
   * Simulation from node `x` and backpropagation of its result: one uniform
   * rollout from `x`'s state ends in the terminal state `last`, whose raw
   * reward is backpropagated from `x` with weight 1 and offered to the
   * recorded best.
   */
  method OptPlayout<S(!new), A(!new)>(t: OptNode.OptTree<S, A>, policy: OptDefault.OptDefaultPolicy<S, A>, x: nat)
    returns (reward: int, ghost last: S)
    requires t.Valid() && x < t.Size() && policy.game == t.game && policy.Valid()
    requires WellFormed(t.game) && AllReachable(t.shape, t.game)
    modifies t, policy
    ensures t.Valid() && policy.Valid() && t.shape == old(t.shape)
    ensures t.game.isTerminal(last) && reward == t.game.reward(last) && Reaches(t.game, None, t.shape.state[x], last)
    ensures t.stats == OptNode.UpdatedOn(t.game, t.shape.state, old(t.stats), Anc(t.shape.parent, x), reward, 1)
    ensures policy.bestScore == Max(old(policy.bestScore), t.game.interpret(last, reward))
    ensures forall c :: c in Anc(t.shape.parent, x) ==> c < |t.stats| && t.stats[c].n == old(t.stats[c].n) + 1
    ensures (&& old(forall c :: 0 < c < |t.stats| && c != x ==> t.stats[c].n >= 1)
             && (x > 0 ==> old(t.stats[x].n) >= 0)) ==> t.VisitedBelowRoot()
    ensures LessEq(old(policy.bestScore), policy.bestScore)
    ensures Balanced(old(t.shape), OptNode.Counts(old(t.stats)), old(t.direct)) ==>
      Balanced(t.shape, OptNode.Counts(t.stats), t.direct)
    ensures IdentityInterpretation(t.game) && old(t.Contained()) ==> t.Contained()
  {
    var weight;
    reward, weight, last := policy.Simulate(t.shape.state[x]);
    OptBackup(t, x, reward, weight);
  }

  /** Backpropagation of a simulation result of weight 1 from node `x`. */
  method OptBackup<S(!new), A(!new)>(t: OptNode.OptTree<S, A>, x: nat, reward: int, weight: int)
    requires t.Valid() && x < t.Size() && weight == 1
    modifies t
    ensures t.Valid() && t.shape == old(t.shape)
    ensures t.stats == OptNode.UpdatedOn(t.game, t.shape.state, old(t.stats), Anc(t.shape.parent, x), reward, 1)
    ensures forall c :: c in Anc(t.shape.parent, x) ==> c < |t.stats| && t.stats[c].n == old(t.stats[c].n) + 1
    ensures (&& old(forall c :: 0 < c < |t.stats| && c != x ==> t.stats[c].n >= 1)
             && (x > 0 ==> old(t.stats[x].n) >= 0)) ==> t.VisitedBelowRoot()
    ensures Balanced(old(t.shape), OptNode.Counts(old(t.stats)), old(t.direct)) ==>
      Balanced(t.shape, OptNode.Counts(t.stats), t.direct)
    ensures IdentityInterpretation(t.game) && old(t.Contained()) ==> t.Contained()
  {
    if IdentityInterpretation(t.game) {
      assert OptPolicy.SameInterpretation(t.shape, t.game, reward);
    }
    ghost var before := t.stats;
    OptPolicy.Backpropagate(t, x, reward, weight);
    forall c | c in Anc(t.shape.parent, x)
      ensures c < |t.stats|
    {
      AncBelow(t.shape.parent, x, c);
    }
    if (forall c :: 0 < c < |before| && c != x ==> before[c].n >= 1) && (x > 0 ==> before[x].n >= 0) {
      VisitedAfterBackprop(t.shape, t.game, before, x, reward);
    }
  }

  /**
   * The state of `RunOpt`'s loop: the tree extends `a0`, the tree it
   * started from; `trace` records the iterations completed; and the
   * statistics are those replayed over `trace` from `s0` (fresh for nodes
   * added since).
   */
  ghost predicate OptProgress<S(!new), A(!new)>(t: OptNode.OptTree<S, A>, policy: OptDefault.OptDefaultPolicy<S, A>,
                                                start: nat, a0: Arena<S>, s0: seq<OptNode.NodeStats>,
                                                trace: seq<Visit<S>>)
    reads t, policy
  {
    && t.Valid() && start < t.Size() && policy.game == t.game && policy.Valid() && AllReachable(t.shape, t.game)
    && Extends(a0, t.shape) && |s0| <= t.Size()
    && Traced(t.game, None, 1, t.shape, start, trace)
    && t.stats == Replayed(t.game, t.shape.state, t.shape.parent, Padded(s0, t.Size(), OptNode.Unvisited), trace)
  }

  /** Before the first iteration the record is empty and the statistics are as they started. */
  lemma OptProgressStarts<S(!new), A(!new)>(t: OptNode.OptTree<S, A>, policy: OptDefault.OptDefaultPolicy<S, A>,
                                            start: nat)
    requires t.Valid() && start < t.Size() && policy.game == t.game && policy.Valid() && AllReachable(t.shape, t.game)
    ensures OptProgress(t, policy, start, t.shape, t.stats, [])
  {
    PaddedGrow(t.stats, OptNode.Unvisited);
  }

  /**
   * One iteration of the loop of `RunOpt`. On success it adds its visit to
   * the record of the earlier ones, and the statistics are those replayed
   * from `s0` over the longer record; on failure both stay as they were.
   */
  method OptStep<S(!new), A(!new)>(t: OptNode.OptTree<S, A>, policy: OptDefault.OptDefaultPolicy<S, A>, start: nat,
                                    explore: (int, nat) -> real, ghost a0: Arena<S>, ghost s0: seq<OptNode.NodeStats>,
                                    ghost trace: seq<Visit<S>>)
    returns (r: Result<nat, Fault>, ghost v: Visit<S>)
    requires WellFormed(t.game) && OptProgress(t, policy, start, a0, s0, trace)
    modifies t, policy
    ensures r.Ok? ==>
      OptProgress(t, policy, start, a0, s0, trace + [v]) && r.value == start && t.stats[start].n == old(t.stats[start].n) + 1
    ensures r.Err? ==> OptProgress(t, policy, start, a0, s0, trace) && t.stats[start].n == old(t.stats[start].n)
    ensures old(t.VisitedBelowRoot()) ==> r.Ok? && t.VisitedBelowRoot()
    ensures LessEq(old(policy.bestScore), policy.bestScore)
    ensures Balanced(old(t.shape), OptNode.Counts(old(t.stats)), old(t.direct)) ==>
      Balanced(t.shape, OptNode.Counts(t.stats), t.direct)
    ensures IdentityInterpretation(t.game) && old(t.Contained()) ==> t.Contained()
  {
    ghost var a := t.shape;
    r, v := OptIteration(t, policy, start, explore);
    ExtendsTrans(a0, a, t.shape);
    ReplayedExtends(t.game, a, t.shape, s0, trace);
    TracedExtends(t.game, None, 1, a, t.shape, start, trace);
    if r.Ok? {
      ReplayedAppend(t.game, t.shape.state, t.shape.parent, Padded(s0, t.Size(), OptNode.Unvisited), trace, v);
      TracedAppend(t.game, None, 1, t.shape, start, trace, v);
    }
  }

  /**
   * `run` with the OPT policies from node `start`. It returns `start` unless
   * a score raises. It cannot raise when every non-root node has been
   * visited, which a fresh tree satisfies and every iteration keeps, since
   * the child it expands is simulated and backpropagated in the same
   * iteration. `trace` records the iterations completed. Each reached a node
   * at or below `start` and ran one uniform rollout from its state. The
   * statistics are those before the run (fresh for nodes expanded since)
   * with each iteration's reward applied, in order, along its path.
   */
  method RunOpt<S(!new), A(!new)>(t: OptNode.OptTree<S, A>, policy: OptDefault.OptDefaultPolicy<S, A>, start: nat,
                                   maxIter: int, maxTime: real, explore: nat -> (int, nat) -> real)
    returns (r: Result<nat, Fault>, ghost trace: seq<Visit<S>>)
    requires t.Valid() && start < t.Size() && policy.game == t.game && policy.Valid()
    requires WellFormed(t.game) && AllReachable(t.shape, t.game)
    modifies t, policy
    ensures t.Valid() && start < t.Size() && policy.Valid() && AllReachable(t.shape, t.game)
    ensures Extends(old(t.shape), t.shape)
    ensures old(t.VisitedBelowRoot()) ==> r.Ok? && t.VisitedBelowRoot()
    ensures r.Ok? ==> r.value == start && |trace| == Iterations(maxIter)
    ensures |trace| <= Iterations(maxIter) && t.stats[start].n == old(t.stats[start].n) + |trace|
    ensures Traced(t.game, None, 1, t.shape, start, trace)
    ensures t.stats == Replayed(t.game, t.shape.state, t.shape.parent, Padded(old(t.stats), t.Size(), OptNode.Unvisited), trace)
    ensures LessEq(old(policy.bestScore), policy.bestScore)
    ensures Balanced(old(t.shape), OptNode.Counts(old(t.stats)), old(t.direct)) ==>
      Balanced(t.shape, OptNode.Counts(t.stats), t.direct)
    ensures IdentityInterpretation(t.game) && old(t.Contained()) ==> t.Contained()
  {
    ghost var balanced := Balanced(t.shape, OptNode.Counts(t.stats), t.direct);
    ghost var contained := IdentityInterpretation(t.game) && t.Contained();
    ghost var visited := t.VisitedBelowRoot();
    ghost var a0, s0, n0 := t.shape, t.stats, t.stats[start].n;
    trace := [];
    OptProgressStarts(t, policy, start);
    var nIter := 0;
    while nIter < maxIter
      invariant OptProgress(t, policy, start, a0, s0, trace)
      invariant 0 <= nIter <= Iterations(maxIter) && |trace| == nIter
      invariant t.stats[start].n == n0 + nIter
      invariant LessEq(old(policy.bestScore), policy.bestScore)
      invariant balanced ==> Balanced(t.shape, OptNode.Counts(t.stats), t.direct)
      invariant contained ==> IdentityInterpretation(t.game) && t.Contained()
      invariant visited ==> t.VisitedBelowRoot()
      decreases maxIter - nIter
    {
      ghost var scoreBefore := policy.bestScore;
      var step, v := OptStep(t, policy, start, explore(nIter), a0, s0, trace);
      LessEqTrans(old(policy.bestScore), scoreBefore, policy.bestScore);
      if step.Err? {
        return step, trace;
      }
      trace := trace + [v];
      nIter := nIter + 1;
    }
    return Ok(start), trace;
  }
}

/**
 * The UCT tree policy (mcts/src/mcts/algorithms/uct/uct_tree_policy.py):
 * descend from a node, expanding before selecting, and backpropagate a
 * simulation result up the parent chain.
 *
 * The floating-point part of the score (the exploration, heuristic and random
 * terms) is an oracle `explore(parentN, child)`; only its guard is modelled.
 */
module UctPolicy {
  import opened Wrappers
  import opened Games
  import opened SearchTree
  import opened UctNode

  /** `compute_uct`: `inf` for an unvisited child, otherwise its mean reward plus the exploration terms. */
  function UctScore(childN: int, childW: int, extra: real): (s: Score)
    ensures s == Infinite <==> childN == 0
    ensures childN != 0 ==> s == Finite(Mean(childW, childN) + extra) || childN < 0
  {
    if childN == 0 then Infinite else Finite(childW as real / childN as real + extra)
  }

  function ScoresOf(n: seq<int>, w: seq<int>, cs: seq<nat>, parentN: int, explore: (int, nat) -> real): (xs: seq<Score>)
    requires |n| == |w| && forall k :: 0 <= k < |cs| ==> cs[k] < |n|
    ensures |xs| == |cs|
    ensures forall k :: 0 <= k < |cs| ==> xs[k] == UctScore(n[cs[k]], w[cs[k]], explore(parentN, cs[k]))
  {
    seq(|cs|, k requires 0 <= k < |cs| => UctScore(n[cs[k]], w[cs[k]], explore(parentN, cs[k])))
  }

  /**
   * The child `select` descends into: the first of maximal score. An
   * unvisited child scores `inf`, so the first unvisited child wins whenever
   * there is one, and a visited child is chosen only when all are visited.
   */
  function Pick(n: seq<int>, w: seq<int>, cs: seq<nat>, parentN: int, explore: (int, nat) -> real): (k: nat)
    requires |n| == |w| && cs != [] && forall k :: 0 <= k < |cs| ==> cs[k] < |n|
    ensures k < |cs|
    ensures n[cs[k]] == 0 <==> exists j :: 0 <= j < |cs| && n[cs[j]] == 0
    ensures n[cs[k]] == 0 ==> forall j :: 0 <= j < k ==> n[cs[j]] != 0
  {
    var xs := ScoresOf(n, w, cs, parentN, explore);
    var k := FirstMax(xs);
    assert xs[k] == Infinite <==> n[cs[k]] == 0;
    k
  }

  /**
   * `tree_policy(node)`: an unvisited node is returned as it is; otherwise
   * the node's next action is expanded and the fresh child returned; only
   * when no action is left does `select` descend.
   */
  method TreePolicy<S(!new), A(!new)>(t: UctTree<S, A>, i: nat, explore: (int, nat) -> real) returns (r: Result<nat, Fault>)
    requires t.Valid() && i < t.Size()
    modifies t
    ensures t.Valid() && AtMostOneExpansion(t.game, old(t.shape), t.shape)
    ensures t.Size() == old(t.Size()) ==> t.n == old(t.n) && t.w == old(t.w) && t.direct == old(t.direct)
    ensures t.Size() != old(t.Size()) ==>
      && r == Ok(old(t.Size()))
      && t.n == old(t.n) + [0] && t.w == old(t.w) + [0] && t.direct == old(t.direct) + [0]
    ensures r.Ok? ==> r.value < t.Size() && i in Anc(t.shape.parent, r.value)
    ensures r.Ok? ==> t.n[r.value] == 0 || t.game.isTerminal(t.shape.state[r.value])
    ensures r.Err? ==> r.error == NoChildren
    ensures old(t.n[i]) == 0 ==> r == Ok(i) && t.Size() == old(t.Size())
    ensures old(t.n[i]) != 0 && old(t.shape.cursor[i]) < |t.game.actionsTree(old(t.shape.state[i]))| ==>
      t.Size() == old(t.Size()) + 1 && t.shape.parent[old(t.Size())] == i
    ensures Balanced(old(t.shape), old(t.n), old(t.direct)) ==> Balanced(t.shape, t.n, t.direct)
    ensures WellFormed(t.game) && AllReachable(old(t.shape), t.game) ==> r.Ok? && AllReachable(t.shape, t.game)
    decreases t.Size() - i, 1
  {
    if t.n[i] == 0 {
      return Ok(i);
    }
    ghost var a0 := t.shape;
    if WellFormed(t.game) && AllReachable(a0, t.game) && a0.cursor[i] < |t.game.actionsTree(a0.state[i])| {
      ExpandedReachable(a0, t.game, i);
    }
    var next := t.Expand(i);
    if next.Some? {
      ExpandedShaped(a0, t.game, i);
      return Ok(next.value);
    }
    r := Select(t, i, explore);
  }

  /**
   * `select(node)`: a terminal node is returned as it is; otherwise the
   * policy continues from the first child of maximal score (`Pick`), and
   * `max` over no children fails.
   */
  method Select<S(!new), A(!new)>(t: UctTree<S, A>, i: nat, explore: (int, nat) -> real) returns (r: Result<nat, Fault>)
    requires t.Valid() && i < t.Size()
    modifies t
    ensures t.Valid() && AtMostOneExpansion(t.game, old(t.shape), t.shape)
    ensures t.Size() == old(t.Size()) ==> t.n == old(t.n) && t.w == old(t.w) && t.direct == old(t.direct)
    ensures t.Size() != old(t.Size()) ==>
      && r == Ok(old(t.Size()))
      && t.n == old(t.n) + [0] && t.w == old(t.w) + [0] && t.direct == old(t.direct) + [0]
    ensures r.Ok? ==> r.value < t.Size() && i in Anc(t.shape.parent, r.value)
    ensures r.Ok? ==> t.n[r.value] == 0 || t.game.isTerminal(t.shape.state[r.value])
    ensures r.Err? ==> r.error == NoChildren
    ensures t.game.isTerminal(old(t.shape.state[i])) ==> r == Ok(i) && t.Size() == old(t.Size())
    ensures !t.game.isTerminal(old(t.shape.state[i])) && old(t.shape.children[i]) == [] ==>
      r == Err(NoChildren) && t.Size() == old(t.Size())
    ensures !t.game.isTerminal(old(t.shape.state[i])) && old(t.shape.children[i]) != [] && r.Ok? ==>
      old(t.shape.children[i][Pick(t.n, t.w, t.shape.children[i], t.n[i], explore)]) in Anc(t.shape.parent, r.value)
    ensures Balanced(old(t.shape), old(t.n), old(t.direct)) ==> Balanced(t.shape, t.n, t.direct)
    ensures (&& WellFormed(t.game) && AllReachable(old(t.shape), t.game)
             && (t.game.isTerminal(old(t.shape.state[i])) || old(t.shape.children[i]) != []))
      ==> r.Ok? && AllReachable(t.shape, t.game)
    decreases t.Size() - i, 0
  {
    if t.game.isTerminal(t.shape.state[i]) {
      return Ok(i);
    }
    var cs := t.shape.children[i];
    if cs == [] {
      return Err(NoChildren);
    }
    var k := Pick(t.n, t.w, cs, t.n[i], explore);
    var c := cs[k];
    ghost var a0 := t.shape;
    r := TreePolicy(t, c, explore);
    ExpansionKeepsOldNodes(t.game, a0, t.shape, c);
    if r.Ok? {
      AncClosed(t.shape.parent, r.value, c);
    }
  }

  /**
   * `backpropagate(node, (reward, weight))`: every node on the path from `x`
   * to the root is updated exactly once, and no other node changes. The
   * weight is booked as the own simulation weight of `x`.
   */
  method Backpropagate<S, A>(t: UctTree<S, A>, x: nat, reward: int, weight: int)
    requires t.Valid() && x < t.Size()
    modifies t
    ensures t.Valid() && t.shape == old(t.shape)
    ensures t.n == Bump(old(t.n), Anc(t.shape.parent, x), weight)
    ensures t.w == Credited(t.game, t.shape.state, old(t.w), Anc(t.shape.parent, x), reward)
    ensures t.direct == old(t.direct[x := t.direct[x] + weight])
    ensures Balanced(old(t.shape), old(t.n), old(t.direct)) ==> Balanced(t.shape, t.n, t.direct)
  {
    ghost var a0, n0, d0 := t.shape, t.n, t.direct;
    UpdatePath(t, x, reward, weight);
    t.direct := d0[x := d0[x] + weight];
    if Balanced(a0, n0, d0) {
      BalancedAfterBackprop(a0, n0, d0, x, weight);
    }
  }

  /** The loop of `backpropagate`: from `x` up to the root, each node is updated once. */
  method UpdatePath<S, A>(t: UctTree<S, A>, x: nat, reward: int, weight: int)
    requires t.Valid() && x < t.Size()
    modifies t
    ensures t.Valid() && t.shape == old(t.shape) && t.direct == old(t.direct)
    ensures t.n == Bump(old(t.n), Anc(t.shape.parent, x), weight)
    ensures t.w == Credited(t.game, t.shape.state, old(t.w), Anc(t.shape.parent, x), reward)
  {
    ghost var n0, w0, d0 := t.n, t.w, t.direct;
    ghost var path := Anc(t.shape.parent, x);
    ghost var done: set<nat> := {};
    var cur: int := x;
    while cur >= 0
      invariant t.Valid() && t.shape == old(t.shape) && t.direct == d0
      invariant -1 <= cur < t.Size() && |w0| == t.Size()
      invariant cur >= 0 ==> path == done + Anc(t.shape.parent, cur) && done !! Anc(t.shape.parent, cur)
      invariant cur < 0 ==> done == path
      invariant t.n == Bump(n0, done, weight)
      invariant t.w == Credited(t.game, t.shape.state, w0, done, reward)
      decreases cur + 1
    {
      var p := t.shape.parent[cur];
      PathStep(t.shape.parent, path, done, cur);
      UpdateOnce(t, cur, reward, weight, n0, w0, done);
      done := done + {cur};
      cur := p;
    }
  }

  /** One node of the path: its N and W gain the weight and the interpreted reward. */
  method UpdateOnce<S, A>(t: UctTree<S, A>, cur: nat, reward: int, weight: int,
                          ghost n0: seq<int>, ghost w0: seq<int>, ghost done: set<nat>)
    requires t.Valid() && cur < t.Size() && cur !in done && |w0| == t.Size()
    requires t.n == Bump(n0, done, weight)
    requires t.w == Credited(t.game, t.shape.state, w0, done, reward)
    modifies t
    ensures t.Valid() && t.shape == old(t.shape) && t.direct == old(t.direct)
    ensures t.n == Bump(n0, done + {cur}, weight)
    ensures t.w == Credited(t.game, t.shape.state, w0, done + {cur}, reward)
  {
    BumpOneMore(t.n, n0, done, cur, weight);
    CreditOneMore(t.game, t.shape.state, t.w, w0, done, cur, reward);
    t.Update(cur, reward, weight);
  }

  lemma BumpOneMore(n: seq<int>, n0: seq<int>, done: set<nat>, x: nat, weight: int)
    requires n == Bump(n0, done, weight) && x < |n| && x !in done
    ensures n[x := n[x] + weight] == Bump(n0, done + {x}, weight)
  {
  }

  lemma CreditOneMore<S, A>(g: Game<S, A>, states: seq<S>, w: seq<int>, w0: seq<int>, done: set<nat>, x: nat, reward: int)
    requires |states| == |w0| && w == Credited(g, states, w0, done, reward) && x < |w| && x !in done
    ensures w[x := w[x] + g.interpret(states[x], reward)] == Credited(g, states, w0, done + {x}, reward)
  {
  }

  /** Two backpropagations from the same node leave the same N and W in either order. */
  lemma BackpropagationsCommute<S, A>(g: Game<S, A>, states: seq<S>, n: seq<int>, w: seq<int>, p: set<nat>,
                                       r1: int, w1: int, r2: int, w2: int)
    requires |states| == |w|
    ensures Bump(Bump(n, p, w1), p, w2) == Bump(Bump(n, p, w2), p, w1)
    ensures Credited(g, states, Credited(g, states, w, p, r1), p, r2) == Credited(g, states, Credited(g, states, w, p, r2), p, r1)
  {
  }
}

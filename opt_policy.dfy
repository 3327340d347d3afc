/**
 * The OPT tree policy (mcts/src/mcts/algorithms/opt/opt_tree_policy.py): the
 * same descent as UCT, scored by where a child's best reward lies within its
 * parent's [worst, best] range. The exploration and random terms are the
 * oracle `explore(parentN, child)`; the equal-bounds guard and the exploit
 * term are modelled.
 */
module OptPolicy {
  import opened Wrappers
  import opened Extended
  import opened Games
  import opened SearchTree
  import opened OptNode

  /** The exploit term: the child's best reward, scaled so the parent's worst maps to 0 and its best to 1. */
  function Exploit(parentBest: int, parentWorst: int, childBest: int): (r: real)
    requires parentBest != parentWorst
    ensures r * (parentBest - parentWorst) as real == (childBest - parentWorst) as real
    ensures parentWorst <= childBest <= parentBest ==> 0.0 <= r <= 1.0
  {
    var num := (childBest - parentWorst) as real;
    var den := (parentBest - parentWorst) as real;
    assert parentWorst <= childBest <= parentBest ==> 0.0 <= num / den <= 1.0 by {
      if parentWorst <= childBest <= parentBest {
        UnitFraction(num, den);
      }
    }
    num / den
  }

  lemma UnitFraction(num: real, den: real)
    requires 0.0 <= num <= den && den > 0.0
    ensures 0.0 <= num / den <= 1.0
  {
    var r := num / den;
    assert r * den == num;
  }

  /** `compute_uct` once no error is raised: exactly 0 when the parent's bounds coincide. */
  function OptScore(p: NodeStats, c: NodeStats, extra: real): (s: Score)
    requires Scorable(p, c)
    ensures p.best == p.worst ==> s == Finite(0.0)
    ensures s.Finite?
  {
    if p.best == p.worst then Finite(0.0)
    else Finite(Exploit(p.best.v, p.worst.v, c.best.v) + extra)
  }

  /** The score of child `c` under parent `p` can be computed without an error. */
  predicate Scorable(p: NodeStats, c: NodeStats)
  {
    p.best == p.worst || (p.best.Fin? && p.worst.Fin? && c.best.Fin?)
  }

  /** Some child in `cs` was never visited. */
  predicate HasUnvisited(stats: seq<NodeStats>, cs: seq<nat>)
    requires forall k :: 0 <= k < |cs| ==> cs[k] < |stats|
  {
    exists j | 0 <= j < |cs| :: stats[cs[j]].n == 0
  }

  function OptScoresOf(stats: seq<NodeStats>, cs: seq<nat>, p: NodeStats, explore: (int, nat) -> real): (xs: seq<Score>)
    requires forall k :: 0 <= k < |cs| ==> cs[k] < |stats| && Sane(stats[cs[k]])
    requires forall k :: 0 <= k < |cs| ==> Scorable(p, stats[cs[k]])
    ensures |xs| == |cs|
    ensures forall k :: 0 <= k < |cs| ==> xs[k] == OptScore(p, stats[cs[k]], explore(p.n, cs[k]))
  {
    seq(|cs|, k requires 0 <= k < |cs| => OptScore(p, stats[cs[k]], explore(p.n, cs[k])))
  }

  /**
   * The child `select` descends into, or the error scoring the children
   * raises: `log(N)` of a parent that was never updated, or a division by
   * an unvisited child's N. With equal parent bounds every child scores 0
   * and the first child is chosen.
   */
  function OptPick(stats: seq<NodeStats>, cs: seq<nat>, p: NodeStats, explore: (int, nat) -> real): (r: Result<nat, Fault>)
    requires cs != [] && forall k :: 0 <= k < |cs| ==> cs[k] < |stats| && Sane(stats[cs[k]])
    ensures r.Ok? ==> r.value < |cs|
    ensures r == Err(MathDomain) <==> p.best != p.worst && !(p.best.Fin? && p.worst.Fin?)
    ensures r == Err(ZeroVisits) <==> p.best != p.worst && p.best.Fin? && p.worst.Fin? && HasUnvisited(stats, cs)
    ensures r.Err? ==> r.error == MathDomain || r.error == ZeroVisits
    ensures p.best == p.worst ==> r == Ok(0)
  {
    if p.best != p.worst && !(p.best.Fin? && p.worst.Fin?) then Err(MathDomain)
    else if p.best != p.worst && HasUnvisited(stats, cs) then Err(ZeroVisits)
    else
      assert forall k :: 0 <= k < |cs| ==> Scorable(p, stats[cs[k]]) by {
        forall k | 0 <= k < |cs|
          ensures Scorable(p, stats[cs[k]])
        {
          assert Sane(stats[cs[k]]);
        }
      }
      var xs := OptScoresOf(stats, cs, p, explore);
      var k := FirstMax(xs);
      assert p.best == p.worst ==> xs[0] == xs[k] == Finite(0.0);
      assert p.best == p.worst ==> k == 0;
      Ok(k)
  }

  /**
   * `tree_policy(node)`: an unvisited node is returned as it is; otherwise
   * the next action is expanded and the fresh child returned; only when no
   * action is left does `select` descend.
   */
  method TreePolicy<S(!new), A(!new)>(t: OptTree<S, A>, i: nat, explore: (int, nat) -> real) returns (r: Result<nat, Fault>)
    requires t.Valid() && i < t.Size()
    modifies t
    ensures t.Valid() && AtMostOneExpansion(t.game, old(t.shape), t.shape)
    ensures t.Size() == old(t.Size()) ==> t.stats == old(t.stats) && t.direct == old(t.direct)
    ensures t.Size() != old(t.Size()) ==>
      && r == Ok(old(t.Size()))
      && t.stats == old(t.stats) + [Unvisited] && t.direct == old(t.direct) + [0]
    ensures r.Ok? ==> r.value < t.Size() && i in Anc(t.shape.parent, r.value)
    ensures r.Ok? ==> t.stats[r.value].n == 0 || t.game.isTerminal(t.shape.state[r.value])
    ensures old(t.stats[i].n) == 0 ==> r == Ok(i) && t.Size() == old(t.Size())
    ensures old(t.stats[i].n) != 0 && old(t.shape.cursor[i]) < |t.game.actionsTree(old(t.shape.state[i]))| ==>
      t.Size() == old(t.Size()) + 1 && t.shape.parent[old(t.Size())] == i
    ensures Balanced(old(t.shape), Counts(old(t.stats)), old(t.direct)) ==> Balanced(t.shape, Counts(t.stats), t.direct)
    ensures old(t.Contained()) ==> t.Contained()
    ensures WellFormed(t.game) && AllReachable(old(t.shape), t.game) ==> AllReachable(t.shape, t.game)
    ensures WellFormed(t.game) && AllReachable(old(t.shape), t.game) && old(t.VisitedBelowRoot()) ==> r.Ok?
    decreases t.Size() - i, 1
  {
    if t.stats[i].n == 0 {
      return Ok(i);
    }
    ghost var a0 := t.shape;
    if WellFormed(t.game) && AllReachable(a0, t.game) && a0.cursor[i] < |t.game.actionsTree(a0.state[i])| {
      ExpandedReachable(a0, t.game, i);
    }
    var next := t.Expand(i);
    if next.Some? {
      ExpandedShaped(a0, t.game, i);
      return Ok(next.value);
    }
    r := Select(t, i, explore);
  }

  /**
   * `select(node)`: a terminal node is returned as it is; otherwise the
   * policy continues from the child `OptPick` chooses.
   */
  method Select<S(!new), A(!new)>(t: OptTree<S, A>, i: nat, explore: (int, nat) -> real) returns (r: Result<nat, Fault>)
    requires t.Valid() && i < t.Size()
    modifies t
    ensures t.Valid() && AtMostOneExpansion(t.game, old(t.shape), t.shape)
    ensures t.Size() == old(t.Size()) ==> t.stats == old(t.stats) && t.direct == old(t.direct)
    ensures t.Size() != old(t.Size()) ==>
      && r == Ok(old(t.Size()))
      && t.stats == old(t.stats) + [Unvisited] && t.direct == old(t.direct) + [0]
    ensures r.Ok? ==> r.value < t.Size() && i in Anc(t.shape.parent, r.value)
    ensures r.Ok? ==> t.stats[r.value].n == 0 || t.game.isTerminal(t.shape.state[r.value])
    ensures t.game.isTerminal(old(t.shape.state[i])) ==> r == Ok(i) && t.Size() == old(t.Size())
    ensures !t.game.isTerminal(old(t.shape.state[i])) && old(t.shape.children[i]) == [] ==>
      r == Err(NoChildren) && t.Size() == old(t.Size())
    ensures !t.game.isTerminal(old(t.shape.state[i])) && old(t.shape.children[i]) != [] ==>
      var pick := old(OptPick(t.stats, t.shape.children[i], t.stats[i], explore));
      && (pick.Err? ==> r == Err(pick.error) && t.Size() == old(t.Size()))
      && (pick.Ok? && r.Ok? ==> old(t.shape.children[i][pick.value]) in Anc(t.shape.parent, r.value))
    ensures Balanced(old(t.shape), Counts(old(t.stats)), old(t.direct)) ==> Balanced(t.shape, Counts(t.stats), t.direct)
    ensures old(t.Contained()) ==> t.Contained()
    ensures WellFormed(t.game) && AllReachable(old(t.shape), t.game) ==> AllReachable(t.shape, t.game)
    ensures (&& WellFormed(t.game) && AllReachable(old(t.shape), t.game) && old(t.VisitedBelowRoot())
             && old(t.stats[i].n) != 0
             && (t.game.isTerminal(old(t.shape.state[i])) || old(t.shape.children[i]) != []))
      ==> r.Ok?
    decreases t.Size() - i, 0
  {
    if t.game.isTerminal(t.shape.state[i]) {
      return Ok(i);
    }
    var cs := t.shape.children[i];
    if cs == [] {
      return Err(NoChildren);
    }
    var pick := OptPick(t.stats, cs, t.stats[i], explore);
    if pick.Err? {
      return Err(pick.error);
    }
    var c := cs[pick.value];
    ghost var a0 := t.shape;
    r := TreePolicy(t, c, explore);
    ExpansionKeepsOldNodes(t.game, a0, t.shape, c);
    if r.Ok? {
      AncClosed(t.shape.parent, r.value, c);
    }
  }

  /** Every parent/child pair interprets `reward` alike (true of the colouring domains, whose interpretation is the identity). */
  ghost predicate SameInterpretation<S, A>(a: Arena<S>, g: Game<S, A>, reward: int)
    requires Linked(a)
  {
    forall c :: 0 < c < a.Size() ==> g.interpret(a.state[c], reward) == g.interpret(a.state[a.parent[c]], reward)
  }

  /** When parent and child interpret the reward alike, backpropagation keeps the parent's bounds around the child's. */
  lemma ContainedAfterBackprop<S, A>(a: Arena<S>, g: Game<S, A>, stats: seq<NodeStats>, x: nat, reward: int, weight: int)
    requires Linked(a) && |stats| == a.Size() && x < a.Size()
    requires ContainedIn(a, stats) && SameInterpretation(a, g, reward)
    ensures ContainedIn(a, UpdatedOn(g, a.state, stats, Anc(a.parent, x), reward, weight))
  {
    var path := Anc(a.parent, x);
    var m := UpdatedOn(g, a.state, stats, path, reward, weight);
    forall c | 0 < c < a.Size()
      ensures LessEq(m[c].best, m[a.parent[c]].best) && LessEq(m[a.parent[c]].worst, m[c].worst)
    {
      var p := a.parent[c];
      var v := g.interpret(a.state[c], reward);
      if c in path {
        AncClosed(a.parent, x, c);
        MaxMinMonotone(stats[c].best, stats[p].best, v);
        MaxMinMonotone(stats[p].worst, stats[c].worst, v);
      } else if p in path {
        var vp := g.interpret(a.state[p], reward);
        assert LessEq(stats[p].best, m[p].best) && LessEq(m[p].worst, stats[p].worst);
        LessEqTrans(stats[c].best, stats[p].best, m[p].best);
        LessEqTrans(m[p].worst, stats[p].worst, stats[c].worst);
      }
    }
  }

  /**
   * Under contained bounds, the exploit term of a visited child of a node
   * with distinct bounds is defined and lies in [0, 1].
   */
  lemma ExploitWithinUnit<S, A>(t: OptTree<S, A>, c: nat)
    requires t.Valid() && t.Contained() && 0 < c < t.Size() && t.stats[c].n != 0
    requires t.stats[t.shape.parent[c]].best != t.stats[t.shape.parent[c]].worst
    ensures var p := t.stats[t.shape.parent[c]];
      && p.best.Fin? && p.worst.Fin? && t.stats[c].best.Fin?
      && 0.0 <= Exploit(p.best.v, p.worst.v, t.stats[c].best.v) <= 1.0
  {
    var p := t.stats[t.shape.parent[c]];
    var s := t.stats[c];
    assert Sane(p) && Sane(s);
    assert LessEq(s.best, p.best) && LessEq(p.worst, s.worst);
  }

  /**
   * `backpropagate(node, (reward, weight))`: every node on the path from `x`
   * to the root is updated exactly once, and no other node changes. The
   * weight is booked as the own simulation weight of `x`.
   */
  method Backpropagate<S, A>(t: OptTree<S, A>, x: nat, reward: int, weight: int)
    requires t.Valid() && x < t.Size()
    modifies t
    ensures t.Valid() && t.shape == old(t.shape)
    ensures t.stats == UpdatedOn(t.game, t.shape.state, old(t.stats), Anc(t.shape.parent, x), reward, weight)
    ensures t.direct == old(t.direct[x := t.direct[x] + weight])
    ensures Balanced(old(t.shape), Counts(old(t.stats)), old(t.direct)) ==> Balanced(t.shape, Counts(t.stats), t.direct)
    ensures old(t.Contained()) && SameInterpretation(t.shape, t.game, reward) ==> t.Contained()
  {
    ghost var s0, d0 := t.stats, t.direct;
    UpdatePath(t, x, reward, weight);
    t.direct := d0[x := d0[x] + weight];
    BackpropKeeps(t.shape, t.game, s0, d0, x, reward, weight);
  }

  /** Backpropagation keeps the visit-count balance, and the bound containment when parent and child agree on the reward. */
  lemma BackpropKeeps<S, A>(a: Arena<S>, g: Game<S, A>, stats: seq<NodeStats>, direct: seq<int>,
                            x: nat, reward: int, weight: int)
    requires Linked(a) && |stats| == a.Size() && x < a.Size()
    ensures Balanced(a, Counts(stats), direct) ==>
      Balanced(a, Counts(UpdatedOn(g, a.state, stats, Anc(a.parent, x), reward, weight)), direct[x := direct[x] + weight])
    ensures ContainedIn(a, stats) && SameInterpretation(a, g, reward) ==>
      ContainedIn(a, UpdatedOn(g, a.state, stats, Anc(a.parent, x), reward, weight))
  {
    var path := Anc(a.parent, x);
    assert Counts(UpdatedOn(g, a.state, stats, path, reward, weight)) == Bump(Counts(stats), path, weight);
    if Balanced(a, Counts(stats), direct) {
      BalancedAfterBackprop(a, Counts(stats), direct, x, weight);
    }
    if ContainedIn(a, stats) && SameInterpretation(a, g, reward) {
      ContainedAfterBackprop(a, g, stats, x, reward, weight);
    }
  }

  /** The loop of `backpropagate`: walk the parent links from `x`, updating each node once. */
  method UpdatePath<S, A>(t: OptTree<S, A>, x: nat, reward: int, weight: int)
    requires t.Valid() && x < t.Size()
    modifies t
    ensures t.Valid() && t.shape == old(t.shape) && t.direct == old(t.direct)
    ensures t.stats == UpdatedOn(t.game, t.shape.state, old(t.stats), Anc(t.shape.parent, x), reward, weight)
  {
    ghost var path := Anc(t.shape.parent, x);
    ghost var done: set<nat> := {};
    var cur: int := x;
    while cur >= 0
      invariant t.Valid() && t.shape == old(t.shape) && t.direct == old(t.direct)
      invariant -1 <= cur < t.Size()
      invariant cur >= 0 ==> path == done + Anc(t.shape.parent, cur) && done !! Anc(t.shape.parent, cur)
      invariant cur < 0 ==> done == path
      invariant t.stats == UpdatedOn(t.game, t.shape.state, old(t.stats), done, reward, weight)
      decreases cur + 1
    {
      var p := t.shape.parent[cur];
      PathStep(t.shape.parent, path, done, cur);
      UpdateOneMore(t.game, t.shape.state, t.stats, old(t.stats), done, cur, reward, weight);
      t.Update(cur, reward, weight);
      done := done + {cur};
      cur := p;
    }
  }

  lemma UpdateOneMore<S, A>(g: Game<S, A>, states: seq<S>, stats: seq<NodeStats>, s0: seq<NodeStats>,
                            done: set<nat>, x: nat, reward: int, weight: int)
    requires |states| == |s0| && stats == UpdatedOn(g, states, s0, done, reward, weight) && x < |stats| && x !in done
    ensures stats[x := Updated(stats[x], g.interpret(states[x], reward), weight)]
         == UpdatedOn(g, states, s0, done + {x}, reward, weight)
  {
  }
}

/**
 * The OPT search tree (mcts/src/mcts/algorithms/opt/opt_tree_node.py): every
 * node carries a visit count N and the best and worst interpreted rewards
 * seen below it, which start at `-inf` and `+inf`.
 */
module OptNode {
  import opened Wrappers
  import opened Extended
  import opened Games
  import opened SearchTree

  /** The statistics of one node. */
  datatype NodeStats = NodeStats(n: int, best: ExtInt, worst: ExtInt)

  /** The statistics of a fresh node. */
  const Unvisited := NodeStats(0, NegInf, PosInf)

  /**
   * The bounds invariant: either the node was never updated (both bounds at
   * their infinite start, N = 0) or both bounds are finite and ordered.
   */
  predicate Sane(s: NodeStats)
  {
    || (s.best == NegInf && s.worst == PosInf && s.n == 0)
    || (s.best.Fin? && s.worst.Fin? && s.worst.v <= s.best.v)
  }

  /** `update((reward, weight))` with `value` the interpreted reward. */
  function Updated(s: NodeStats, value: int, weight: int): (r: NodeStats)
    ensures r.n == s.n + weight
    ensures LessEq(s.best, r.best) && LessEq(Fin(value), r.best) && (r.best == s.best || r.best == Fin(value))
    ensures LessEq(r.worst, s.worst) && LessEq(r.worst, Fin(value)) && (r.worst == s.worst || r.worst == Fin(value))
    ensures Sane(s) ==> Sane(r) && r.best.Fin? && r.worst.Fin?
    ensures s.best == NegInf && s.worst == PosInf ==> r.best == r.worst == Fin(value)
  {
    NodeStats(s.n + weight, Max(s.best, value), Min(s.worst, value))
  }

  /** A sequence of `(value, weight)` updates applied in order. */
  function UpdatedAll(s: NodeStats, results: seq<(int, int)>): NodeStats
    decreases |results|
  {
    if results == [] then s else UpdatedAll(Updated(s, results[0].0, results[0].1), results[1..])
  }

  lemma UpdatedCommute(s: NodeStats, x: (int, int), y: (int, int))
    ensures Updated(Updated(s, x.0, x.1), y.0, y.1) == Updated(Updated(s, y.0, y.1), x.0, x.1)
  {
    MaxMinCommute(s.best, x.0, y.0);
    MaxMinCommute(s.worst, x.0, y.0);
  }

  /** Any one of the updates may be applied first. */
  lemma {:induction false} UpdatedAllMoveToFront(s: NodeStats, results: seq<(int, int)>, k: nat)
    requires k < |results|
    ensures UpdatedAll(s, results) ==
            UpdatedAll(Updated(s, results[k].0, results[k].1), results[..k] + results[k + 1..])
    decreases k
  {
    if k == 0 {
      assert results[..0] + results[1..] == results[1..];
    } else {
      var x := results[0];
      var rest := results[1..];
      var s1 := Updated(s, x.0, x.1);
      UpdatedAllMoveToFront(s1, rest, k - 1);
      assert rest[k - 1] == results[k];
      UpdatedCommute(s, x, results[k]);
      assert [x] + (rest[..k - 1] + rest[k..]) == results[..k] + results[k + 1..];
    }
  }

  /** `update` is order-independent: any permutation of the same results gives the same statistics. */
  lemma {:induction false} UpdatedAllPermutation(s: NodeStats, xs: seq<(int, int)>, ys: seq<(int, int)>)
    requires multiset(xs) == multiset(ys)
    ensures UpdatedAll(s, xs) == UpdatedAll(s, ys)
    decreases |xs|
  {
    if xs == [] {
      assert |ys| == |multiset(ys)| == 0;
    } else {
      var x := xs[0];
      assert x in multiset(ys);
      var k :| 0 <= k < |ys| && ys[k] == x;
      UpdatedAllMoveToFront(s, ys, k);
      var ys' := ys[..k] + ys[k + 1..];
      assert ys == ys[..k] + [x] + ys[k + 1..];
      assert multiset(ys) == multiset(ys[..k]) + multiset{x} + multiset(ys[k + 1..]);
      assert xs == [x] + xs[1..];
      assert multiset(xs) == multiset{x} + multiset(xs[1..]);
      assert multiset(ys') == multiset(ys[..k]) + multiset(ys[k + 1..]);
      assert multiset(ys') == multiset(ys) - multiset{x};
      assert multiset(xs[1..]) == multiset(xs) - multiset{x};
      UpdatedAllPermutation(Updated(s, x.0, x.1), xs[1..], ys');
    }
  }

  function Counts(stats: seq<NodeStats>): (ns: seq<int>)
    ensures |ns| == |stats| && forall j :: 0 <= j < |stats| ==> ns[j] == stats[j].n
  {
    seq(|stats|, j requires 0 <= j < |stats| => stats[j].n)
  }

  /** The statistics after updating every node of `p` with `reward` as that node's state interprets it. */
  function UpdatedOn<S, A>(g: Game<S, A>, states: seq<S>, stats: seq<NodeStats>, p: set<nat>,
                           reward: int, weight: int): (m: seq<NodeStats>)
    requires |states| == |stats|
    ensures |m| == |stats|
    ensures forall j :: 0 <= j < |stats| ==>
      m[j] == if j in p then Updated(stats[j], g.interpret(states[j], reward), weight) else stats[j]
  {
    seq(|stats|, j requires 0 <= j < |stats| =>
      if j in p then Updated(stats[j], g.interpret(states[j], reward), weight) else stats[j])
  }

  /**
   * The parent's bounds contain each child's: a child's best is at most its
   * parent's best and its worst at least its parent's worst.
   */
  ghost predicate ContainedIn<S>(a: Arena<S>, stats: seq<NodeStats>)
    requires Linked(a) && |stats| == a.Size()
  {
    forall c :: 0 < c < a.Size() ==>
      LessEq(stats[c].best, stats[a.parent[c]].best) && LessEq(stats[a.parent[c]].worst, stats[c].worst)
  }

  /** Every node except the root has been visited. */
  ghost predicate VisitedBelowRootIn(stats: seq<NodeStats>)
  {
    forall c :: 0 < c < |stats| ==> stats[c].n >= 1
  }

  lemma ContainedAfterExpand<S, A>(a: Arena<S>, g: Game<S, A>, i: nat, stats: seq<NodeStats>)
    requires Shaped(a, g) && i < a.Size() && |stats| == a.Size()
    requires a.cursor[i] < |g.actionsTree(a.state[i])|
    requires ContainedIn(a, stats)
    ensures Shaped(Expanded(a, g, i), g)
    ensures ContainedIn(Expanded(a, g, i), stats + [Unvisited])
  {
    ExpandedShaped(a, g, i);
  }

  /** Expanding node `i` with a fresh child keeps the tree's invariants. */
  lemma ExpandKeeps<S, A>(a: Arena<S>, g: Game<S, A>, i: nat, stats: seq<NodeStats>, direct: seq<int>)
    requires Shaped(a, g) && i < a.Size() && |stats| == |direct| == a.Size()
    requires a.cursor[i] < |g.actionsTree(a.state[i])|
    requires forall j :: 0 <= j < |stats| ==> Sane(stats[j])
    ensures Shaped(Expanded(a, g, i), g)
    ensures forall j :: 0 <= j < |stats| + 1 ==> Sane((stats + [Unvisited])[j])
    ensures Balanced(a, Counts(stats), direct) ==> Balanced(Expanded(a, g, i), Counts(stats + [Unvisited]), direct + [0])
    ensures ContainedIn(a, stats) ==> ContainedIn(Expanded(a, g, i), stats + [Unvisited])
  {
    ExpandedShaped(a, g, i);
    assert Counts(stats + [Unvisited]) == Counts(stats) + [0];
    if Balanced(a, Counts(stats), direct) {
      BalancedAfterExpand(a, g, i, Counts(stats), direct);
    }
    if ContainedIn(a, stats) {
      ContainedAfterExpand(a, g, i, stats);
    }
  }

  class OptTree<S, A> {
    const game: Game<S, A>
    var shape: Arena<S>
    var stats: seq<NodeStats>
    /** Weight of the simulations run from each node itself (specification only). */
    ghost var direct: seq<int>

    ghost predicate Valid()
      reads this
    {
      && Shaped(shape, game)
      && |stats| == |direct| == shape.Size()
      && forall i :: 0 <= i < |stats| ==> Sane(stats[i])
    }

    function Size(): nat
      reads this
    {
      shape.Size()
    }

    /** The parent's bounds contain each child's. */
    ghost predicate Contained()
      reads this
      requires Valid()
    {
      ContainedIn(shape, stats)
    }

    ghost predicate VisitedBelowRoot()
      reads this
    {
      VisitedBelowRootIn(stats)
    }

    /** A tree holding one fresh node: N = 0, best = -inf, worst = +inf, no children. */
    constructor (game: Game<S, A>, root: S)
      ensures Valid() && this.game == game
      ensures shape == Root(root) && stats == [Unvisited] && direct == [0]
      ensures Balanced(shape, Counts(stats), direct) && Contained() && VisitedBelowRoot()
    {
      this.game := game;
      shape := Root(root);
      stats := [Unvisited];
      direct := [0];
      new;
      RootShaped(root, game);
      assert Counts(stats) == [0];
    }

    /**
     * `update((reward, weight))` of node `i`: N grows by the weight, and the
     * bounds widen to the reward as the node's state interprets it.
     */
    method Update(i: nat, reward: int, weight: int)
      requires Valid() && i < Size()
      modifies this
      ensures Valid()
      ensures shape == old(shape) && direct == old(direct)
      ensures stats == old(stats)[i := Updated(old(stats[i]), game.interpret(shape.state[i], reward), weight)]
    {
      stats := stats[i := Updated(stats[i], game.interpret(shape.state[i], reward), weight)];
    }

    /**
     * `expand()` of node `i`: the next tree action, if any is left, is played
     * and the resulting state becomes a new unvisited child of `i`; otherwise
     * nothing changes and `None` is returned.
     */
    method Expand(i: nat) returns (child: Option<nat>)
      requires Valid() && i < Size()
      modifies this
      ensures Valid()
      ensures old(shape.cursor[i]) < |game.actionsTree(old(shape.state[i]))| ==>
        && child == Some(old(Size()))
        && shape == Expanded(old(shape), game, i)
        && stats == old(stats) + [Unvisited] && direct == old(direct) + [0]
      ensures old(shape.cursor[i]) == |game.actionsTree(old(shape.state[i]))| ==>
        child == None && unchanged(this)
      ensures Balanced(old(shape), Counts(old(stats)), old(direct)) ==> Balanced(shape, Counts(stats), direct)
      ensures old(Contained()) ==> Contained()
    {
      if shape.cursor[i] < |game.actionsTree(shape.state[i])| {
        ExpandKeeps(shape, game, i, stats, direct);
        child := Some(Size());
        shape := Expanded(shape, game, i);
        stats := stats + [Unvisited];
        direct := direct + [0];
      } else {
        child := None;
      }
    }

    /** `best_child()` of node `i`: the same `children[:-1]` scan as UCT, over each child's best bound. */
    method BestChild(i: nat) returns (r: Result<nat, Fault>)
      requires Valid() && i < Size()
      ensures shape.children[i] == [] <==> r == Err(NoChildren)
      ensures r.Ok? ==>
        exists k :: 0 <= k < |shape.children[i]| && r.value == shape.children[i][k] && BestChildAt(i, k)
    {
      var cs := shape.children[i];
      if cs == [] {
        return Err(NoChildren);
      }
      var st := stats;
      var values := seq(|cs|, j requires 0 <= j < |cs| => st[cs[j]].best);
      assert forall j :: 0 <= j < |cs| ==> values[j] == stats[cs[j]].best;
      var k := ScanBestChild(values, (x: ExtInt, y: ExtInt) => Less(y, x));
      assert BestChildAt(i, k);
      r := Ok(cs[k]);
    }

    /**
     * Position `k` is the `best_child` answer: the first child, or a child
     * before the last whose best bound beats the first child's, with no child
     * between it and the last doing so.
     */
    ghost predicate BestChildAt(i: nat, k: nat)
      reads this
      requires Valid() && i < Size() && k < |shape.children[i]|
    {
      var cs := shape.children[i];
      && (k == 0 || (k < |cs| - 1 && Less(stats[cs[0]].best, stats[cs[k]].best)))
      && (forall j :: k < j < |cs| - 1 ==> !Less(stats[cs[0]].best, stats[cs[j]].best))
    }
  }
}

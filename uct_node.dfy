/**
 * The UCT search tree (mcts/src/mcts/algorithms/uct/uct_tree_node.py): every
 * node carries a visit count N and a total interpreted reward W. The nodes
 * live in one arena object; node 0 is the root the search was started from.
 */
module UctNode {
  import opened Wrappers
  import opened Games
  import opened SearchTree

  class UctTree<S, A> {
    const game: Game<S, A>
    var shape: Arena<S>
    var n: seq<int>
    var w: seq<int>
    /** Weight of the simulations run from each node itself (specification only). */
    ghost var direct: seq<int>

    ghost predicate Valid()
      reads this
    {
      Shaped(shape, game) && |n| == |w| == |direct| == shape.Size()
    }

    function Size(): nat
      reads this
    {
      shape.Size()
    }

    /** A tree holding one fresh node: N = 0, W = 0, no parent, no children. */
    constructor (game: Game<S, A>, root: S)
      ensures Valid() && this.game == game
      ensures shape == Root(root) && n == [0] && w == [0] && direct == [0]
      ensures Balanced(shape, n, direct)
    {
      this.game := game;
      shape := Root(root);
      n := [0];
      w := [0];
      direct := [0];
      new;
      RootShaped(root, game);
    }

    /** `update((reward, weight))` of node `i`: N grows by the weight, W by the reward as the node's state interprets it. */
    method Update(i: nat, reward: int, weight: int)
      requires Valid() && i < Size()
      modifies this
      ensures Valid()
      ensures shape == old(shape) && direct == old(direct)
      ensures n == old(n)[i := old(n[i]) + weight]
      ensures w == old(w)[i := old(w[i]) + game.interpret(shape.state[i], reward)]
    {
      n := n[i := n[i] + weight];
      w := w[i := w[i] + game.interpret(shape.state[i], reward)];
    }

    /**
     * `expand()` of node `i`: the next tree action of the node's state, if
     * any is left, becomes a new child (N = 0, W = 0, parent `i`) holding the
     * state that action leads to; otherwise nothing changes and `None` is returned.
     */
    method Expand(i: nat) returns (child: Option<nat>)
      requires Valid() && i < Size()
      modifies this
      ensures Valid()
      ensures old(shape.cursor[i]) < |game.actionsTree(old(shape.state[i]))| ==>
        && child == Some(old(Size()))
        && shape == Expanded(old(shape), game, i)
        && n == old(n) + [0] && w == old(w) + [0] && direct == old(direct) + [0]
      ensures old(shape.cursor[i]) == |game.actionsTree(old(shape.state[i]))| ==>
        child == None && unchanged(this)
      ensures Balanced(old(shape), old(n), old(direct)) ==> Balanced(shape, n, direct)
    {
      if shape.cursor[i] < |game.actionsTree(shape.state[i])| {
        ghost var a0, n0, d0 := shape, n, direct;
        child := Some(Size());
        shape := Expanded(shape, game, i);
        n := n + [0];
        w := w + [0];
        direct := direct + [0];
        ExpandedShaped(a0, game, i);
        if Balanced(a0, n0, d0) {
          BalancedAfterExpand(a0, game, i, n0, d0);
        }
      } else {
        child := None;
      }
    }

    /** `estimated_value()`: the mean interpreted reward W / N, or 0 before the first visit. */
    function EstimatedValue(i: nat): (v: real)
      reads this
      requires Valid() && i < Size()
      ensures n[i] <= 0 ==> v == 0.0
      ensures n[i] > 0 ==> v * n[i] as real == w[i] as real
    {
      Mean(w[i], n[i])
    }

    /** `best_child()` of node `i`, with the scan over `children[:-1]` described at `ScanBestChild`. */
    method BestChild(i: nat) returns (r: Result<nat, Fault>)
      requires Valid() && i < Size()
      ensures shape.children[i] == [] <==> r == Err(NoChildren)
      ensures r.Ok? ==>
        exists k :: 0 <= k < |shape.children[i]| && r.value == shape.children[i][k] && BestChildAt(i, k)
    {
      var cs := shape.children[i];
      if cs == [] {
        return Err(NoChildren);
      }
      var counts, totals := n, w;
      var values := seq(|cs|, j requires 0 <= j < |cs| => Mean(totals[cs[j]], counts[cs[j]]));
      assert forall j :: 0 <= j < |cs| ==> values[j] == EstimatedValue(cs[j]);
      var k := ScanBestChild(values, (x: real, y: real) => x > y);
      assert BestChildAt(i, k);
      r := Ok(cs[k]);
    }

    /**
     * Position `k` is the `best_child` answer: the first child, or a child
     * before the last that beats the first child's estimated value, with no
     * child between it and the last doing so.
     */
    ghost predicate BestChildAt(i: nat, k: nat)
      reads this
      requires Valid() && i < Size() && k < |shape.children[i]|
    {
      var cs := shape.children[i];
      && (k == 0 || (k < |cs| - 1 && EstimatedValue(cs[k]) > EstimatedValue(cs[0])))
      && (forall j :: k < j < |cs| - 1 ==> EstimatedValue(cs[j]) <= EstimatedValue(cs[0]))
    }

    /** Every node's W lies within `lo` and `hi` times its N. */
    ghost predicate WithinRange(lo: int, hi: int)
      reads this
      requires Valid()
    {
      InRange(n, w, lo, hi)
    }

    /** Within that range, every visited node's estimated value lies in [lo, hi]. */
    lemma EstimatedValueInRange(lo: int, hi: int, i: nat)
      requires Valid() && WithinRange(lo, hi) && i < Size() && n[i] > 0
      ensures lo as real <= EstimatedValue(i) <= hi as real
    {
      var v := EstimatedValue(i);
      var nr := n[i] as real;
      assert (lo * n[i]) as real == lo as real * nr;
      assert (hi * n[i]) as real == hi as real * nr;
    }
  }

  /** Each total `w[i]` lies within `lo` and `hi` times the count `n[i]`. */
  ghost predicate InRange(n: seq<int>, w: seq<int>, lo: int, hi: int)
  {
    |n| == |w| && forall i :: 0 <= i < |n| ==> lo * n[i] <= w[i] <= hi * n[i]
  }

  /**
   * A backpropagation keeps every node within the range when the reward, as
   * each node on the path interprets it, lies within `lo` and `hi` times the
   * weight it adds to that node's N.
   */
  lemma BackpropKeepsRange<S, A>(g: Game<S, A>, states: seq<S>, n: seq<int>, w: seq<int>, p: set<nat>,
                                 reward: int, weight: int, lo: int, hi: int)
    requires |states| == |n| && InRange(n, w, lo, hi)
    requires forall j :: 0 <= j < |states| && j in p ==> lo * weight <= g.interpret(states[j], reward) <= hi * weight
    ensures InRange(Bump(n, p, weight), Credited(g, states, w, p, reward), lo, hi)
  {
    var n1, w1 := Bump(n, p, weight), Credited(g, states, w, p, reward);
    forall j | 0 <= j < |n|
      ensures lo * n1[j] <= w1[j] <= hi * n1[j]
    {
      if j in p {
        MulDistributes(lo, n[j], weight);
        MulDistributes(hi, n[j], weight);
      }
    }
  }

  /** Nodes added with N = 0 and W = 0 lie within every range. */
  lemma PaddedKeepsRange(n: seq<int>, w: seq<int>, size: nat, lo: int, hi: int)
    requires InRange(n, w, lo, hi) && |n| <= size
    ensures InRange(Padded(n, size, 0), Padded(w, size, 0), lo, hi)
  {
    var n1, w1 := Padded(n, size, 0), Padded(w, size, 0);
    forall j | 0 <= j < size
      ensures lo * n1[j] <= w1[j] <= hi * n1[j]
    {
      if j >= |n| {
        MulZero(lo);
        MulZero(hi);
      }
    }
  }

  /** W after crediting `reward`, as each node's state interprets it, to the nodes of `p`. */
  function Credited<S, A>(g: Game<S, A>, states: seq<S>, w: seq<int>, p: set<nat>, reward: int): (m: seq<int>)
    requires |states| == |w|
    ensures |m| == |w|
    ensures forall j :: 0 <= j < |w| ==> m[j] == if j in p then w[j] + g.interpret(states[j], reward) else w[j]
  {
    seq(|w|, j requires 0 <= j < |w| => if j in p then w[j] + g.interpret(states[j], reward) else w[j])
  }

  function Mean(total: int, count: int): real
  {
    if count > 0 then total as real / count as real else 0.0
  }

  /** With two or more children, `best_child` never answers the last one. */
  lemma BestChildNeverLast<S, A>(t: UctTree<S, A>, i: nat, k: nat)
    requires t.Valid() && i < t.Size() && 2 <= |t.shape.children[i]|
    requires k < |t.shape.children[i]| && t.BestChildAt(i, k)
    ensures k != |t.shape.children[i]| - 1
  {
  }
}

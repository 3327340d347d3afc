/**
 * The structure shared by the two search-tree node classes
 * (mcts/src/mcts/algorithms/uct/uct_tree_node.py and
 * mcts/src/mcts/algorithms/opt/opt_tree_node.py), laid out as an arena.
 *
 * Node `i` of an arena has a state, the index of its parent (-1 for the root,
 * which is node 0), the indices of its children in the order they were
 * expanded, and a cursor counting how many of its state's tree actions have
 * been expanded into children. A node's children were produced by the first
 * `cursor` tree actions, in order, so the (action, child) pairs the OPT node
 * keeps are `(actionsTree(state)[k], children[k])`.
 */
module SearchTree {
  import opened Games

  datatype Arena<S> = Arena(state: seq<S>, parent: seq<int>, children: seq<seq<nat>>, cursor: seq<nat>)
  {
    function Size(): nat { |state| }
  }

  /**
   * The failures the tree policies raise: `max()` over no children, a
   * division by a zero visit count, and `log` of the visit count of a node
   * that was never updated.
   */
  datatype Fault = NoChildren | ZeroVisits | MathDomain

  /** Parent links point to strictly smaller indices; node 0 is the only root. */
  ghost predicate ParentsOrdered(parent: seq<int>)
  {
    && |parent| >= 1
    && parent[0] == -1
    && (forall i :: 0 < i < |parent| ==> 0 <= parent[i] < i)
  }

  /** The parent/children links agree, and every child list is strictly increasing. */
  ghost predicate Linked<S>(a: Arena<S>)
  {
    && |a.parent| == |a.children| == |a.cursor| == |a.state|
    && ParentsOrdered(a.parent)
    && (forall i, k :: 0 <= i < |a.state| && 0 <= k < |a.children[i]| ==>
          i < a.children[i][k] < |a.state| && a.parent[a.children[i][k]] == i)
    && (forall i, k, l :: 0 <= i < |a.state| && 0 <= k < l < |a.children[i]| ==>
          a.children[i][k] < a.children[i][l])
    && (forall c :: 0 < c < |a.state| ==> c in a.children[a.parent[c]])
  }

  /**
   * The arena is a search tree for `g`: besides the links, each node has
   * expanded exactly its first `cursor` tree actions, once each, and the k-th
   * child holds the state that the k-th tree action leads to.
   */
  ghost predicate Shaped<S, A>(a: Arena<S>, g: Game<S, A>)
  {
    && Linked(a)
    && (forall i :: 0 <= i < |a.state| ==>
          |a.children[i]| == a.cursor[i] <= |g.actionsTree(a.state[i])|)
    && (forall i, k :: 0 <= i < |a.state| && 0 <= k < |a.children[i]| ==>
          a.state[a.children[i][k]] == g.play(a.state[i], g.actionsTree(a.state[i])[k]))
  }

  /** Every state in the arena is one the domain can reach. */
  ghost predicate AllReachable<S, A>(a: Arena<S>, g: Game<S, A>)
  {
    forall i :: 0 <= i < |a.state| ==> g.inv(a.state[i])
  }

  /** The root of a fresh search. */
  function Root<S>(s: S): (a: Arena<S>)
    ensures a.Size() == 1
  {
    Arena([s], [-1], [[]], [0])
  }

  lemma RootShaped<S, A>(s: S, g: Game<S, A>)
    ensures Shaped(Root(s), g)
  {
  }

  /**
   * Node `i` expands its next tree action: a new last node holding the state
   * that action leads to, with parent `i`, no children and a fresh cursor.
   */
  function Expanded<S, A>(a: Arena<S>, g: Game<S, A>, i: nat): (b: Arena<S>)
    requires Linked(a) && i < a.Size()
    requires a.cursor[i] < |g.actionsTree(a.state[i])|
    ensures b.Size() == a.Size() + 1
  {
    var s := g.play(a.state[i], g.actionsTree(a.state[i])[a.cursor[i]]);
    Arena(a.state + [s], a.parent + [i],
          a.children[i := a.children[i] + [a.Size()]] + [[]],
          a.cursor[i := a.cursor[i] + 1] + [0])
  }

  lemma ExpandedShaped<S, A>(a: Arena<S>, g: Game<S, A>, i: nat)
    requires Shaped(a, g) && i < a.Size()
    requires a.cursor[i] < |g.actionsTree(a.state[i])|
    ensures Shaped(Expanded(a, g, i), g)
    ensures Expanded(a, g, i).parent[a.Size()] == i
    ensures Expanded(a, g, i).state[a.Size()] == g.play(a.state[i], g.actionsTree(a.state[i])[a.cursor[i]])
    ensures Expanded(a, g, i).children[i] == a.children[i] + [a.Size()]
  {
    var b := Expanded(a, g, i);
    assert ParentsOrdered(b.parent);
    ExpandedChildren(a, g, i);
    ExpandedIncreasing(a, g, i);
    ExpandedParents(a, g, i);
    assert Linked(b);
  }

  /** After an expansion every child still points back to its parent and holds the state its action leads to. */
  lemma ExpandedChildren<S, A>(a: Arena<S>, g: Game<S, A>, i: nat)
    requires Shaped(a, g) && i < a.Size()
    requires a.cursor[i] < |g.actionsTree(a.state[i])|
    ensures var b := Expanded(a, g, i);
      forall j, k :: 0 <= j < b.Size() && 0 <= k < |b.children[j]| ==>
        && j < b.children[j][k] < b.Size() && b.parent[b.children[j][k]] == j
        && b.state[b.children[j][k]] == g.play(b.state[j], g.actionsTree(b.state[j])[k])
  {
    var b := Expanded(a, g, i);
    var size := a.Size();
    forall j, k | 0 <= j < b.Size() && 0 <= k < |b.children[j]|
      ensures j < b.children[j][k] < b.Size() && b.parent[b.children[j][k]] == j
      ensures b.state[b.children[j][k]] == g.play(b.state[j], g.actionsTree(b.state[j])[k])
    {
      if j == i && k == |a.children[i]| {
        assert b.children[j][k] == size;
      } else {
        assert j < size && b.children[j][k] == a.children[j][k];
      }
    }
  }

  /** After an expansion every child list is still strictly increasing. */
  lemma ExpandedIncreasing<S, A>(a: Arena<S>, g: Game<S, A>, i: nat)
    requires Shaped(a, g) && i < a.Size()
    requires a.cursor[i] < |g.actionsTree(a.state[i])|
    ensures var b := Expanded(a, g, i);
      forall j, k, l :: 0 <= j < b.Size() && 0 <= k < l < |b.children[j]| ==>
        b.children[j][k] < b.children[j][l]
  {
    var b := Expanded(a, g, i);
    var size := a.Size();
    forall j, k, l | 0 <= j < b.Size() && 0 <= k < l < |b.children[j]|
      ensures b.children[j][k] < b.children[j][l]
    {
      if j == i && l == |a.children[i]| {
        assert b.children[j][l] == size;
        assert b.children[j][k] == a.children[j][k];
      } else {
        assert j < size;
      }
    }
  }

  /** After an expansion every node but the root is still among its parent's children. */
  lemma ExpandedParents<S, A>(a: Arena<S>, g: Game<S, A>, i: nat)
    requires Shaped(a, g) && i < a.Size()
    requires a.cursor[i] < |g.actionsTree(a.state[i])|
    ensures var b := Expanded(a, g, i);
      forall c :: 0 < c < b.Size() ==> c in b.children[b.parent[c]]
  {
    var b := Expanded(a, g, i);
    var size := a.Size();
    forall c | 0 < c < b.Size()
      ensures c in b.children[b.parent[c]]
    {
      if c < size {
        var p := a.parent[c];
        assert c in a.children[p];
        assert b.children[p] == a.children[p] || b.children[p] == a.children[p] + [size];
      } else {
        assert b.children[i] == a.children[i] + [size];
      }
    }
  }

  lemma ExpandedReachable<S(!new), A(!new)>(a: Arena<S>, g: Game<S, A>, i: nat)
    requires Shaped(a, g) && AllReachable(a, g) && WellFormed(g) && i < a.Size()
    requires a.cursor[i] < |g.actionsTree(a.state[i])|
    ensures AllReachable(Expanded(a, g, i), g)
  {
    var acts := g.actionsTree(a.state[i]);
    assert acts[a.cursor[i]] in acts;
  }

  /** The arena is `a0` or `a0` with one more child expanded. */
  ghost predicate AtMostOneExpansion<S, A>(g: Game<S, A>, a0: Arena<S>, a1: Arena<S>)
    requires Linked(a0)
  {
    || a1 == a0
    || exists p :: 0 <= p < a0.Size() && a0.cursor[p] < |g.actionsTree(a0.state[p])| && a1 == Expanded(a0, g, p)
  }

  lemma ExpansionKeepsOldNodes<S, A>(g: Game<S, A>, a0: Arena<S>, a1: Arena<S>, c: nat)
    requires Linked(a0) && AtMostOneExpansion(g, a0, a1) && c < a0.Size()
    ensures c < a1.Size() && a1.parent[c] == a0.parent[c] && a1.state[c] == a0.state[c]
  {
  }

  /** `a1` grew from `a0` by appending nodes: every node of `a0` keeps its state and its parent. */
  ghost predicate Extends<S>(a0: Arena<S>, a1: Arena<S>)
  {
    && Linked(a0) && Linked(a1)
    && a0.Size() <= a1.Size()
    && a1.state[..a0.Size()] == a0.state
    && a1.parent[..a0.Size()] == a0.parent
  }

  lemma ExpansionExtends<S, A>(g: Game<S, A>, a0: Arena<S>, a1: Arena<S>)
    requires Linked(a0) && Linked(a1) && AtMostOneExpansion(g, a0, a1)
    ensures Extends(a0, a1)
  {
    if a1 != a0 {
      var p :| 0 <= p < a0.Size() && a0.cursor[p] < |g.actionsTree(a0.state[p])| && a1 == Expanded(a0, g, p);
      assert a1.state[..a0.Size()] == a0.state;
      assert a1.parent[..a0.Size()] == a0.parent;
    }
  }

  lemma ExtendsTrans<S>(a0: Arena<S>, a1: Arena<S>, a2: Arena<S>)
    requires Extends(a0, a1) && Extends(a1, a2)
    ensures Extends(a0, a2)
  {
    assert a2.state[..a0.Size()] == a2.state[..a1.Size()][..a0.Size()];
    assert a2.parent[..a0.Size()] == a2.parent[..a1.Size()][..a0.Size()];
  }

  /** Appending nodes changes no existing node's path to the root. */
  lemma {:induction false} AncPrefix(p0: seq<int>, p1: seq<int>, x: nat)
    requires ParentsOrdered(p0) && ParentsOrdered(p1) && |p0| <= |p1| && p1[..|p0|] == p0 && x < |p0|
    ensures Anc(p1, x) == Anc(p0, x)
    decreases x
  {
    assert p1[x] == p1[..|p0|][x];
    if p0[x] >= 0 {
      AncPrefix(p0, p1, p0[x]);
    }
  }

  /** Padding to the same size, or to one more node, as after a tree policy. */
  lemma PaddedGrow<T>(s: seq<T>, fill: T)
    ensures Padded(s, |s|, fill) == s && Padded(s, |s| + 1, fill) == s + [fill]
  {
  }

  /** Per-node values `s` extended to `size` nodes, the appended nodes holding `fill`. */
  function Padded<T>(s: seq<T>, size: nat, fill: T): (r: seq<T>)
    requires |s| <= size
    ensures |r| == size
    ensures forall j :: 0 <= j < size ==> r[j] == if j < |s| then s[j] else fill
  {
    s + seq(size - |s|, _ => fill)
  }

  // Steps of integer arithmetic the solver does not take on its own inside larger proofs.

  lemma MulZero(x: int)
    ensures x * 0 == 0
  {
  }

  lemma MulDistributes(x: int, a: int, b: int)
    ensures x * (a + b) == x * a + x * b
  {
  }

  lemma MulComm(x: int, y: int)
    ensures x * y == y * x
  {
  }

  // ---------------------------------------------------------------------------
  // The path from a node up to the root

  /** The nodes a backpropagation from `x` visits: `x` and all its ancestors. */
  ghost function Anc(parent: seq<int>, x: nat): set<nat>
    requires ParentsOrdered(parent) && x < |parent|
    decreases x
  {
    if parent[x] < 0 then {x} else {x} + Anc(parent, parent[x])
  }

  lemma {:induction false} AncBelow(parent: seq<int>, x: nat, y: nat)
    requires ParentsOrdered(parent) && x < |parent|
    requires y in Anc(parent, x)
    ensures y <= x
    decreases x
  {
    if y != x {
      AncBelow(parent, parent[x], y);
    }
  }

  /** Every backpropagation reaches the root. */
  lemma {:induction false} AncHasRoot(parent: seq<int>, x: nat)
    requires ParentsOrdered(parent) && x < |parent|
    ensures 0 in Anc(parent, x)
    decreases x
  {
    if parent[x] >= 0 {
      AncHasRoot(parent, parent[x]);
    }
  }

  /** The path is closed under taking parents. */
  lemma {:induction false} AncClosed(parent: seq<int>, x: nat, y: nat)
    requires ParentsOrdered(parent) && x < |parent|
    requires y in Anc(parent, x) && y != 0
    ensures y < |parent| && 0 <= parent[y] && parent[y] in Anc(parent, x)
    decreases x
  {
    AncBelow(parent, x, y);
    if y != x {
      AncClosed(parent, parent[x], y);
    }
  }

  /** An ancestor of an ancestor is an ancestor. */
  lemma {:induction false} AncTrans(parent: seq<int>, x: nat, y: nat, z: nat)
    requires ParentsOrdered(parent) && x < |parent|
    requires y in Anc(parent, x) && y < |parent| && z in Anc(parent, y)
    ensures z in Anc(parent, x)
    decreases x
  {
    if y != x {
      AncTrans(parent, parent[x], y, z);
    }
  }

  /** Of two nodes on the path, the smaller is an ancestor of the larger. */
  lemma {:induction false} AncChain(parent: seq<int>, x: nat, y: nat, z: nat)
    requires ParentsOrdered(parent) && x < |parent|
    requires y in Anc(parent, x) && z in Anc(parent, x) && y < z
    ensures z < |parent| && y in Anc(parent, z)
    decreases x
  {
    AncBelow(parent, x, z);
    if z != x {
      AncBelow(parent, x, y);
      AncChain(parent, parent[x], y, z);
    }
  }

  /** A node on the path other than `x` is the parent of the next node down the path. */
  lemma {:induction false} AncStep(parent: seq<int>, x: nat, y: nat) returns (d: nat)
    requires ParentsOrdered(parent) && x < |parent|
    requires y in Anc(parent, x) && y != x
    ensures d in Anc(parent, x) && d < |parent| && parent[d] == y
    decreases x
  {
    var p := parent[x];
    if p == y {
      d := x;
    } else {
      d := AncStep(parent, p, y);
    }
  }

  /** One step of the walk up the path from a node: `cur` leaves the part still to visit. */
  lemma PathStep(parent: seq<int>, path: set<nat>, done: set<nat>, cur: nat)
    requires ParentsOrdered(parent) && cur < |parent|
    requires path == done + Anc(parent, cur) && done !! Anc(parent, cur)
    ensures cur !in done
    ensures parent[cur] >= 0 ==> path == (done + {cur}) + Anc(parent, parent[cur]) && (done + {cur}) !! Anc(parent, parent[cur])
    ensures parent[cur] < 0 ==> done + {cur} == path
  {
    var p := parent[cur];
    if p >= 0 && cur in Anc(parent, p) {
      AncBelow(parent, p, cur);
    }
  }

  // ---------------------------------------------------------------------------
  // Visit counts: N equals the node's own simulated weight plus its children's N

  function SumAt(n: seq<int>, cs: seq<nat>): int
    requires forall k :: 0 <= k < |cs| ==> cs[k] < |n|
    decreases |cs|
  {
    if cs == [] then 0 else n[cs[0]] + SumAt(n, cs[1..])
  }

  /**
   * Each node's visit count `n[i]` is the weight of the simulations run from
   * `i` itself (`direct[i]`) plus the visit counts of its children.
   */
  ghost predicate Balanced<S>(a: Arena<S>, n: seq<int>, direct: seq<int>)
    requires Linked(a)
  {
    && |n| == |direct| == a.Size()
    && forall i :: 0 <= i < a.Size() ==> n[i] == direct[i] + SumAt(n, a.children[i])
  }

  /** Adds `w` to the entries of `n` on the path `p`. */
  function Bump(n: seq<int>, p: set<nat>, w: int): (m: seq<int>)
    ensures |m| == |n|
    ensures forall i :: 0 <= i < |n| ==> m[i] == if i in p then n[i] + w else n[i]
  {
    seq(|n|, i requires 0 <= i < |n| => if i in p then n[i] + w else n[i])
  }

  function CountIn(cs: seq<nat>, p: set<nat>): nat
    decreases |cs|
  {
    if cs == [] then 0 else (if cs[0] in p then 1 else 0) + CountIn(cs[1..], p)
  }

  lemma {:induction false} SumAtBump(n: seq<int>, cs: seq<nat>, p: set<nat>, w: int)
    requires forall k :: 0 <= k < |cs| ==> cs[k] < |n|
    ensures SumAt(Bump(n, p, w), cs) == SumAt(n, cs) + w * CountIn(cs, p)
    decreases |cs|
  {
    if cs != [] {
      SumAtBump(n, cs[1..], p, w);
    }
  }

  lemma {:induction false} CountInNone(cs: seq<nat>, p: set<nat>)
    requires forall k :: 0 <= k < |cs| ==> cs[k] !in p
    ensures CountIn(cs, p) == 0
    decreases |cs|
  {
    if cs != [] {
      CountInNone(cs[1..], p);
    }
  }

  lemma {:induction false} CountInOne(cs: seq<nat>, p: set<nat>, d: nat)
    requires d in cs
    requires forall k :: 0 <= k < |cs| ==> (cs[k] in p <==> cs[k] == d)
    requires forall k, l :: 0 <= k < l < |cs| ==> cs[k] < cs[l]
    ensures CountIn(cs, p) == 1
    decreases |cs|
  {
    if cs[0] == d {
      forall k | 0 <= k < |cs[1..]|
        ensures cs[1..][k] !in p
      {
        assert cs[1..][k] == cs[k + 1] > cs[0];
      }
      CountInNone(cs[1..], p);
    } else {
      CountInOne(cs[1..], p, d);
    }
  }

  /** How many children of `i` lie on the path from `x`: one for a proper ancestor, none otherwise. */
  lemma ChildrenOnPath<S>(a: Arena<S>, x: nat, i: nat)
    requires Linked(a) && x < a.Size() && i < a.Size()
    ensures CountIn(a.children[i], Anc(a.parent, x)) == if i in Anc(a.parent, x) && i != x then 1 else 0
  {
    var p := Anc(a.parent, x);
    var cs := a.children[i];
    if i in p && i != x {
      var d := AncStep(a.parent, x, i);
      assert d in cs;
      forall k | 0 <= k < |cs|
        ensures cs[k] in p <==> cs[k] == d
      {
        var e := cs[k];
        if e in p && e != d {
          if e < d {
            AncChain(a.parent, x, e, d);
            AncBelow(a.parent, i, e);
          } else {
            AncChain(a.parent, x, d, e);
            AncBelow(a.parent, i, d);
          }
        }
      }
      CountInOne(cs, p, d);
    } else {
      forall k | 0 <= k < |cs|
        ensures cs[k] !in p
      {
        if cs[k] in p {
          if i == x {
            AncBelow(a.parent, x, cs[k]);
          } else {
            AncClosed(a.parent, x, cs[k]);
          }
        }
      }
      CountInNone(cs, p);
    }
  }

  /**
   * Backpropagating weight `w` from `x` (adding `w` to N on the path to the
   * root) keeps every node balanced once `w` is booked as `x`'s own weight.
   */
  lemma BalancedAfterBackprop<S>(a: Arena<S>, n: seq<int>, direct: seq<int>, x: nat, w: int)
    requires Linked(a) && x < a.Size()
    requires Balanced(a, n, direct)
    ensures Balanced(a, Bump(n, Anc(a.parent, x), w), direct[x := direct[x] + w])
  {
    var p := Anc(a.parent, x);
    var m := Bump(n, p, w);
    var d := direct[x := direct[x] + w];
    assert x in p;
    forall i | 0 <= i < a.Size()
      ensures m[i] == d[i] + SumAt(m, a.children[i])
    {
      ChildrenOnPath(a, x, i);
      BalancedAt(n, direct, a.children[i], p, x, w, i);
    }
  }

  /** One node's balance after the bump, given how many of its children `cs` lie on the path `p`. */
  lemma BalancedAt(n: seq<int>, direct: seq<int>, cs: seq<nat>, p: set<nat>, x: nat, w: int, i: nat)
    requires |n| == |direct| && x < |n| && i < |n| && x in p
    requires forall k :: 0 <= k < |cs| ==> cs[k] < |n|
    requires CountIn(cs, p) == if i in p && i != x then 1 else 0
    requires n[i] == direct[i] + SumAt(n, cs)
    ensures Bump(n, p, w)[i] == direct[x := direct[x] + w][i] + SumAt(Bump(n, p, w), cs)
  {
    SumAtBump(n, cs, p, w);
  }

  lemma {:induction false} SumAtExtend(n: seq<int>, cs: seq<nat>, v: int)
    requires forall k :: 0 <= k < |cs| ==> cs[k] < |n|
    ensures SumAt(n + [v], cs) == SumAt(n, cs)
    decreases |cs|
  {
    if cs != [] {
      SumAtExtend(n, cs[1..], v);
    }
  }

  lemma {:induction false} SumAtAppend(n: seq<int>, cs: seq<nat>, c: nat)
    requires c < |n| && forall k :: 0 <= k < |cs| ==> cs[k] < |n|
    ensures SumAt(n, cs + [c]) == SumAt(n, cs) + n[c]
    decreases |cs|
  {
    if cs == [] {
      assert cs + [c] == [c];
    } else {
      assert (cs + [c])[1..] == cs[1..] + [c];
      SumAtAppend(n, cs[1..], c);
    }
  }

  /** Expanding a child with N = 0 and no own weight keeps every node balanced. */
  lemma BalancedAfterExpand<S, A>(a: Arena<S>, g: Game<S, A>, i: nat, n: seq<int>, direct: seq<int>)
    requires Shaped(a, g) && i < a.Size()
    requires a.cursor[i] < |g.actionsTree(a.state[i])|
    requires Balanced(a, n, direct)
    ensures Shaped(Expanded(a, g, i), g)
    ensures Balanced(Expanded(a, g, i), n + [0], direct + [0])
  {
    ExpandedShaped(a, g, i);
    var b := Expanded(a, g, i);
    var m := n + [0];
    forall j | 0 <= j < b.Size()
      ensures m[j] == (direct + [0])[j] + SumAt(m, b.children[j])
    {
      if j < a.Size() {
        SumAtExtend(n, a.children[j], 0);
        if j == i {
          SumAtAppend(m, a.children[i], a.Size());
        }
      }
    }
  }

  // ---------------------------------------------------------------------------
  // count(): the size of the subtree below a node

  /** `count()` of node `i`: one for the node plus the counts of its children. */
  function Count<S>(a: Arena<S>, i: nat): nat
    requires Linked(a) && i < a.Size()
    decreases a.Size() - i, 1
  {
    1 + CountAll(a, i, a.children[i])
  }

  function CountAll<S>(a: Arena<S>, i: nat, cs: seq<nat>): nat
    requires Linked(a) && i < a.Size()
    requires forall k :: 0 <= k < |cs| ==> i < cs[k] < a.Size()
    decreases a.Size() - i, 0, |cs|
  {
    if cs == [] then 0 else Count(a, cs[0]) + CountAll(a, i, cs[1..])
  }

  lemma {:induction false} CountAllAppend<S>(a: Arena<S>, i: nat, cs: seq<nat>, c: nat)
    requires Linked(a) && i < c < a.Size()
    requires forall k :: 0 <= k < |cs| ==> i < cs[k] < a.Size()
    ensures CountAll(a, i, cs + [c]) == CountAll(a, i, cs) + Count(a, c)
    decreases |cs|
  {
    if cs != [] {
      assert (cs + [c])[1..] == cs[1..] + [c];
      CountAllAppend(a, i, cs[1..], c);
    }
  }

  /** A fresh tree counts one node. */
  lemma RootCount<S>(s: S)
    ensures Linked(Root(s)) && Count(Root(s), 0) == 1
  {
  }

  /**
   * Expanding a child of `i` adds one to `count()` at `i` and at each of its
   * ancestors, and leaves every other node's count alone; in particular the
   * root's count grows by one, so it always equals the number of nodes.
   */
  lemma {:induction false} CountAfterExpand<S, A>(a: Arena<S>, g: Game<S, A>, i: nat, j: nat)
    requires Shaped(a, g) && i < a.Size() && j < a.Size()
    requires a.cursor[i] < |g.actionsTree(a.state[i])|
    ensures Linked(Expanded(a, g, i))
    ensures Count(Expanded(a, g, i), j) == Count(a, j) + (if j in Anc(a.parent, i) then 1 else 0)
    decreases a.Size() - j, 1
  {
    var b := Expanded(a, g, i);
    ExpandedShaped(a, g, i);
    var cs := a.children[j];
    CountAllAfterExpand(a, g, i, j, cs);
    ChildrenOnPath(a, i, j);
    if j == i {
      CountAllAppend(b, i, cs, a.Size());
      assert b.children[a.Size()] == [];
    } else {
      assert b.children[j] == cs;
    }
  }

  lemma {:induction false} CountAllAfterExpand<S, A>(a: Arena<S>, g: Game<S, A>, i: nat, j: nat, cs: seq<nat>)
    requires Shaped(a, g) && i < a.Size() && j < a.Size()
    requires a.cursor[i] < |g.actionsTree(a.state[i])|
    requires forall k :: 0 <= k < |cs| ==> j < cs[k] < a.Size()
    ensures Linked(Expanded(a, g, i))
    ensures CountAll(Expanded(a, g, i), j, cs) == CountAll(a, j, cs) + CountIn(cs, Anc(a.parent, i))
    decreases a.Size() - j, 0, |cs|
  {
    ExpandedShaped(a, g, i);
    if cs != [] {
      CountAfterExpand(a, g, i, cs[0]);
      CountAllAfterExpand(a, g, i, j, cs[1..]);
    }
  }

  lemma CountAtRootAfterExpand<S, A>(a: Arena<S>, g: Game<S, A>, i: nat)
    requires Shaped(a, g) && i < a.Size()
    requires a.cursor[i] < |g.actionsTree(a.state[i])|
    ensures Linked(Expanded(a, g, i))
    ensures Count(Expanded(a, g, i), 0) == Count(a, 0) + 1
  {
    CountAfterExpand(a, g, i, 0);
    AncHasRoot(a.parent, i);
  }

  // ---------------------------------------------------------------------------
  // Selection scores and Python's `max`

  /** A selection score: `inf` or a real number. */
  datatype Score = Infinite | Finite(x: real)

  predicate Greater(a: Score, b: Score)
  {
    match (a, b)
    case (Infinite, Finite(_)) => true
    case (Finite(x), Finite(y)) => x > y
    case (_, _) => false
  }

  /**
   * The position `max(..., key=score)` picks: a maximal score, and the first
   * of them, since `max` only replaces its candidate on a strictly greater key.
   */
  function FirstMax(xs: seq<Score>): (k: nat)
    requires xs != []
    ensures k < |xs|
    ensures forall j :: 0 <= j < |xs| ==> !Greater(xs[j], xs[k])
    ensures forall j :: 0 <= j < k ==> Greater(xs[k], xs[j])
    decreases |xs|
  {
    if |xs| == 1 then 0
    else
      var k := FirstMax(xs[..|xs| - 1]);
      if Greater(xs[|xs| - 1], xs[k]) then |xs| - 1 else k
  }

  /**
   * The scan of `best_child`: it compares `children[:-1]` against the FIRST
   * child's value and never updates that value, so it returns the last child
   * before the final one that beats the first child, or the first child.
   */
  method ScanBestChild<T>(values: seq<T>, greater: (T, T) -> bool) returns (k: nat)
    requires values != []
    ensures k < |values|
    ensures k == 0 || (k < |values| - 1 && greater(values[k], values[0]))
    ensures forall j :: k < j < |values| - 1 ==> !greater(values[j], values[0])
  {
    k := 0;
    var bestValue := values[0];
    for j := 0 to |values| - 1
      invariant k == 0 || (k < j && greater(values[k], values[0]))
      invariant forall m :: k < m < j ==> !greater(values[m], values[0])
    {
      if greater(values[j], bestValue) {
        k := j;
      }
    }
  }
}

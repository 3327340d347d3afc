# Monte Carlo Tree Search for graph colouring, modelled in Dafny

This project models a generic Monte Carlo Tree Search (MCTS) engine and the
benchmark code next to it, and proves properties of the model.

- **Engine.** The engine has two scoring variants:
  - UCT keeps, for every node, a visit count N and a total reward W.
  - OPT keeps, for every node, N plus the best and the worst reward seen below it.
- **Driver.** A fixed number of iterations. Each one runs:
  - the tree policy: descend from the start node, expanding before selecting;
  - the default policy: random rollouts to a terminal state;
  - backpropagation of the result up the parent chain.
- **Domains.** The engine drives three domains:
  - sequential graph colouring (vertex `k` is coloured at step `k`);
  - DSATUR-order graph colouring (the most saturated vertex is coloured next);
  - tic-tac-toe.
- **Benchmark side.**
  - Four greedy colouring heuristics:
    - sequential first-fit;
    - largest-first;
    - Leighton's recursive largest fit;
    - Brélaz's DSATUR.
  - The colouring checker and the colour count of a result.
  - The readers for the DIMACS binary and ASCII graph formats.

How the model is laid out:

- **The domain contract.** The `State` interface becomes a record of total
  functions, `Games.Game`. Its `WellFormed` predicate is the contract every
  domain meets: a reachable non-terminal state has actions, and a rollout
  step makes progress.
- **The search tree.** The tree is an arena, one object per tree. Node 0 is
  the root. Each node has:
  - a parent index, or -1 for the root;
  - a list of child indices;
  - a cursor into its state's list of tree actions.

  The node statistics are sequences that the methods reassign. A ghost
  sequence `direct` records the weight simulated from each node itself. This
  is what lets the model state and prove that N equals the node's own
  weight plus its children's N.
- **Randomness.**
  - A rollout draw is a nondeterministic choice among the legal actions. With
    a heuristic, only actions of positive weight can be drawn.
  - The floating-point part of a selection score is an oracle
    `explore(parentN, child)`.
- **The run loop** returns a ghost record of its iterations. Each entry
  names the node the tree policy returned, the games simulated from that
  node's state, and the reward backpropagated from that same node. The
  statistics after the run are proved to be those before it plus the
  tallies of this record along each entry's path to the root.
- **Rewards** are integers, as every reward the domains produce is.
- **The benchmark heuristics** keep the source's loops and sets. Their results
  are proved to be:
  - proper colourings;
  - using exactly the colours `0..K-1`;
  - with `K` at most the number of vertices.

## Model

| member | source | states |
|---|---|---|
| SolutionsTracker.Better | mcts/src/mcts/other/solutions.py:13-15 | The best solution is replaced exactly when there is none yet or the new score is strictly greater; an equal score keeps the earlier one; afterwards a best exists and scores at least the new score and the earlier best |
| SolutionsTracker.FoldIsUpperBound | mcts/src/mcts/other/solutions.py:20-22 | After a batch the best is the earlier best or one of the batch; it exists if the batch is non-empty; it scores at least the earlier best and every submitted solution |
| SolutionsTracker.FoldPicksFirstMaximum | mcts/src/mcts/other/solutions.py:20-22 | When a submitted score beats the earlier best, the best after the batch is the first submitted solution of maximal score |
| SolutionsTracker.FoldKeepsDominatingBest | mcts/src/mcts/other/solutions.py:20-22 | An earlier best that no submitted score exceeds is kept |
| SolutionsTracker.Solutions.constructor | mcts/src/mcts/other/solutions.py:8-11 | A fresh tracker has no best solution and an empty history |
| SolutionsTracker.Solutions.AddSolution | mcts/src/mcts/other/solutions.py:13-18 | The best becomes `Better(old best, s)`; the history gains `s` at its end when history is kept and is otherwise unchanged |
| SolutionsTracker.Solutions.AddSolutions | mcts/src/mcts/other/solutions.py:20-22 | The loop has the effect of `add_solution` folded over the batch in order; the history gains the whole batch, in order, exactly when history is kept |
| Extended.Max | mcts/src/mcts/algorithms/opt/opt_tree_node.py:30-31 | The raised best bound is the old bound or the value, and at least both, in Python's order on -inf, integers and +inf |
| Extended.Min | mcts/src/mcts/algorithms/opt/opt_tree_node.py:33-34 | The lowered worst bound is the old bound or the value, and at most both |
| Extended.MaxMinCommute | mcts/src/mcts/algorithms/opt/opt_tree_node.py:30-34 | Applying two values to a bound in either order gives the same bound |
| Extended.MaxMinMonotone | mcts/src/mcts/algorithms/opt/opt_tree_node.py:30-34 | Raising or lowering two ordered bounds by the same value keeps them ordered |
| SearchTree.Root | mcts/src/mcts/algorithms/uct/uct_tree_node.py:15-21 | A fresh tree holds exactly one node |
| SearchTree.RootShaped | mcts/src/mcts/algorithms/uct/uct_tree_node.py:15-21 | The one-node tree is a well-formed search tree: no parent, no children, no action consumed |
| SearchTree.Expanded | mcts/src/mcts/algorithms/uct/uct_tree_node.py:32-36 | An expansion adds exactly one node |
| SearchTree.ExpandedShaped | mcts/src/mcts/algorithms/uct/uct_tree_node.py:27-36 | Expanding node `i` keeps the arena a search tree. The new node has parent `i`, holds the state that `i`'s next tree action leads to, and is appended to `i`'s children. Every node has still expanded each of its first `cursor` actions exactly once |
| SearchTree.ExpandedChildren | mcts/src/mcts/algorithms/uct/uct_tree_node.py:27-30 | After an expansion every child points back to its parent and holds the state its action leads to |
| SearchTree.ExpandedReachable | mcts/src/mcts/algorithms/uct/uct_tree_node.py:32-36 | In a domain that meets its contract, an expansion keeps every state of the tree reachable |
| SearchTree.ExpansionExtends | mcts/src/mcts/algorithms/uct/uct_tree_node.py:27-36 | A descent that expands at most one node leaves a tree whose first nodes are the old tree's, with the same parents and states |
| SearchTree.ExtendsTrans | mcts/src/mcts/monte_carlo_tree_search.py:12-18 | Trees that only grow, iteration after iteration, extend the tree the run started from |
| SearchTree.AncPrefix | mcts/src/mcts/algorithms/uct/uct_tree_policy.py:58-61 | Adding nodes does not change the path from an existing node to the root |
| SearchTree.AncTrans | mcts/src/mcts/algorithms/uct/uct_tree_policy.py:58-61 | An ancestor of an ancestor of `x` lies on the path from `x` |
| SearchTree.ExpansionKeepsOldNodes | mcts/src/mcts/algorithms/uct/uct_tree_node.py:27-30 | Existing nodes keep their parent and state across an expansion |
| SearchTree.AncHasRoot | mcts/src/mcts/algorithms/uct/uct_tree_policy.py:58-61 | The walk up the parent chain from any node reaches the root |
| SearchTree.AncBelow | mcts/src/mcts/algorithms/uct/uct_tree_policy.py:58-61 | Every node on the walk from `x` has an index no greater than `x`, so the walk ends |
| SearchTree.PathStep | mcts/src/mcts/algorithms/uct/uct_tree_policy.py:59-61 | Each step of the walk leaves the current node behind, never to be met again, and continues with exactly the ancestors still to visit |
| SearchTree.ChildrenOnPath | mcts/src/mcts/algorithms/uct/uct_tree_policy.py:58-61 | Exactly one child of each proper ancestor of `x` lies on the walk from `x`; no child of any other node does |
| SearchTree.Bump | mcts/src/mcts/algorithms/uct/uct_tree_policy.py:59-61 | N after a backpropagation: each node on the path gains the weight, every other node keeps its count |
| SearchTree.BalancedAfterBackprop | mcts/src/mcts/algorithms/uct/uct_tree_policy.py:58-61 | Suppose every node's N equals the weight simulated from it plus its children's N. This still holds after a backpropagation from `x`, once the weight is booked as `x`'s own |
| SearchTree.BalancedAfterExpand | mcts/src/mcts/algorithms/uct/uct_tree_node.py:27-36 | A fresh child with N = 0 keeps that balance |
| SearchTree.RootCount | mcts/src/mcts/algorithms/uct/uct_tree_node.py:60-61 | `count()` of a fresh tree is 1 |
| SearchTree.CountAfterExpand | mcts/src/mcts/algorithms/uct/uct_tree_node.py:60-61 | Expanding a child of `i` raises `count()` by one at `i` and at each of its ancestors and leaves every other node's count as it was |
| SearchTree.CountAtRootAfterExpand | mcts/src/mcts/algorithms/opt/opt_tree_node.py:69-70 | Every expansion raises the root's `count()` by one, so it always equals the number of nodes in the tree |
| SearchTree.FirstMax | mcts/src/mcts/algorithms/uct/uct_tree_policy.py:50-51 | The position `max(..., key=score)` returns: no score is greater, and every earlier score is strictly smaller |
| SearchTree.ScanBestChild | mcts/src/mcts/algorithms/uct/uct_tree_node.py:46-54 | The scan over `children[:-1]` returns one of two positions. It is 0, or a position before the last whose value beats the FIRST child's. No position between it and the last beats the first child |
| UctNode.UctTree.constructor | mcts/src/mcts/algorithms/uct/uct_tree_node.py:15-21 | One fresh node with N = 0, W = 0, no parent and no children; the tree is balanced |
| UctNode.UctTree.Update | mcts/src/mcts/algorithms/uct/uct_tree_node.py:23-25 | N of node `i` gains the weight, and W gains the reward as `i`'s own state interprets it; nothing else changes |
| UctNode.UctTree.Expand | mcts/src/mcts/algorithms/uct/uct_tree_node.py:32-38 | With an action left, one child is appended (N = W = 0, parent `i`, the state the next action leads to) and returned. With none left, `None` comes back and nothing changes. Balance is kept either way |
| UctNode.UctTree.EstimatedValue | mcts/src/mcts/algorithms/uct/uct_tree_node.py:43-44 | 0 before the first visit; otherwise the value `v` with `v * N == W` |
| UctNode.UctTree.EstimatedValueInRange | mcts/src/mcts/algorithms/uct/uct_tree_node.py:43-44 | When every W lies between `lo * N` and `hi * N`, every visited node's estimated value lies in [lo, hi] |
| UctNode.BackpropKeepsRange | mcts/src/mcts/algorithms/uct/uct_tree_policy.py:58-61 | If every W lies between `lo` and `hi` times its N, and the reward, as each node on the path interprets it, lies between `lo` and `hi` times the weight, the backpropagation keeps every W between `lo` and `hi` times its N |
| UctNode.PaddedKeepsRange | mcts/src/mcts/algorithms/uct/uct_tree_node.py:15-21 | Nodes added with N = 0 and W = 0 keep every W between `lo` and `hi` times its N |
| UctNode.UctTree.BestChild | mcts/src/mcts/algorithms/uct/uct_tree_node.py:46-54 | Fails exactly when there are no children. Otherwise it returns the child the `children[:-1]` scan settles on: the last child before the final one that beats the first child's estimated value, else the first child |
| UctNode.BestChildNeverLast | mcts/src/mcts/algorithms/uct/uct_tree_node.py:50-54 | With two or more children, `best_child` never returns the last one |
| UctNode.Credited | mcts/src/mcts/algorithms/uct/uct_tree_node.py:23-25 | W after a backpropagation: each node on the path gains the reward as its own state interprets it; other nodes keep theirs |
| UctPolicy.UctScore | mcts/src/mcts/algorithms/uct/uct_tree_policy.py:24-33 | `inf` exactly for a child with N = 0; a visited child scores W / N plus the exploration terms |
| UctPolicy.ScoresOf | mcts/src/mcts/algorithms/uct/uct_tree_policy.py:50-51 | One score per child, in child order, each computed against the parent's N |
| UctPolicy.Pick | mcts/src/mcts/algorithms/uct/uct_tree_policy.py:50-51 | `select` picks an unvisited child exactly when one exists, and then the first of them |
| UctPolicy.TreePolicy | mcts/src/mcts/algorithms/uct/uct_tree_policy.py:35-44 | An unvisited node is returned unchanged. Otherwise a fresh child (N = 0, parent `i`) is expanded and returned when an action is left. The answer is `i` or a descendant, unvisited or terminal. At most one node is added, and the statistics are otherwise unchanged and stay balanced. In a well-formed domain it cannot fail |
| UctPolicy.Select | mcts/src/mcts/algorithms/uct/uct_tree_policy.py:46-53 | A terminal node is returned unchanged. A non-terminal node without children fails. Otherwise the descent continues below the child `Pick` chooses |
| UctPolicy.Backpropagate | mcts/src/mcts/algorithms/uct/uct_tree_policy.py:58-61 | Each node on the path from `x` to the root is updated exactly once (N by the weight, W by the interpreted reward), and no other node changes. The visit-count balance is kept |
| UctPolicy.UpdatePath | mcts/src/mcts/algorithms/uct/uct_tree_policy.py:59-61 | The while loop over parent links updates each node of the path once and touches no other node |
| UctPolicy.BackpropagationsCommute | mcts/src/mcts/algorithms/uct/uct_tree_policy.py:58-61 | Two backpropagations from the same node leave the same N and W in either order |
| OptNode.Updated | mcts/src/mcts/algorithms/opt/opt_tree_node.py:26-34 | N gains the weight. Best rises to at least the value and worst falls to at most it, each keeping its old value or taking the value. Ordered finite bounds stay ordered and finite. The first update sets both bounds to the value |
| OptNode.UpdatedCommute | mcts/src/mcts/algorithms/opt/opt_tree_node.py:26-34 | Two updates give the same statistics in either order |
| OptNode.UpdatedAllPermutation | mcts/src/mcts/algorithms/opt/opt_tree_node.py:26-34 | Any permutation of the same results gives the same N, best and worst |
| OptNode.UpdatedOn | mcts/src/mcts/algorithms/opt/opt_tree_policy.py:54-57 | The statistics after a backpropagation: each node on the path is updated with the reward as its state interprets it, the others are unchanged |
| OptNode.ContainedAfterExpand | mcts/src/mcts/algorithms/opt/opt_tree_node.py:36-40 | A fresh child (best -inf, worst +inf) keeps every parent's bounds around its children's |
| OptNode.ExpandKeeps | mcts/src/mcts/algorithms/opt/opt_tree_node.py:42-47 | An expansion keeps every node's bounds sane, the visit-count balance and the bound containment |
| OptNode.OptTree.constructor | mcts/src/mcts/algorithms/opt/opt_tree_node.py:17-24 | One node with N = 0, best = -inf, worst = +inf, no children; balanced and contained |
| OptNode.OptTree.Update | mcts/src/mcts/algorithms/opt/opt_tree_node.py:26-34 | Node `i`'s statistics take the update with the reward its own state interprets; nothing else changes |
| OptNode.OptTree.Expand | mcts/src/mcts/algorithms/opt/opt_tree_node.py:36-47 | With an action left, one unvisited child is appended and returned, holding the state the next action leads to. With none left, `None` comes back and nothing changes. Balance and containment are kept |
| OptNode.OptTree.BestChild | mcts/src/mcts/algorithms/opt/opt_tree_node.py:52-63 | As for UCT, with the estimated value being the child's best bound: fails exactly when there are no children, otherwise returns the child the `children[:-1]` scan settles on |
| OptPolicy.Exploit | mcts/src/mcts/algorithms/opt/opt_tree_policy.py:24 | The exploit term `t` satisfies `t * (parent best - parent worst) == child best - parent worst`. It lies in [0, 1] when the child's best lies within the parent's bounds |
| OptPolicy.OptScore | mcts/src/mcts/algorithms/opt/opt_tree_policy.py:20-29 | Exactly 0 when the parent's bounds are equal; otherwise a finite score |
| OptPolicy.OptScoresOf | mcts/src/mcts/algorithms/opt/opt_tree_policy.py:46-47 | One score per child, in child order, each computed against the parent's statistics |
| OptPolicy.OptPick | mcts/src/mcts/algorithms/opt/opt_tree_policy.py:20-29 | Equal parent bounds choose the first child. Otherwise two errors are raised. `log` of a never-updated parent's N fails exactly when the bounds are not both finite. The division by a child's N fails exactly when the bounds are finite and some child is unvisited |
| OptPolicy.TreePolicy | mcts/src/mcts/algorithms/opt/opt_tree_policy.py:31-40 | An unvisited node is returned unchanged. Otherwise a fresh unvisited child is expanded and returned when an action is left. The answer is `i` or a descendant, unvisited or terminal. Balance and containment are kept. It cannot fail when every non-root node has been visited |
| OptPolicy.Select | mcts/src/mcts/algorithms/opt/opt_tree_policy.py:42-49 | A terminal node is returned unchanged. A non-terminal node without children fails. A scoring error is passed on. Otherwise the descent continues below the child `OptPick` chooses |
| OptPolicy.ContainedAfterBackprop | mcts/src/mcts/algorithms/opt/opt_tree_policy.py:54-57 | When parent and child interpret the reward alike, a backpropagation keeps each parent's bounds around its children's |
| OptPolicy.ExploitWithinUnit | mcts/src/mcts/algorithms/opt/opt_tree_policy.py:24 | Under contained bounds, a visited child of a node with distinct bounds has finite bounds and an exploit term in [0, 1] |
| OptPolicy.Backpropagate | mcts/src/mcts/algorithms/opt/opt_tree_policy.py:54-57 | Each node on the path from `x` to the root is updated exactly once, and no other node changes. The visit-count balance is kept, and so is the containment when the states interpret the reward alike |
| OptPolicy.BackpropKeeps | mcts/src/mcts/algorithms/opt/opt_tree_policy.py:54-57 | A backpropagation keeps the visit-count balance, and keeps the bound containment when parent and child interpret the reward alike |
| OptPolicy.UpdatePath | mcts/src/mcts/algorithms/opt/opt_tree_policy.py:55-57 | The while loop over parent links updates each node of the path once and touches no other node |
| Rollouts.SomeDrawable | mcts/src/mcts/algorithms/uct/uct_default_policy.py:34-37 | With admissible weights, `random.choices` always has an action it can return |
| Rollouts.RolloutExtend | mcts/src/mcts/algorithms/uct/uct_default_policy.py:33-38 | One more draw from a non-terminal state extends a rollout by that action |
| Rollouts.RolloutFromTerminal | mcts/src/mcts/algorithms/uct/uct_default_policy.py:31-33 | A rollout from a terminal state makes no move |
| Rollouts.RunRollout | mcts/src/mcts/algorithms/uct/uct_default_policy.py:31-42 | The loop ends in a terminal, reachable state and returns that state's raw reward. The state is reached by drawing default actions, weighted by the heuristic on the starting state. A terminal start is returned as it is |
| UctDefault.UctDefaultPolicy.constructor | mcts/src/mcts/algorithms/uct/uct_default_policy.py:21-27 | The policy keeps the simulation count, the heuristic and the tracker it is given |
| UctDefault.UctDefaultPolicy.RunSimulation | mcts/src/mcts/algorithms/uct/uct_default_policy.py:29-42 | One rollout from `start`: a terminal state reached by weighted draws, with its raw reward; a terminal start comes back unchanged |
| UctDefault.UctDefaultPolicy.Simulate | mcts/src/mcts/algorithms/uct/uct_default_policy.py:44-53 | `n_sims` rollouts (none if not positive), each ending in a terminal state reachable from `start` and scored by its raw reward. They are submitted in order to the tracker, if any. The result is the sum of the raw rewards, with weight exactly `n_sims` |
| OptDefault.OptDefaultPolicy.constructor | mcts/src/mcts/algorithms/opt/opt_default_policy.py:13-15 | The recorded best starts as no state with score -inf |
| OptDefault.OptDefaultPolicy.Simulate | mcts/src/mcts/algorithms/opt/opt_default_policy.py:17-31 | One uniform rollout to a terminal state, returning its raw reward with weight 1. The recorded state is replaced exactly when the interpreted reward is strictly greater, so the recorded score never falls. A recorded state is always terminal and scored by its own interpreted reward |
| Search.VisitsAppend | mcts/src/mcts/monte_carlo_tree_search.py:12-18 | An iteration adds one to a node's tally of iterations through it exactly when its backpropagation path contains the node |
| Search.CreditsAppend | mcts/src/mcts/monte_carlo_tree_search.py:12-18 | An iteration adds its reward, as the node's state interprets it, to a node's credit exactly when its path contains the node |
| Search.VisitsExtends | mcts/src/mcts/monte_carlo_tree_search.py:12-18 | Growing the tree leaves every node's tally of earlier iterations unchanged, and nodes added since have a tally of zero |
| Search.CreditsExtends | mcts/src/mcts/monte_carlo_tree_search.py:12-18 | Growing the tree leaves every node's credit from earlier iterations unchanged, and nodes added since have none |
| Search.UctVisitsAt | mcts/src/mcts/monte_carlo_tree_search.py:13-16 | If N was the starting N plus `n_sims` per earlier iteration through the node, then after the tree grows and one more iteration backpropagates `n_sims` along its path, the same holds with that iteration counted |
| Search.UctCreditsAt | mcts/src/mcts/monte_carlo_tree_search.py:13-16 | The same for W: the starting W plus each iteration's reward, as the node's state interprets it, over the iterations through the node |
| Search.UctTallyStep | mcts/src/mcts/monte_carlo_tree_search.py:13-16 | Growing the tree and then backpropagating one more iteration from the node it simulated keeps N and W equal to the start values plus the tallies of the longer record |
| Search.SimulatedOnce | mcts/src/mcts/algorithms/opt/opt_default_policy.py:17-31 | One uniform rollout ending in the terminal state `last` is a simulation of one game, scored `reward(last)`, from the rollout's start |
| Search.TracedExtends | mcts/src/mcts/monte_carlo_tree_search.py:12-18 | Growing the tree keeps the record of earlier iterations true: each still names a node at or below `start` whose state is the one it simulated from |
| Search.TracedAppend | mcts/src/mcts/monte_carlo_tree_search.py:13-16 | A visit to a node at or below `start`, simulated from that node's state, extends the record |
| Search.ReplayedExtends | mcts/src/mcts/monte_carlo_tree_search.py:12-18 | Replaying the OPT iterations over a grown tree gives the statistics of the smaller tree, with fresh statistics for the added nodes |
| Search.ReplayedAppend | mcts/src/mcts/monte_carlo_tree_search.py:13-16 | Replaying one more iteration applies its reward, with weight 1, along its own path after the earlier ones |
| Search.VisitedEveryTime | mcts/src/mcts/monte_carlo_tree_search.py:12-18 | A node on the path of every recorded iteration, such as `start` or the root, is counted once per iteration |
| Search.TalliedAtRoot | mcts/src/mcts/monte_carlo_tree_search.py:12-18 | With N tallied over the record, N of the start node and of the root each grew by `n_sims` per iteration |
| Search.SumScoresInRange | mcts/src/mcts/algorithms/uct/uct_default_policy.py:48-53 | The summed scores of a batch of simulations whose scores each lie in [lo, hi] lie between `lo` and `hi` times the batch size |
| Search.IterationKeepsRange | mcts/src/mcts/monte_carlo_tree_search.py:13-16 | With rewards read as they are and every terminal reward in [lo, hi], the N and W a UCT iteration leaves (nodes added at N = W = 0, then `n_sims` and the summed rewards added along the path) keep every W between `lo * N` and `hi * N` |
| Search.RunUct | mcts/src/mcts/monte_carlo_tree_search.py:9-21 | `run` with the UCT policies returns the start node after `max(max_iter, 0)` iterations. `trace` records them: each simulated `n_sims` games from the state of a node at or below the start node and backpropagated their total from that same node. N and W of every node are their values before the run (zero for nodes added since) plus `n_sims`, resp. each reward as the node's state interprets it, for every recorded iteration whose path passes through the node. N of the start node and of the root each grow by `max(max_iter, 0) * n_sims`. The tree stays balanced and reachable and only grows |
| Search.ProgressStarts | mcts/src/mcts/monte_carlo_tree_search.py:10-12 | Before the first UCT iteration the record is empty and N and W are the starting values |
| Search.ProgressTallies | mcts/src/mcts/monte_carlo_tree_search.py:12-21 | While the UCT loop runs, N and W of every node are the starting values plus their tallies over the record, and N of the start node and of the root have grown by `n_sims` per recorded iteration |
| Search.UctStep | mcts/src/mcts/monte_carlo_tree_search.py:12-18 | One pass of the loop: the recorded tallies stay exact with the new iteration added to the record |
| Search.UctIteration | mcts/src/mcts/monte_carlo_tree_search.py:13-16 | One iteration: the tree grows by at most one node, the descent reaches a node at or below the start node that is fresh or terminal, `n_sims` games are simulated from that node's state, and their total is backpropagated from that same node: N gains `n_sims` and W the total, as each state interprets it, exactly along its path. The tracker is offered the simulated solutions. N of the start node and of the root grow by `n_sims`, and the balance is kept |
| Search.UctDescend | mcts/src/mcts/monte_carlo_tree_search.py:13 | The descent leaves N and W as they were (zero for the node it may add) and reaches a node at or below `start` that is fresh or terminal |
| Search.UctPlayout | mcts/src/mcts/monte_carlo_tree_search.py:15-16 | `n_sims` games simulated from `x`'s state, totalled and backpropagated from `x` along its path; the tracker is offered them |
| Search.VisitedAfterBackprop | mcts/src/mcts/monte_carlo_tree_search.py:13-16 | Every non-root node except `x` was visited, and `x` has N ≥ 0. Then after a backpropagation of weight 1 from `x`, every non-root node has been visited |
| Search.OptDescend | mcts/src/mcts/monte_carlo_tree_search.py:13 | The descent reaches a node at or below `start` that is unvisited or terminal, and leaves the statistics as they were (fresh for the node it may add). If every non-root node had been visited, it succeeds and only the node reached may still be unvisited |
| Search.OptPlayout | mcts/src/mcts/monte_carlo_tree_search.py:15-16 | One uniform rollout from `x`'s state ends in a terminal state `last` reachable from it; its raw reward is backpropagated from `x` with weight 1, exactly along `x`'s path, and the recorded best becomes the larger of the old one and `last`'s interpreted reward. Restores "every non-root node visited" |
| Search.OptBackup | mcts/src/mcts/monte_carlo_tree_search.py:16 | A backpropagation of weight 1 adds one visit to each node on the path, keeps the balance, and restores "every non-root node visited" |
| Search.OptIteration | mcts/src/mcts/monte_carlo_tree_search.py:13-16 | One OPT iteration. A failed descent leaves the statistics as they were. Otherwise the node reached is at or below the start node, one rollout is simulated from its state, and its reward is backpropagated from that same node with weight 1. It succeeds when every non-root node has been visited and keeps that so, adds one visit to the start node, never lowers the recorded best score, and keeps balance and containment |
| Search.OptProgressStarts | mcts/src/mcts/monte_carlo_tree_search.py:10-12 | Before the first OPT iteration the record is empty and the statistics are the starting ones |
| Search.OptStep | mcts/src/mcts/monte_carlo_tree_search.py:12-18 | One pass of the loop: on success the statistics are the replay of the longer record, on failure of the same record |
| Search.RunOpt | mcts/src/mcts/monte_carlo_tree_search.py:9-21 | `run` with the OPT policies never divides by an unvisited child's N, starting from a fresh tree or any tree whose non-root nodes were all visited. It then returns the start node after `max(max_iter, 0)` iterations, with N grown by that many. `trace` records the iterations completed: each ran one uniform rollout from the state of a node at or below the start node. The statistics are those before the run (fresh for nodes added since) with each recorded reward applied, in order and with weight 1, along the path of the node it was simulated from |
| SeqColoring.Play | mcts/src/mcts/sample/graph_color_seq_state.py:77-80 | The colour is appended, and `n_colors` becomes the larger of itself and colour + 1 |
| SeqColoring.ActionsSpec | mcts/src/mcts/sample/graph_color_seq_state.py:32-42 | A non-terminal state offers exactly the colours in 0..n_colors that no coloured neighbour of the next vertex uses, each once and ascending |
| SeqColoring.GatherNeighborColors | mcts/src/mcts/sample/graph_color_seq_state.py:19-21 | The loop collects the colours of exactly the already coloured neighbours of the next vertex |
| SeqColoring.SeqActionIterator.constructor | mcts/src/mcts/sample/graph_color_seq_state.py:10-23 | The fresh iterator will yield exactly the state's actions (nothing for a terminal state) |
| SeqColoring.SeqActionIterator.Reset | mcts/src/mcts/sample/graph_color_seq_state.py:28-30 | `__iter__` restarts the enumeration from colour 0 |
| SeqColoring.SeqActionIterator.Next | mcts/src/mcts/sample/graph_color_seq_state.py:32-42 | Each call yields the next action not yet yielded, in order, and stops once none is left |
| SeqColoring.MaxPlusOne | mcts/src/mcts/sample/graph_color_seq_state.py:80 | The value `n_colors` tracks from the empty state exceeds every colour, is non-negative, and is 0 or one more than a colour in use |
| SeqColoring.EmptyInv | mcts/src/mcts/sample/graph_color_seq_state.py:56-60 | The empty colouring with `n_colors = 0` is a reachable state |
| SeqColoring.PlayKeepsInv | mcts/src/mcts/sample/graph_color_seq_state.py:77-80 | Playing an offered colour keeps `n_colors` one past the largest colour |
| SeqColoring.FreshColourOffered | mcts/src/mcts/sample/graph_color_seq_state.py:33-40 | A non-terminal reachable state always offers the fresh colour `n_colors`, so it has an action |
| SeqColoring.PlayKeepsValid | mcts/src/mcts/sample/graph_color_seq_state.py:98-104 | On a symmetric graph without self-loops, playing an offered colour on a valid state gives a valid state |
| SeqColoring.EqualsIsEquality | mcts/src/mcts/sample/graph_color_seq_state.py:82-83 | On reachable states of one graph, comparing the colourings alone is full equality |
| SeqColoring.SeqGame | mcts/src/mcts/sample/graph_color_seq_state.py:71-75 | Both action lists the engine sees are the iterator's, on every reachable state |
| SeqColoring.SeqGameWellFormed | mcts/src/mcts/sample/graph_color_seq_state.py:62-80 | Sequential colouring meets the engine's domain contract, and its rewards are interpreted as they are |
| Graphs.OfferedMembers | mcts/src/mcts/sample/graph_color_seq_state.py:33-40 | The colour cursor yields exactly the colours in range that are not taken |
| Graphs.OfferedIncreasing | mcts/src/mcts/sample/graph_color_seq_state.py:33-40 | The colour cursor yields its colours in strictly ascending order |
| DsaturColoring.ScanFindsSaturationChoice | mcts/src/mcts/sample/graph_color_dsatur_state.py:20-29 | The scan of the iterator's constructor ends on the DSATUR choice |
| DsaturColoring.ScanFindsFirstUncoloured | mcts/src/mcts/sample/graph_color_dsatur_state.py:31-32 | With `is_default`, the scan stops at the first uncoloured vertex |
| DsaturColoring.ChosenVertexSpec | mcts/src/mcts/sample/graph_color_dsatur_state.py:18-32 | The chosen vertex is an uncoloured vertex of maximal saturation. Ties go to the larger total degree, remaining ties to the lowest index. With `is_default` it is the first uncoloured vertex |
| DsaturColoring.SelectVertex | mcts/src/mcts/sample/graph_color_dsatur_state.py:18-32 | The constructor's loop computes that chosen vertex |
| DsaturColoring.DsaturActionIterator.constructor | mcts/src/mcts/sample/graph_color_dsatur_state.py:11-36 | The fresh iterator of a non-terminal state will yield exactly the state's actions |
| DsaturColoring.DsaturActionIterator.Reset | mcts/src/mcts/sample/graph_color_dsatur_state.py:38-40 | `__iter__` restarts the enumeration from colour 0 |
| DsaturColoring.DsaturActionIterator.Next | mcts/src/mcts/sample/graph_color_dsatur_state.py:42-56 | On a non-terminal state each call yields the next action not yet yielded, in order, and stops once none is left |
| DsaturColoring.AddAround | mcts/src/mcts/sample/graph_color_dsatur_state.py:99-104 | After the update, each uncoloured vertex of the visited set records the new colour too. No other entry changes, and entries appear only for those vertices |
| DsaturColoring.AddColorAt | mcts/src/mcts/sample/graph_color_dsatur_state.py:100-104 | One loop step: an uncoloured neighbour gains the colour in its recorded set, a coloured one is skipped |
| DsaturColoring.Play | mcts/src/mcts/sample/graph_color_dsatur_state.py:93-106 | `play` colours `v` with `c`, records `c` around every uncoloured neighbour of `v` and raises `n_colors` to cover `c`, on copies |
| DsaturColoring.AddNeighborColors | mcts/src/mcts/sample/graph_color_dsatur_state.py:99-104 | The loop over `v`'s neighbours records the colour around exactly its uncoloured neighbours |
| DsaturColoring.EmptyInv | mcts/src/mcts/sample/graph_color_dsatur_state.py:71-75 | The empty state is reachable |
| DsaturColoring.ChosenIsVertex | mcts/src/mcts/sample/graph_color_dsatur_state.py:18-34 | A non-terminal reachable state chooses a real, uncoloured vertex |
| DsaturColoring.FreshColourOffered | mcts/src/mcts/sample/graph_color_dsatur_state.py:43-50 | A non-terminal reachable state always offers the chosen vertex the fresh colour `n_colors` |
| DsaturColoring.ActionsSpec | mcts/src/mcts/sample/graph_color_dsatur_state.py:42-50 | The actions of a non-terminal reachable state are exactly the chosen vertex paired with each colour in 0..n_colors not worn by a coloured neighbour |
| DsaturColoring.PlayKeepsInv | mcts/src/mcts/sample/graph_color_dsatur_state.py:93-106 | On a symmetric graph, an action colours one more vertex and keeps the state reachable |
| DsaturColoring.PlayKeepsRecorded | mcts/src/mcts/sample/graph_color_dsatur_state.py:99-104 | On a symmetric graph, every uncoloured vertex's recorded set stays exactly the colours of its coloured neighbours |
| DsaturColoring.NbColorsAfterPlay | mcts/src/mcts/sample/graph_color_dsatur_state.py:99-104 | Colouring `v` adds its colour to the recorded set of each uncoloured neighbour of `v` and to no other |
| DsaturColoring.ColorsAroundAfterPlay | mcts/src/mcts/sample/graph_color_dsatur_state.py:93-95 | Colouring `v` adds its colour around exactly the vertices that list `v` as a neighbour |
| DsaturColoring.PlayKeepsValid | mcts/src/mcts/sample/graph_color_dsatur_state.py:124-130 | On a symmetric graph without self-loops, an action on a valid state gives a valid state |
| DsaturColoring.EqualsAgreesOnRecordedColours | mcts/src/mcts/sample/graph_color_dsatur_state.py:108-109 | States with equal colourings agree on being terminal, on being valid and on every recorded neighbour-colour set |
| DsaturColoring.DsaturGame | mcts/src/mcts/sample/graph_color_dsatur_state.py:86-91 | Both action lists the engine sees are the saturation iterator's, on every reachable non-terminal state |
| DsaturColoring.DsaturGameWellFormed | mcts/src/mcts/sample/graph_color_dsatur_state.py:77-106 | On a symmetric graph, DSATUR-order colouring meets the engine's domain contract, and its rewards are interpreted as they are |
| TicTacToe.ProdZero | mcts/src/mcts/sample/tic_tac_toe_state.py:79 | The product of the board is 0 exactly when a cell is empty |
| TicTacToe.WinnerSpec | mcts/src/mcts/sample/tic_tac_toe_state.py:64-79 | `winner` is the mark of the first completed line in its order. With no completed line it is -1 if a cell is empty and 0 otherwise |
| TicTacToe.ActionsSpec | mcts/src/mcts/sample/tic_tac_toe_state.py:20-32 | A non-terminal state offers exactly its empty cells, each once and ascending |
| TicTacToe.TttIterator.constructor | mcts/src/mcts/sample/tic_tac_toe_state.py:12-14 | The fresh iterator will yield exactly the state's actions |
| TicTacToe.TttIterator.Reset | mcts/src/mcts/sample/tic_tac_toe_state.py:16-18 | `__iter__` restarts from cell 0 |
| TicTacToe.TttIterator.Next | mcts/src/mcts/sample/tic_tac_toe_state.py:20-32 | Each call yields the next empty cell not yet yielded, in order, and stops once none is left or the game is over |
| TicTacToe.StartInv | mcts/src/mcts/sample/tic_tac_toe_state.py:42-44 | The empty board with X to move is a reachable, non-terminal state |
| TicTacToe.PlayKeepsInv | mcts/src/mcts/sample/tic_tac_toe_state.py:52-58 | A legal move writes the mover's mark into that cell only, passes the turn, keeps the marks alternating and fills one empty cell |
| TicTacToe.IllegalPlayIsIgnored | mcts/src/mcts/sample/tic_tac_toe_state.py:52-54 | An index outside 0..8 or an occupied cell returns the same state |
| TicTacToe.TerminalSpec | mcts/src/mcts/sample/tic_tac_toe_state.py:81-82 | A reachable game is over exactly when a line is completed or no cell is empty |
| TicTacToe.InterpretFavoursLastMover | mcts/src/mcts/sample/tic_tac_toe_state.py:84-95 | In a won game the interpreted reward is +1 when the last mover won and -1 when the player to move won |
| TicTacToe.EqualsIsEquality | mcts/src/mcts/sample/tic_tac_toe_state.py:115-116 | On reachable states, comparing boards alone is full equality, since the board fixes whose turn it is |
| TicTacToe.TttGame | mcts/src/mcts/sample/tic_tac_toe_state.py:46-50 | Both action lists the engine sees are the iterator's, on every reachable state |
| TicTacToe.TttGameWellFormed | mcts/src/mcts/sample/tic_tac_toe_state.py:46-58 | Tic-tac-toe meets the engine's domain contract |
| Heuristics.FirstFree | benchmark/src/algorithms/heuristic_algorithms.py:21-27 | The `for ... else` search settles on the first colour below K not taken, or K when all are taken |
| Heuristics.SmallestFree | benchmark/src/algorithms/heuristic_algorithms.py:21-27 | The loop computes that colour |
| Heuristics.Assign | benchmark/src/algorithms/heuristic_algorithms.py:14-27 | After `t` steps there is one colour slot per node, and the count K is between 0 and `t` |
| Heuristics.SeqAssignment | benchmark/src/algorithms/heuristic_algorithms.py:6-30 | On an ordering of all vertices, every vertex gets a colour in [0, K) with K at most the vertex count. On a symmetric graph, distinct adjacent vertices differ, and without self-loops the colouring passes `check_coloring` |
| Heuristics.FirstFreeKeepsGreedy | benchmark/src/algorithms/heuristic_algorithms.py:18-27 | Giving an uncoloured vertex the first colour its neighbours leave free keeps every coloured vertex greedy: each colour below its own is worn by a neighbour |
| Heuristics.AssignedPrefix | benchmark/src/algorithms/heuristic_algorithms.py:16-27 | After `t` steps exactly the first `t` listed vertices are coloured, with colours below K |
| Heuristics.AssignUsesAll | benchmark/src/algorithms/heuristic_algorithms.py:21-27 | Every colour below K is worn by some vertex |
| Heuristics.AssignGreedy | benchmark/src/algorithms/heuristic_algorithms.py:18-27 | Every coloured vertex is greedy |
| Heuristics.AssignSpec | benchmark/src/algorithms/heuristic_algorithms.py:14-30 | First-fit colours every vertex within [0, K) and uses all those colours. Every vertex is greedy, and K is at most the vertex count. The colouring is proper on symmetric graphs and passes `check_coloring` on loopless ones |
| Heuristics.ProperAfter | benchmark/src/algorithms/heuristic_algorithms.py:16-27 | On a symmetric graph no edge between distinct coloured vertices joins equal colours, at every step |
| Heuristics.SortDescendingSpec | benchmark/src/algorithms/heuristic_algorithms.py:44-45 | `sort()` then `reverse()` permutes the pairs into descending tuple order |
| Heuristics.ByDegree | benchmark/src/algorithms/heuristic_algorithms.py:40-46 | The order handed to `seq_assignment` is a permutation of the input nodes |
| Heuristics.ByDegreeSpec | benchmark/src/algorithms/heuristic_algorithms.py:40-46 | That order has decreasing degree, equal degrees by decreasing vertex number |
| Heuristics.PermutedOrdering | benchmark/src/algorithms/heuristic_algorithms.py:46-47 | A permutation of an ordering of all vertices is again one |
| Heuristics.PairUp | benchmark/src/algorithms/heuristic_algorithms.py:40-43 | The loop builds the `(degree, vertex)` pairs in node order |
| Heuristics.VerticesOf | benchmark/src/algorithms/heuristic_algorithms.py:46 | The comprehension extracts the vertices of the sorted pairs, in order |
| Heuristics.LargestFirst | benchmark/src/algorithms/heuristic_algorithms.py:33-47 | `largest_first` is first-fit on the nodes in decreasing (degree, vertex) order, with the same guarantees as `seq_assignment` |
| UncolouredNeighbours.Detached | benchmark/src/algorithms/heuristic_algorithms.py:95-97 | Taking `u` out of its uncoloured neighbours' sets leaves one set per vertex and `u`'s own set as it was |
| UncolouredNeighbours.ColourKeepsTracks | benchmark/src/algorithms/heuristic_algorithms.py:76-81 | On a symmetric graph, colouring `u` and detaching it keeps `unc_adj` equal to the uncoloured neighbours of every uncoloured vertex. It also removes exactly `u` from the uncoloured set, and every vertex `u` lists still lists `u` for `remove` |
| LargestFit.PickMax | benchmark/src/algorithms/heuristic_algorithms.py:69-74 | The pick is a vertex of the set with the largest score |
| LargestFit.DetachAsWritten | benchmark/src/algorithms/heuristic_algorithms.py:78-79 | Phase 1's removal as written fails exactly when the picked vertex has a self-loop; otherwise it detaches the vertex |
| LargestFit.SelfLoopStopsPhaseOne | benchmark/src/algorithms/heuristic_algorithms.py:78-79 | On the one-vertex graph with a self-loop, phase 1 as written stops with an error, while the guarded removal succeeds |
| LargestFit.PhaseOneAgreesWithoutLoop | benchmark/src/algorithms/heuristic_algorithms.py:76-81 | Without a self-loop on the picked vertex, phase 1 as written and the corrected phase 1 compute the same `unc_adj`, `U` and `V` |
| LargestFit.Detach | benchmark/src/algorithms/heuristic_algorithms.py:95-97 | The guarded removal loop detaches the coloured vertex from its uncoloured neighbours |
| LargestFit.ColourVertex | benchmark/src/algorithms/heuristic_algorithms.py:93-102 | Colouring a vertex of V with K keeps V and U a partition of the uncoloured vertices, with V shrinking. Class K stays independent and its uncoloured neighbours stay in U |
| LargestFit.GrowClass | benchmark/src/algorithms/heuristic_algorithms.py:84-102 | One phase-2 step colours a vertex of V with K, keeping all of the above |
| LargestFit.Repartition | benchmark/src/algorithms/heuristic_algorithms.py:100-102 | Moving the picked vertex out and its neighbours from V to U keeps them apart, loses only the picked vertex and shrinks V |
| LargestFit.JoinClass | benchmark/src/algorithms/heuristic_algorithms.py:93-102 | Colouring the picked vertex with K keeps the classes proper and used, and blocks its uncoloured neighbours |
| LargestFit.CompleteClass | benchmark/src/algorithms/heuristic_algorithms.py:84-102 | Phase 2 ends with every uncoloured vertex in U, the classes proper and `unc_adj` exact |
| LargestFit.StartClass | benchmark/src/algorithms/heuristic_algorithms.py:68-81 | Phase 1 colours one vertex with the new colour K and moves its uncoloured neighbours to U |
| LargestFit.RecursiveLargestFit | benchmark/src/algorithms/heuristic_algorithms.py:54-107 | With the phase-1 correction, every vertex is coloured within [0, K) and every such colour is used. K is at most the vertex count. The colouring is proper on symmetric graphs and passes `check_coloring` on loopless ones |
| DsaturHeuristic.SelectVertex | benchmark/src/algorithms/heuristic_algorithms.py:125-137 | The pick is an uncoloured vertex of maximal saturation and, among those, of maximal uncoloured degree |
| DsaturHeuristic.Update | benchmark/src/algorithms/heuristic_algorithms.py:151-156 | The loop, which skips self-loops, detaches the coloured vertex from its uncoloured neighbours and adds its colour to their `adj_colors` |
| DsaturHeuristic.ColourKeepsInvariant | benchmark/src/algorithms/heuristic_algorithms.py:143-156 | Colouring the pick with the first colour its neighbours leave free keeps two things. `adj_colors` stays exact, and the colouring stays proper, greedy and using all of [0, K) |
| DsaturHeuristic.Step | benchmark/src/algorithms/heuristic_algorithms.py:123-158 | One round colours one more vertex, raises K by at most one and keeps all of the above |
| DsaturHeuristic.Dsatur | benchmark/src/algorithms/heuristic_algorithms.py:109-160 | Every vertex is coloured within [0, K), all of those colours are used and K is at most the vertex count. The colouring is proper on symmetric graphs and passes `check_coloring` on loopless ones. Every vertex has the smallest colour its neighbours leave free |
| Benchmark.CheckColoring | benchmark/main.py:20-29 | True exactly when the colouring covers every vertex (if `complete`) and no coloured vertex shares its colour with a neighbour inside the colouring |
| Benchmark.SelfLoopFails | benchmark/main.py:24-27 | A vertex with a self-loop fails the check whenever the colouring covers it |
| Benchmark.MaxColour | benchmark/src/types/types.py:55 | `max` of a non-empty colouring is one of its colours and no colour exceeds it |
| Benchmark.ColorCountSpec | benchmark/src/types/types.py:50-55 | -1 for an invalid result. A valid empty colouring raises. Otherwise the count exceeds every colour and is one more than some colour |
| Benchmark.ColorCountOfHeuristic | benchmark/src/types/types.py:55 | For a colouring that uses exactly the colours 0..K-1, as each heuristic returns, the count is K |
| InputUtils.ReaderForSpec | benchmark/src/utils/input_utils.py:4-8 | The binary reader is chosen exactly for a non-empty name followed by ".col.b" |
| InputUtils.RowFromBytes | benchmark/src/utils/input_utils.py:10-26 | Row `i` is `i + 1` bits, most significant first, from the fewest whole bytes that hold them. The next row starts at a fresh byte |
| InputUtils.RowsFromBits | benchmark/src/utils/input_utils.py:15-24 | Every bit emitted is 0 or 1, and there are at most eight per input byte |
| InputUtils.EmitByte | benchmark/src/utils/input_utils.py:16-24 | The inner loop emits a byte's bits until the row is complete, moving to the next row, or until the byte runs out |
| InputUtils.BytesToBits | benchmark/src/utils/input_utils.py:10-26 | `bytes_to_bits` emits the rows of the lower triangle described above |
| InputUtils.PosSpec | benchmark/src/utils/input_utils.py:38-42 | Bit `k` falls in row `i` and column `j ≤ i`, after all bits of the rows above |
| InputUtils.PosInjective | benchmark/src/utils/input_utils.py:38-42 | No two bits name the same cell |
| InputUtils.ReadEdges | benchmark/src/utils/input_utils.py:28-42 | Fails exactly when a marked row lies outside the list. Otherwise every vertex gains exactly the neighbours the marked cells give it, in both directions |
| InputUtils.AddEdge | benchmark/src/utils/input_utils.py:35-36 | A marked cell adds `j` to row `i`'s set and `i` to row `j`'s set and changes nothing else |
| InputUtils.AddedEdgesKeepGraph | benchmark/src/utils/input_utils.py:33-36 | Adding in-range edges in both directions keeps a graph well formed and symmetric, and the sets only grow |
| InputUtils.DiagonalGivesLoop | benchmark/src/utils/input_utils.py:34-36 | A 1 on the diagonal gives its vertex a self-loop |
| InputUtils.OnesInRange | benchmark/src/utils/input_utils.py:40-42 | The cells marked lie in the lower triangle, in rows inside the list |
| InputUtils.ReadGraphBinary | benchmark/src/utils/input_utils.py:72-80 | After the preamble, the result is `n` vertices (none when `n` is negative) holding exactly the neighbours the marked cells give. The graph is well formed and symmetric. Otherwise the error a marked row outside `n` raises |
| InputUtils.PyIndex | benchmark/src/utils/input_utils.py:110-111 | Python list indexing: in range exactly for -n ≤ i < n, and a negative index counts from the end |
| InputUtils.ReadGraphAscii | benchmark/src/utils/input_utils.py:104-118 | The line loop computes the graph the lines describe in order |
| InputUtils.ErrorEndsReading | benchmark/src/utils/input_utils.py:104-118 | Once a line raises, later lines change nothing |
| InputUtils.ReadLineKeepsGraph | benchmark/src/utils/input_utils.py:105-118 | A well-formed symmetric loopless graph stays so after a line whose edge is in range. A problem line sets the vertex count, and any other line keeps it |
| InputUtils.ReadLinesGraph | benchmark/src/utils/input_utils.py:104-120 | A file whose edges all name declared vertices reads without error. It gives a well-formed, symmetric, loopless graph on the vertices its last problem line declares |

## Left out

- Floating point:
  - The square roots, logarithms, heuristic term and random term of both `compute_uct` variants are one oracle, `explore(parentN, child)`.
  - For UCT this oracle also absorbs the math-domain errors of `log`/`sqrt` on non-positive counts.
  - For OPT the errors are modelled: `log` of a parent count, and division by a child count.
- UctPolicy.UctScore: the score is exact real arithmetic rather than IEEE doubles.
  - A child with a negative count gets an unconstrained finite score.
- The `heuristic` method of the sequential colouring iterator (float division) is not modelled.
- The random draws (`choice`, `choices`, `random()`) are nondeterministic choices among the actions they could return. No distribution is modelled.
- The seed and the `Random` objects are not modelled.
- The `multiprocessing.Pool` path of the UCT default policy is not modelled, and neither is its `n_threads` parameter. Rollouts run sequentially.
- The `max_time` parameter of `run` is accepted and ignored, as in the source.
- The per-iteration `print` is not modelled.
- DsaturColoring.DsaturActionIterator.Next: on a terminal state the source prints the colouring and ends the process (mcts/src/mcts/sample/graph_color_dsatur_state.py:52-54).
  - The model excludes that call to the iterator itself with a precondition.
  - The engine still reaches that point; the next line says how the model treats it there.
- DsaturColoring.DsaturGame: a terminal state offers no tree actions, so expanding it yields `None`, `Select` returns the terminal node, and `Search.RunUct` and `Search.RunOpt` go on for all `max(max_iter, 0)` iterations.
  - In the source, the first time the tree policy expands a visited terminal node (mcts/src/mcts/algorithms/uct/uct_tree_policy.py:36-39, mcts/src/mcts/algorithms/opt/opt_tree_policy.py:32-35), `expand` calls `next` on the iterator (mcts/src/mcts/algorithms/uct/uct_tree_node.py:34, mcts/src/mcts/algorithms/opt/opt_tree_node.py:44).
  - The iterator then prints the colouring and ends the process with `exit()`; `except StopIteration` does not catch that.
  - So a DSATUR search in the source stops there, the first time a complete colouring is chosen a second time. The model does not capture this early end of the process, nor the printed colouring.
- `policy_array` (both node kinds) is a read-only listing of children and values and is not modelled.
- `is_terminal` of the nodes forwards to the state and is not modelled separately.
- `count()` is modelled as `SearchTree.Count`, a definition without a contract of its own.
  - Its properties are `RootCount`, `CountAfterExpand` and `CountAtRootAfterExpand`.
- The `(action, node)` pairs of an OPT node are implicit: child `k` of a node was produced by tree action `k`.
- `__hash__`, `__eq__` (which forwards to `equals`), `__str__`, `get_symbol` and the `coloring` properties are not modelled.
  - The tic-tac-toe `__hash__` hashes a list, which Python refuses. That path is rendering and hashing only.
- The abstract interfaces (`State`, `TreePolicy`, `DefaultPolicy`) have no behaviour of their own. They appear only as the `Games.Game` record and its contract.
- `benchmark/src/algorithms/mcts_setups.py`, `test_heuristic`, `print_result`, timing, plotting and the `main()` wiring are configuration and reporting glue. None of it is modelled.
- File I/O:
  - Opening files and gzip archives is not modelled.
  - `InputUtils.ReadGraphBinary` takes the vertex count `n` and the bytes after the preamble as parameters; reading the preamble and parsing its last line are not modelled.
  - `InputUtils.ReadGraphAscii` takes the file already split into `Line` values. Splitting a line into fields and `int()` parsing (and their errors on malformed lines) are not modelled.
- A gzip-compressed ASCII file is opened in binary mode. Its lines are then `bytes`, and `line[0] == 'e'` compares an integer with a string.
  - So no edge, comment or problem line is ever recognised, and such a file reads as an empty graph.
  - The model describes the text-mode path only.
- Benchmark.CheckColoring: two inputs on which Python does something odd are excluded by preconditions rather than modelled:
  - A negative neighbour index reads a colour from the end of the list.
  - With `complete` false, a colouring longer than the vertex list raises `IndexError`.
- LargestFit.StartClass: models phase 1 as corrected under "## Findings", not as written. It skips `u_star` in the removal loop of line 79 and takes U as `unc_adj[u_star] & V` after `u_star` has left V, where line 80 copies `unc_adj[u_star]` whole. The two agree on every symmetric adjacency list without self-loops. The as-written removal loop is LargestFit.DetachAsWritten.
- LargestFit.PickMax: the source keeps the FIRST maximal vertex in the set's iteration order, which CPython does not specify. The model promises only some vertex of maximal score.
- DsaturHeuristic.SelectVertex: as above, the model promises only some vertex of maximal saturation and, among those, of maximal uncoloured degree. The source's particular choice depends on set iteration order.
- LargestFit.RecursiveLargestFit and DsaturHeuristic.Dsatur require the node list to be `range(n)`, as every caller passes.
  - They index `unc_adj`, `adj_colors` and `color` by vertex number, while building them by position in the node list.
  - `seq_assignment` and `largest_first` accept any node list that fits the adjacency list.
- Heuristics.SeqAssignment: properness is proved on symmetric adjacency lists, which the readers produce. On a non-symmetric list the source gives no such promise.
- Rollouts.RunRollout, UctDefault.UctDefaultPolicy.RunSimulation, UctDefault.UctDefaultPolicy.Simulate, Search.RunUct, Search.UctStep, Search.UctIteration and Search.UctPlayout require `Admissible(heur)`: for every non-empty action list the heuristic returns one weight per action, none negative and at least one positive.
  - `random.choices` at mcts/src/mcts/algorithms/uct/uct_default_policy.py:37 raises `ValueError` on a weight list whose length differs from the action list's, and on weights whose total is not positive (for instance all zero).
  - Those error paths, and the draw with negative weights, are excluded by the precondition rather than modelled.
- LargestFit.RecursiveLargestFit and DsaturHeuristic.Dsatur (and their loop helpers) require a symmetric adjacency list.
  - On a one-way edge the source raises `KeyError` from `unc_adj[i].remove(u_star)` at benchmark/src/algorithms/heuristic_algorithms.py:79, :98 and :153, for instance `recursive_largest_fit(range(2), [{1}, set()])`.
  - That error path is excluded by the precondition rather than modelled; the readers always produce symmetric lists.
- Rewards are integers throughout, as every reward the domains produce is (`-n_colors`, and 1, -1 or 0 for tic-tac-toe). The reals of the source are not modelled.
- The ghost sequence `direct` (the weight simulated from each node itself) is specification only. It has no counterpart in the source.

## Findings

| source | as written | input that shows it | evidently intended | confidence | as-written member | corrected member |
|---|---|---|---|---|---|---|
| benchmark/src/algorithms/heuristic_algorithms.py:78-79 | Phase 1 runs over `unc_adj[u_star]` and removes `u_star` from every listed set. Phase 2 guards this with `if u_star != i` (line 96); phase 1 does not. With a self-loop on `u_star`, phase 1 removes `u_star` from the very set it is iterating, and Python raises `RuntimeError: Set changed size during iteration` | `recursive_largest_fit(range(1), [{0}])`. The binary reader produces such a self-loop from a 1 on the diagonal (`InputUtils.DiagonalGivesLoop`) | Phase 1 done as phase 2 does it: skip `i == u_star` in the removal loop at line 79 (the guard of line 96), and take `U = unc_adj[u_star] & V` at lines 80-81, after `u_star` has left V (the form of line 100). The guard alone is not enough: `unc_adj[u_star]` would still hold `u_star`, so line 80 would put the coloured `u_star` into U and line 104 back into V, and on `[{0}]` the outer loop would then run forever with K growing. With both changes, phase 1 is phase 2's step from an empty U | not executed | LargestFit.DetachAsWritten, LargestFit.SelfLoopStopsPhaseOne | LargestFit.Detach, LargestFit.RecursiveLargestFit |

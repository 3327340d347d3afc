/**
 * The cross-rollout tracker of mcts/src/mcts/other/solutions.py: it keeps the
 * best (state, score) pair submitted so far, comparing with a strict `>` so
 * that the earliest of equally good solutions stays, and optionally a log of
 * every submission.
 */
module SolutionsTracker {
  import opened Wrappers

  datatype Solution<A> = Solution(state: A, score: int)

  /** The best pair after one `add_solution`. */
  function Better<A>(best: Option<Solution<A>>, s: Solution<A>): (r: Option<Solution<A>>)
    ensures (best.None? || s.score > best.value.score) ==> r == Some(s)
    ensures best.Some? && s.score <= best.value.score ==> r == best
    ensures r.Some? && r.value.score >= s.score
    ensures best.Some? ==> r.value.score >= best.value.score
  {
    if best.None? || s.score > best.value.score then Some(s) else best
  }

  /** The best pair after submitting `xs` in order. */
  function Fold<A>(best: Option<Solution<A>>, xs: seq<Solution<A>>): Option<Solution<A>>
    decreases |xs|
  {
    if xs == [] then best else Fold(Better(best, xs[0]), xs[1..])
  }

  /**
   * Folding never loses a solution: the result is the earlier best or one of
   * the submitted pairs, and its score is at least every score seen.
   */
  lemma {:induction false} FoldIsUpperBound<A>(best: Option<Solution<A>>, xs: seq<Solution<A>>)
    ensures Fold(best, xs) == best || (Fold(best, xs).Some? && Fold(best, xs).value in xs)
    ensures xs != [] ==> Fold(best, xs).Some?
    ensures best.Some? ==> Fold(best, xs).Some? && Fold(best, xs).value.score >= best.value.score
    ensures forall j :: 0 <= j < |xs| ==> Fold(best, xs).Some? && Fold(best, xs).value.score >= xs[j].score
    decreases |xs|
  {
    if xs != [] {
      FoldIsUpperBound(Better(best, xs[0]), xs[1..]);
      var r := Fold(best, xs);
      forall j | 0 <= j < |xs|
        ensures r.Some? && r.value.score >= xs[j].score
      {
        if j > 0 {
          assert xs[j] == xs[1..][j - 1];
        }
      }
    }
  }

  /**
   * When the batch holds a score above the earlier best, the fold ends on the
   * FIRST submitted pair with the maximal score (ties keep the earliest).
   */
  lemma {:induction false} FoldPicksFirstMaximum<A>(best: Option<Solution<A>>, xs: seq<Solution<A>>, k: nat)
    requires k < |xs|
    requires forall j :: 0 <= j < |xs| ==> xs[j].score <= xs[k].score
    requires forall j :: 0 <= j < k ==> xs[j].score < xs[k].score
    requires best.None? || best.value.score < xs[k].score
    ensures Fold(best, xs) == Some(xs[k])
    decreases |xs|
  {
    var b := Better(best, xs[0]);
    if k == 0 {
      assert b == Some(xs[0]);
      FoldKeepsDominatingBest(b, xs[1..]);
    } else {
      assert b.value.score < xs[k].score;
      FoldPicksFirstMaximum(b, xs[1..], k - 1);
    }
  }

  /** A best pair at least as good as every submission is kept. */
  lemma {:induction false} FoldKeepsDominatingBest<A>(best: Option<Solution<A>>, xs: seq<Solution<A>>)
    requires best.Some?
    requires forall j :: 0 <= j < |xs| ==> xs[j].score <= best.value.score
    ensures Fold(best, xs) == best
    decreases |xs|
  {
    if xs != [] {
      FoldKeepsDominatingBest(Better(best, xs[0]), xs[1..]);
    }
  }

  class Solutions<A> {
    const keepHistory: bool
    var history: seq<Solution<A>>
    var best: Option<Solution<A>>

    constructor (keepHistory: bool)
      ensures this.keepHistory == keepHistory
      ensures history == [] && best == None
    {
      this.keepHistory := keepHistory;
      history := [];
      best := None;
    }

    method AddSolution(s: Solution<A>)
      modifies this
      ensures best == Better(old(best), s)
      ensures history == if keepHistory then old(history) + [s] else old(history)
    {
      if best.None? || s.score > best.value.score {
        best := Some(s);
      }
      if keepHistory {
        history := history + [s];
      }
    }

    method AddSolutions(xs: seq<Solution<A>>)
      modifies this
      ensures best == Fold(old(best), xs)
      ensures history == old(history) + if keepHistory then xs else []
    {
      for i := 0 to |xs|
        invariant Fold(best, xs[i..]) == Fold(old(best), xs)
        invariant history == old(history) + if keepHistory then xs[..i] else []
      {
        assert xs[i..][1..] == xs[i + 1..];
        AddSolution(xs[i]);
        assert xs[..i + 1] == xs[..i] + [xs[i]];
      }
      assert xs[..|xs|] == xs;
    }
  }
}

/** Small facts about sets and sequences that the models' loops rely on. */
module Collections {
  /** A member of a non-empty set, to witness the choice made when iterating over it. */
  lemma ChooseMember<T>(s: set<T>) returns (x: T)
    requires s != {}
    ensures x in s
  {
    x :| x in s;
  }

  /** The position of a member of a sequence. */
  lemma IndexOf<T>(xs: seq<T>, x: T) returns (i: nat)
    requires x in xs
    ensures i < |xs| && xs[i] == x
  {
    i :| i < |xs| && xs[i] == x;
  }

  /** A set holding every index below `n` has at least `n` members. */
  lemma {:induction false} RangeCovered(keys: set<int>, n: nat)
    requires forall u :: 0 <= u < n ==> u in keys
    ensures |keys| >= n
  {
    if n > 0 {
      RangeCovered(keys - {n - 1}, n - 1);
    }
  }

  /** A set of indices below `n` has at most `n` members. */
  lemma {:induction false} WithinRange(keys: set<int>, n: nat)
    requires forall u :: u in keys ==> 0 <= u < n
    ensures |keys| <= n
  {
    if keys != {} {
      var x := ChooseMember(keys);
      WithinRange(keys - {n - 1}, n - 1);
    }
  }

  /** A proper subset is smaller. */
  lemma ProperSubsetSmaller<T>(a: set<T>, b: set<T>)
    requires a < b
    ensures |a| < |b|
  {
    var x := ChooseMember(b - a);
    assert b == a + (b - a);
  }

  /** Moving one element from the part still to visit to the part visited keeps the split. */
  lemma MoveOne<T>(done: set<T>, rest: set<T>, whole: set<T>, x: T)
    requires done + rest == whole && done !! rest && x in rest
    ensures (done + {x}) + (rest - {x}) == whole && (done + {x}) !! (rest - {x})
  {
  }
}

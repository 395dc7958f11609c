/** Which positions of a sequence a filter keeps. */
module Subsequence {

  /** `at` are the positions of all elements that satisfy `p`, in order and once each. */
  ghost predicate Picks<T(!new)>(s: seq<T>, p: T -> bool, at: seq<nat>) {
    && (forall i :: 0 <= i < |at| ==> at[i] < |s| && p(s[at[i]]))
    && (forall i, j :: 0 <= i < j < |at| ==> at[i] < at[j])
    && (forall k :: 0 <= k < |s| && p(s[k]) ==> k in at)
  }

  lemma SkipLast<T(!new)>(front: seq<T>, x: T, p: T -> bool, at: seq<nat>)
    requires Picks(front, p, at) && !p(x)
    ensures Picks(front + [x], p, at)
  {
    assert forall k :: 0 <= k < |front| ==> (front + [x])[k] == front[k];
  }

  lemma PickLast<T(!new)>(front: seq<T>, x: T, p: T -> bool, at: seq<nat>)
    requires Picks(front, p, at) && p(x)
    ensures Picks(front + [x], p, at + [|front|])
  {
    var s, now := front + [x], at + [|front|];
    assert now[|at|] == |front|;
    assert forall k :: 0 <= k < |front| ==> s[k] == front[k];
    forall k | 0 <= k < |s| && p(s[k])
      ensures k in now
    {
      if k < |front| {
        assert k in at;
      }
    }
  }
}

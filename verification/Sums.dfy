/** Adding up a quantity over all threads. */
module Sums {

  function Total<L>(ls: seq<L>, f: L -> int): (n: int) {
    if ls == [] then 0 else f(ls[0]) + Total(ls[1..], f)
  }

  /** Changing one thread changes the total by the difference. */
  lemma {:induction false} TotalUpdate<L>(ls: seq<L>, i: nat, l: L, f: L -> int)
    requires i < |ls|
    ensures Total(ls[i := l], f) == Total(ls, f) - f(ls[i]) + f(l)
  {
    if i == 0 {
      assert ls[i := l][1..] == ls[1..];
    } else {
      TotalUpdate(ls[1..], i - 1, l, f);
      assert ls[i := l][1..] == ls[1..][i - 1 := l];
    }
  }

  /** One thread's share is at most the total of non-negative shares. */
  lemma {:induction false} ShareBound<L>(ls: seq<L>, i: nat, f: L -> int)
    requires i < |ls|
    requires forall k :: 0 <= k < |ls| ==> f(ls[k]) >= 0
    ensures 0 <= f(ls[i]) <= Total(ls, f)
  {
    if i > 0 {
      ShareBound(ls[1..], i - 1, f);
    } else {
      TotalNonNegative(ls[1..], f);
    }
  }

  lemma {:induction false} TotalNonNegative<L>(ls: seq<L>, f: L -> int)
    requires forall k :: 0 <= k < |ls| ==> f(ls[k]) >= 0
    ensures Total(ls, f) >= 0
  {
    if ls != [] {
      TotalNonNegative(ls[1..], f);
    }
  }
}

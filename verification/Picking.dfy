/** Which positions of a list a loop keeps, stated without the loop. */
module Picking {
  /** The positions below n that satisfy the test, all of them, in ascending order. */
  ghost predicate Picks(p: seq<nat>, n: nat, test: nat -> bool) {
    && (forall i, j | 0 <= i < j < |p| :: p[i] < p[j])
    && (forall i: nat :: i in p <==> i < n && test(i))
  }

  lemma PicksGrow(p: seq<nat>, n: nat, test: nat -> bool)
    requires Picks(p, n, test)
    ensures Picks(if test(n) then p + [n] else p, n + 1, test)
  {
    forall i | 0 <= i < |p| ensures p[i] < n {
      assert p[i] in p;
    }
  }

  lemma PicksSame(p: seq<nat>, n: nat, test: nat -> bool, other: nat -> bool)
    requires Picks(p, n, test) && forall i: nat | i < n :: test(i) == other(i)
    ensures Picks(p, n, other)
  {
  }
}

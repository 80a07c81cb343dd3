/** What some moments begin and others end. */
module Latch {
  /** Moment k begins it, and no later moment before n ends it. */
  ghost predicate LatchedAt(begins: nat -> bool, ends: nat -> bool, n: nat, k: nat) {
    k < n && begins(k) && forall j: nat :: k < j < n ==> !ends(j)
  }

  /** It has begun before moment n and not ended since. */
  ghost predicate Latched(begins: nat -> bool, ends: nat -> bool, n: nat) {
    exists k: nat :: LatchedAt(begins, ends, n, k)
  }

  lemma LatchedNext(begins: nat -> bool, ends: nat -> bool, n: nat)
    ensures Latched(begins, ends, n + 1) <==> begins(n) || (Latched(begins, ends, n) && !ends(n))
  {
    if Latched(begins, ends, n + 1) {
      var k: nat :| LatchedAt(begins, ends, n + 1, k);
      assert k < n ==> LatchedAt(begins, ends, n, k);
    }
    if Latched(begins, ends, n) && !ends(n) {
      var k: nat :| LatchedAt(begins, ends, n, k);
      assert LatchedAt(begins, ends, n + 1, k);
    }
    if begins(n) {
      assert LatchedAt(begins, ends, n + 1, n);
    }
  }

  /** A condition that starts out false, is begun by `begins` and ended by `ends`. */
  lemma {:induction false} HoldsIffLatched(begins: nat -> bool, ends: nat -> bool, holds: nat -> bool, n: nat)
    requires !holds(0)
    requires forall k: nat :: k < n ==> (holds(k + 1) <==> begins(k) || (holds(k) && !ends(k)))
    ensures holds(n) <==> Latched(begins, ends, n)
  {
    if n > 0 {
      HoldsIffLatched(begins, ends, holds, n - 1);
      LatchedNext(begins, ends, n - 1);
    }
  }
}

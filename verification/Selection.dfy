/** Which elements of a sequence a loop picked, told by their positions. */
module Selection {

  /** `at` lists positions below `n` in strictly increasing order. */
  predicate Positions(at: seq<nat>, n: nat) {
    && (forall a :: 0 <= a < |at| ==> at[a] < n)
    && forall a, b :: 0 <= a < b < |at| ==> at[a] < at[b]
  }

  /** A loop at position `n` picks it or passes it by. */
  lemma PositionsMore(at: seq<nat>, n: nat)
    requires Positions(at, n)
    ensures Positions(at, n + 1) && Positions(at + [n], n + 1)
    ensures n !in at && forall k :: k in at + [n] <==> k in at || k == n
  {
    forall k
      ensures k in at + [n] <==> k in at || k == n
    {
      if k == n {
        assert (at + [n])[|at|] == n;
      }
    }
  }
}

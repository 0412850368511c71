/**
 The arithmetic of the database lease: readings of the clock are in nanoseconds,
 the stored expiry is in whole seconds.
 */
module LeaseTiming {

  const SECOND: int := 1_000_000_000
  const TTL: int := SECOND * 15
  const REFRESH_INTERVAL: int := TTL / 2

  /** The latest the first refresh may lag behind its tick without risking the lease: 6.5 seconds. */
  const REFRESH_MARGIN: int := 6_500_000_000

  /** The whole seconds of a reading, rounded towards the past. */
  function Unix(t: int): int {
    t / SECOND
  }

  /** The expiry written by an acquisition whose clock reading was `now`. */
  function ExpiryFrom(now: int): int {
    Unix(now + TTL)
  }

  /** The expiry written by a refresh that read `expireAt`. */
  function Extended(expireAt: int): int {
    Unix(expireAt * SECOND + TTL)
  }

  /** The lease of a holder that read `now` and has refreshed `refreshes` times since. */
  function Lease(now: int, refreshes: nat): int {
    Unix(now) + 15 * (1 + refreshes)
  }

  lemma ExpiryIsFirstLease(now: int)
    ensures ExpiryFrom(now) == Lease(now, 0)
  {
  }

  lemma RefreshAddsOneTerm(expireAt: int)
    ensures Extended(expireAt) == expireAt + 15
  {
  }

  lemma UnixMonotone(t: int, u: int)
    requires t <= u
    ensures Unix(t) <= Unix(u)
  {
  }

  /** A moment at which the refresh after `refreshes` others is at most `lag` behind its tick. */
  predicate WithinLag(now: int, refreshes: nat, lag: int, t: int) {
    t <= now + (refreshes + 1) * REFRESH_INTERVAL + lag
  }

  /** How far the refresh after `refreshes` others may lag: 7.5 seconds more each time. */
  function Margin(refreshes: nat): int {
    REFRESH_MARGIN + refreshes * REFRESH_INTERVAL
  }

  /** After `refreshes` refreshes no moment within the lag finds the lease expired. */
  ghost predicate LagKeepsLease(refreshes: nat, lag: int) {
    forall now: int, t: int :: WithinLag(now, refreshes, lag, t) ==> Unix(t) < Lease(now, refreshes)
  }

  lemma LagWithinMarginKeepsLease(now: int, refreshes: nat, lag: int, t: int)
    requires lag <= Margin(refreshes) && WithinLag(now, refreshes, lag, t)
    ensures Unix(t) < Lease(now, refreshes)
  {
    var bound := now + (15 * (1 + refreshes) - 1) * SECOND;
    assert t <= bound;
    UnixMonotone(t, bound);
    assert Unix(bound) == Unix(now) + 15 * (1 + refreshes) - 1;
  }

  /** The lease survives a lag exactly up to 6.5 seconds and 7.5 more for each refresh before: the slack grows. */
  lemma LagExactly(refreshes: nat, lag: int)
    ensures LagKeepsLease(refreshes, lag) <==> lag <= Margin(refreshes)
  {
    if lag <= Margin(refreshes) {
      forall now: int, t: int | WithinLag(now, refreshes, lag, t)
        ensures Unix(t) < Lease(now, refreshes)
      {
        LagWithinMarginKeepsLease(now, refreshes, lag, t);
      }
    } else {
      var now := SECOND - 1;
      var t := now + (refreshes + 1) * REFRESH_INTERVAL + lag;
      assert WithinLag(now, refreshes, lag, t);
      LateFindsExpired(refreshes, lag);
    }
  }

  /** One nanosecond more, from a reading just before a full second, and the lease is over. */
  lemma LateFindsExpired(refreshes: nat, lag: int)
    requires lag > Margin(refreshes)
    ensures Lease(SECOND - 1, refreshes) <= Unix(SECOND - 1 + (refreshes + 1) * REFRESH_INTERVAL + lag)
  {
    UnixMonotone(15 * (1 + refreshes) * SECOND, SECOND - 1 + (refreshes + 1) * REFRESH_INTERVAL + lag);
    assert Unix(15 * (1 + refreshes) * SECOND) == 15 * (1 + refreshes);
  }

  /** A moment at which a holder with `refreshes` refreshes, one per tick at the earliest, is still alive. */
  predicate Paced(now: int, refreshes: nat, t: int) {
    now + refreshes * REFRESH_INTERVAL <= t
  }

  /** Waiting `wait` after the death of any holder with `refreshes` refreshes is enough to find the row expired. */
  ghost predicate WaitSuffices(refreshes: nat, wait: int) {
    forall now: int, death: int, t: int ::
      Paced(now, refreshes, death) && death + wait <= t ==> Lease(now, refreshes) <= Unix(t)
  }

  /**
   A holder that dies after `refreshes` refreshes blocks the others for 15 + 7.5 * refreshes
   seconds and no longer; the bound is reached.
   */
  lemma ReclaimDelay(refreshes: nat, wait: int)
    ensures WaitSuffices(refreshes, wait) <==> TTL + refreshes * REFRESH_INTERVAL <= wait
  {
    var bound := TTL + refreshes * REFRESH_INTERVAL;
    if bound <= wait {
      forall now: int, death: int, t: int | Paced(now, refreshes, death) && death + wait <= t
        ensures Lease(now, refreshes) <= Unix(t)
      {
        UnixMonotone(now + 15 * (1 + refreshes) * SECOND, t);
        assert Unix(now + 15 * (1 + refreshes) * SECOND) == Lease(now, refreshes);
      }
    } else {
      var death := refreshes * REFRESH_INTERVAL;
      var t := death + wait;
      assert Paced(0, refreshes, death);
      UnixMonotone(t, 15 * (1 + refreshes) * SECOND - 1);
      assert Unix(t) < Lease(0, refreshes);
    }
  }
}

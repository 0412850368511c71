/** How long Lock waits between two attempts. */
module Backoff {
  import opened LeaseTiming

  const MIN_WAIT: int := 1 * SECOND
  const MAX_WAIT: int := 300 * SECOND
  const POLL_WAIT: int := 1 * SECOND
  const JITTER: int := MIN_WAIT / 2

  const TWO_TO_THE_63: int := 0x8000_0000_0000_0000

  /** A duration is a 64-bit integer. */
  function Wrap64(x: int): int {
    (x + TWO_TO_THE_63) % (2 * TWO_TO_THE_63) - TWO_TO_THE_63
  }

  /** What the random source may return. */
  predicate IsJitter(jitter: int) {
    0 <= jitter < JITTER
  }

  function NextWait(last: int, failed: bool, jitter: int): int {
    var base := if last <= 0 then MIN_WAIT else last;
    var grown := if !failed then POLL_WAIT
                 else if Wrap64(base * 2) > MAX_WAIT then MAX_WAIT
                 else Wrap64(base * 2);
    Wrap64(grown + Wrap64(jitter - JITTER / 2))
  }

  method NextWaitInterval(last: int, failed: bool, jitter: int) returns (next: int)
    requires IsJitter(jitter)
    ensures next == NextWait(last, failed, jitter)
  {
    next := last;
    if next <= 0 {
      next := MIN_WAIT;
    }
    if failed {
      next := Wrap64(next * 2);
      if next > MAX_WAIT {
        next := MAX_WAIT;
      }
    } else {
      next := POLL_WAIT;
    }
    next := Wrap64(next + Wrap64(jitter - JITTER / 2));
  }

  /** The wait after one failed attempt for each element of `jitters`. */
  function WaitAfter(jitters: seq<int>): int {
    if jitters == [] then 0
    else NextWait(WaitAfter(jitters[..|jitters| - 1]), true, jitters[|jitters| - 1])
  }

  predicate AllJitter(jitters: seq<int>) {
    forall i :: 0 <= i < |jitters| ==> IsJitter(jitters[i])
  }

  function Pow2(n: nat): (p: int)
    ensures 1 <= p
  {
    if n == 0 then 1 else 2 * Pow2(n - 1)
  }

  function Min(x: int, y: int): int {
    if x < y then x else y
  }

  /** 1.5 * 2^(failures - 1) + 0.25 seconds, at most 299.75. */
  function LeastWait(failures: nat): int
    requires failures > 0
  {
    Min(1_500_000_000 * Pow2(failures - 1) + 250_000_000, 299_750_000_000)
  }

  /** 2.5 * 2^(failures - 1) - 0.25 seconds, at most 300.25. */
  function WaitLimit(failures: nat): int
    requires failures > 0
  {
    Min(2_500_000_000 * Pow2(failures - 1) - 250_000_000, 300_250_000_000)
  }

  lemma WrapIsExact(x: int)
    requires -TWO_TO_THE_63 <= x < TWO_TO_THE_63
    ensures Wrap64(x) == x
  {
  }

  /** After a failure the wait doubles up to five minutes, give or take a quarter of a second, and never wraps. */
  lemma FailureDoubles(last: int, jitter: int)
    requires 0 <= last <= 2 * MAX_WAIT && IsJitter(jitter)
    ensures NextWait(last, true, jitter) ==
            Min(2 * (if last == 0 then 1_000_000_000 else last), 300_000_000_000) + jitter - 250_000_000
  {
    var base := if last == 0 then MIN_WAIT else last;
    WrapIsExact(2 * base);
    WrapIsExact(jitter - JITTER / 2);
    WrapIsExact(Min(2 * base, MAX_WAIT) + jitter - JITTER / 2);
  }

  /** Without an error the wait is one second, give or take a quarter, whatever it was before. */
  lemma PollForgets(last: int, jitter: int)
    requires IsJitter(jitter)
    ensures NextWait(last, false, jitter) == 1_000_000_000 + jitter - 250_000_000
  {
    WrapIsExact(jitter - JITTER / 2);
    WrapIsExact(POLL_WAIT + jitter - JITTER / 2);
  }

  /** After any number of failures, whatever the random source returned. */
  lemma {:induction false} WaitBounds(jitters: seq<int>)
    requires jitters != [] && AllJitter(jitters)
    ensures LeastWait(|jitters|) <= WaitAfter(jitters) < WaitLimit(|jitters|)
  {
    var n := |jitters|;
    var earlier := jitters[..n - 1];
    if n == 1 {
      FailureDoubles(0, jitters[0]);
    } else {
      WaitBounds(earlier);
      assert Pow2(n - 1) == 2 * Pow2(n - 2);
      FailureDoubles(WaitAfter(earlier), jitters[n - 1]);
    }
  }

  lemma {:induction false} Pow2Grows(m: nat, n: nat)
    requires m <= n
    ensures Pow2(m) <= Pow2(n)
  {
    if m < n {
      Pow2Grows(m, n - 1);
    }
  }

  /** From the ninth failure on the wait stays within a quarter of a second of five minutes. */
  lemma WaitSettles(jitters: seq<int>)
    requires |jitters| >= 9 && AllJitter(jitters)
    ensures 299_750_000_000 <= WaitAfter(jitters) < 300_250_000_000
  {
    WaitBounds(jitters);
    Pow2Grows(8, |jitters| - 1);
    assert Pow2(8) == 256;
  }
}

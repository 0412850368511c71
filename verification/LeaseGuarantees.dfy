/**
 What the lease protocol guarantees under the refresh schedule the code runs, where the
 guarantee ends, and what holds of the stored expiry whatever the clocks do.
 */
module LeaseGuarantees {
  import opened Wrappers
  import opened LeaseTiming
  import opened LeaseProtocol
  import Runs

  // ----- Prolonging a run -----

  lemma Go(rule: (State, Step) -> bool, states: seq<State>, steps: seq<Step>, step: Step)
      returns (states': seq<State>, steps': seq<Step>)
    requires RunUnder(rule, states, steps) && Enabled(states[|steps|], step) && rule(states[|steps|], step)
    ensures RunUnder(rule, states', steps') && |steps'| == |steps| + 1
    ensures states'[|steps'|] == Apply(states[|steps|], step)
  {
    states', steps' := states + [Apply(states[|steps|], step)], steps + [step];
  }

  /** Instance 0 holds the lock since `now`, with `refreshes` refreshes, beside one other instance. */
  predicate HeldBeside(s: State, now: int, refreshes: nat, other: Phase, clock: int) {
    && s.clock == clock && s.row == Some(Lease(now, refreshes))
    && s.instances == [Holding(now, refreshes, false, Waiting), other]
  }

  /** What stays so while instance 0 goes on refreshing, its refresh r + 1 at the latest at `clockAt(r + 1)`. */
  predicate Refreshing(s: State, now: int, other: Phase, clockAt: nat -> int) {
    && |s.instances| == 2 && s.instances[0].Holding? && s.instances[0].now == now && s.instances[1] == other
    && s.clock <= clockAt(s.instances[0].refreshes + 1)
  }

  predicate IsRefreshing(step: Step) {
    step.Advance? || step.SelectOwn? || step.UpdateOwn?
  }

  /** A holder may refresh as often as it likes, the clock showing `clockAt(r)` at refresh r. */
  lemma {:induction false} Refresh(
      rule: (State, Step) -> bool, states: seq<State>, steps: seq<Step>, now: int, other: Phase, clockAt: nat -> int, k: nat)
      returns (states': seq<State>, steps': seq<Step>)
    requires RunUnder(rule, states, steps) && HeldBeside(states[|steps|], now, 0, other, clockAt(0))
    requires forall r: nat :: clockAt(r) <= clockAt(r + 1)
    requires forall s, step :: Refreshing(s, now, other, clockAt) && IsRefreshing(step) ==> rule(s, step)
    ensures RunUnder(rule, states', steps') && HeldBeside(states'[|steps'|], now, k, other, clockAt(k))
  {
    states', steps' := states, steps;
    if k > 0 {
      states', steps' := Refresh(rule, states, steps, now, other, clockAt, k - 1);
      assert clockAt(k - 1) <= clockAt(k - 1 + 1);
      states', steps' := Go(rule, states', steps', Advance(clockAt(k)));
      states', steps' := Go(rule, states', steps', SelectOwn(0));
      states', steps' := Go(rule, states', steps', UpdateOwn(0, Committed));
      RefreshAddsOneTerm(Lease(now, k - 1));
    }
  }

  // ----- How late a refresh may be -----

  /** Clocks are not ahead, takeovers find expired rows, and refresh r + 1 lags its tick by `lag(r)` at most. */
  function Scheduled(lag: nat -> nat): (State, Step) -> bool {
    (s: State, step: Step) => ClockNotAhead(s, step) && TakesExpired(s, step) && OnSchedule(lag, s)
  }

  lemma SafeWithinMargin(lag: nat -> nat)
    requires forall r: nat :: lag(r) <= Margin(r)
    ensures RuleIsSafe(Scheduled(lag))
  {
    forall s: State, step: Step | Enabled(s, step) && Scheduled(lag)(s, step)
      ensures LeasesKept(s)
    {
      forall i | 0 <= i < |s.instances| && s.instances[i].Holding?
        ensures Unix(s.clock) < Lease(s.instances[i].now, s.instances[i].refreshes)
      {
        var r := s.instances[i].refreshes;
        LagWithinMarginKeepsLease(s.instances[i].now, r, lag(r), s.clock);
      }
    }
    SafeRule(Scheduled(lag));
  }

  /** A step that leaves clocks and takeovers alone is on schedule while instance 0, if it holds the lock, is. */
  lemma OnTime(lag: nat -> nat, s: State, step: Step)
    requires |s.instances| == 2 && !s.instances[1].Holding? && !step.UpdateExpired?
    requires s.instances[0].Holding? ==>
      WithinLag(s.instances[0].now, s.instances[0].refreshes, lag(s.instances[0].refreshes), s.clock)
    requires ClockNotAhead(s, step)
    ensures Scheduled(lag)(s, step)
  {
  }

  /** A run in which instance 0 locks just before a full second and then refreshes `r` times, each at its tick. */
  lemma PunctualRun(lag: nat -> nat, r: nat) returns (states: seq<State>, steps: seq<Step>)
    ensures RunUnder(Scheduled(lag), states, steps)
    ensures HeldBeside(states[|steps|], SECOND - 1, r, Idle, SECOND - 1 + r * REFRESH_INTERVAL)
  {
    var rule, now := Scheduled(lag), SECOND - 1;
    var clockAt := (k: nat) => now + k * REFRESH_INTERVAL;
    states, steps := [State(now, None, [Idle, Idle], [])], [];
    OnTime(lag, states[0], ReadClock(0, now));
    states, steps := Go(rule, states, steps, ReadClock(0, now));
    OnTime(lag, states[|steps|], Insert(0, Committed));
    states, steps := Go(rule, states, steps, Insert(0, Committed));
    ExpiryIsFirstLease(now);
    forall s, step | Refreshing(s, now, Idle, clockAt) && IsRefreshing(step)
      ensures rule(s, step)
    {
      OnTime(lag, s, step);
    }
    states, steps := Refresh(rule, states, steps, now, Idle, clockAt, r);
  }

  /** From there instance 1 overtakes it when refresh r + 1 is late. */
  lemma Overtake(lag: nat -> nat, r: nat, states: seq<State>, steps: seq<Step>)
      returns (states': seq<State>, steps': seq<Step>)
    requires lag(r) > Margin(r) && RunUnder(Scheduled(lag), states, steps)
    requires HeldBeside(states[|steps|], SECOND - 1, r, Idle, SECOND - 1 + r * REFRESH_INTERVAL)
    ensures RunUnder(Scheduled(lag), states', steps') && |states'[|steps'|].instances| == 2
    ensures states'[|steps'|].instances[0].Holding? && states'[|steps'|].instances[1].Holding?
  {
    var rule, late := Scheduled(lag), SECOND - 1 + (r + 1) * REFRESH_INTERVAL + lag(r);
    LateFindsExpired(r, lag(r));
    assert WithinLag(SECOND - 1, r, lag(r), late);
    OnTime(lag, states[|steps|], Advance(late));
    states', steps' := Go(rule, states, steps, Advance(late));
    OnTime(lag, states'[|steps'|], ReadClock(1, late));
    states', steps' := Go(rule, states', steps', ReadClock(1, late));
    OnTime(lag, states'[|steps'|], InsertFails(1));
    states', steps' := Go(rule, states', steps', InsertFails(1));
    OnTime(lag, states'[|steps'|], SelectExpired(1));
    states', steps' := Go(rule, states', steps', SelectExpired(1));
    assert OnSchedule(lag, states'[|steps'|]) && TakesExpired(states'[|steps'|], UpdateExpired(1, Committed));
    states', steps' := Go(rule, states', steps', UpdateExpired(1, Committed));
  }

  /** When refresh r + 1 may lag by more, a holder that is punctual until then, and late with that one, is overtaken. */
  lemma LateRefreshIsUnsafe(lag: nat -> nat, r: nat)
    requires lag(r) > Margin(r)
    ensures !RuleIsSafe(Scheduled(lag))
  {
    var states, steps := PunctualRun(lag, r);
    states, steps := Overtake(lag, r, states, steps);
    assert !AtMostOneHolder(states[|steps|]);
  }

  /**
   The refresh schedule protects the lock exactly when refresh r + 1 commits within 6.5 + 7.5 * r seconds of
   its tick, for each r: the first refresh is the critical one, and each makes the next less so.
   */
  lemma ScheduleMargin(lag: nat -> nat)
    ensures RuleIsSafe(Scheduled(lag)) <==> forall r: nat :: lag(r) <= Margin(r)
  {
    if forall r: nat :: lag(r) <= Margin(r) {
      SafeWithinMargin(lag);
    } else {
      var r: nat :| lag(r) > Margin(r);
      LateRefreshIsUnsafe(lag, r);
    }
  }

  // ----- What the UPDATE of a takeover must check -----

  /** Clocks are not ahead, leases are kept, and the UPDATE of a takeover passes `guard`. */
  function Guarded(guard: (int, int) -> bool): (State, Step) -> bool {
    (s: State, step: Step) => ClockNotAhead(s, step) && LeasesKept(s) && TakesGuarded(guard, s, step)
  }

  /** A step that reads no clock ahead and takes nothing over obeys the rule while instance 0, if it holds the lock, is inside its lease. */
  lemma InsideLease(guard: (int, int) -> bool, s: State, step: Step)
    requires |s.instances| == 2 && !s.instances[1].Holding? && !step.UpdateExpired?
    requires s.instances[0].Holding? ==> Unix(s.clock) < Lease(s.instances[0].now, s.instances[0].refreshes)
    requires ClockNotAhead(s, step)
    ensures Guarded(guard)(s, step)
  {
  }

  /** Two instances have selected the same expired row, 0 with an early reading and 1 with the present one. */
  lemma BothSelect(guard: (int, int) -> bool, expireAt: int, now: int)
      returns (states: seq<State>, steps: seq<Step>)
    requires expireAt <= Unix(now) && expireAt * SECOND <= now
    ensures RunUnder(Guarded(guard), states, steps)
    ensures states[|steps|] == State(now, Some(expireAt), [Selecting(expireAt * SECOND, expireAt), Selecting(now, expireAt)], [])
  {
    var rule := Guarded(guard);
    var early := expireAt * SECOND;
    states, steps := [State(now, Some(expireAt), [Idle, Idle], [])], [];
    InsideLease(guard, states[0], ReadClock(0, early));
    states, steps := Go(rule, states, steps, ReadClock(0, early));
    InsideLease(guard, states[|steps|], ReadClock(1, now));
    states, steps := Go(rule, states, steps, ReadClock(1, now));
    InsideLease(guard, states[|steps|], InsertFails(0));
    states, steps := Go(rule, states, steps, InsertFails(0));
    InsideLease(guard, states[|steps|], InsertFails(1));
    states, steps := Go(rule, states, steps, InsertFails(1));
    InsideLease(guard, states[|steps|], SelectExpired(0));
    states, steps := Go(rule, states, steps, SelectExpired(0));
    InsideLease(guard, states[|steps|], SelectExpired(1));
    states, steps := Go(rule, states, steps, SelectExpired(1));
  }

  /** Two instances select an expired row; one takes over with an old reading and refreshes up to `expireAt`; the other writes. */
  lemma UnexpiredTakeoverIsUnsafe(guard: (int, int) -> bool, expireAt: int, now: int)
    requires forall e: int, t: int :: e <= Unix(t) ==> guard(e, t)
    requires guard(expireAt, now) && Unix(now) < expireAt
    ensures !RuleIsSafe(Guarded(guard))
  {
    var rule := Guarded(guard);
    var k := (expireAt - Unix(now) - 1) / 15;
    var e := expireAt - 15 * (k + 1);
    var early := e * SECOND;
    assert Unix(early) == e <= Unix(now) < e + 15;
    var states, steps := BothSelect(guard, e, now);
    assert guard(e, early) && LeasesKept(states[|steps|]);
    states, steps := Go(rule, states, steps, UpdateExpired(0, Committed));
    ExpiryIsFirstLease(early);
    var other := Selecting(now, e);
    forall s, step | Refreshing(s, early, other, _ => now) && IsRefreshing(step)
      ensures rule(s, step)
    {
      UnixMonotone(s.clock, now);
      InsideLease(guard, s, step);
    }
    states, steps := Refresh(rule, states, steps, early, other, _ => now, k);
    assert Lease(early, k) == expireAt;
    assert LeasesKept(states[|steps|]) && TakesGuarded(guard, states[|steps|], UpdateExpired(1, Committed));
    states, steps := Go(rule, states, steps, UpdateExpired(1, Committed));
    var last := states[|steps|];
    assert last.instances[0].Holding? && last.instances[1].Holding?;
    assert !AtMostOneHolder(states[|steps|]);
  }

  /**
   For a takeover whose UPDATE looks at the row again and at the reading it began with: with clocks not ahead and
   leases kept, all runs are exclusive exactly when it turns every unexpired row down. The UPDATE of the
   code turns none down.
   */
  lemma TakeoverGuardExactly(guard: (int, int) -> bool)
    requires forall e: int, t: int :: e <= Unix(t) ==> guard(e, t)
    ensures RuleIsSafe(Guarded(guard)) <==> forall e: int, t: int :: guard(e, t) ==> e <= Unix(t)
  {
    if forall e: int, t: int :: guard(e, t) ==> e <= Unix(t) {
      SafeRule(Guarded(guard));
    } else {
      var e: int, t: int :| guard(e, t) && Unix(t) < e;
      UnexpiredTakeoverIsUnsafe(guard, e, t);
    }
  }

  // ----- Why serialised transactions are needed -----

  /** Two takeovers that both read the expired row before either writes it. */
  function InterleavedTakeovers(): seq<Step> {
    [ReadClock(0, 0), ReadClock(1, 0), InsertFails(0), InsertFails(1),
     SelectExpired(0), SelectExpired(1), UpdateExpired(0, Committed), UpdateExpired(1, Committed)]
  }

  function CollidingStates(): (states: seq<State>)
    ensures |states| == 9
  {
    var held := Holding(0, 0, false, Waiting);
    var s0 := State(0, Some(0), [Idle, Idle], []);
    var s2 := With(With(s0, 0, Inserting(0)), 1, Inserting(0));
    var s4 := With(With(s2, 0, Releasing(0)), 1, Releasing(0));
    var s6 := With(With(s4, 0, Selecting(0, 0)), 1, Selecting(0, 0));
    var s7 := With(s6.(row := Some(15), log := [Acquired(0, 0, 15)]), 0, held);
    var s8 := With(s7.(log := [Acquired(0, 0, 15), Acquired(1, 0, 15)]), 1, held);
    [s0, With(s0, 0, Inserting(0)), s2, With(s2, 0, Releasing(0)), s4, With(s4, 0, Selecting(0, 0)), s6, s7, s8]
  }

  lemma CollidingRun()
    ensures forall k :: 0 <= k < 4 ==> Next(CollidingStates()[k], InterleavedTakeovers()[k], CollidingStates()[k + 1])
  {
    var states, steps := CollidingStates(), InterleavedTakeovers();
    assert Next(states[0], steps[0], states[1]) && Next(states[1], steps[1], states[2]);
    assert Next(states[2], steps[2], states[3]) && Next(states[3], steps[3], states[4]);
  }

  lemma CollidingRunEnd()
    ensures forall k :: 4 <= k < 8 ==> Next(CollidingStates()[k], InterleavedTakeovers()[k], CollidingStates()[k + 1])
  {
    var states, steps := CollidingStates(), InterleavedTakeovers();
    assert Next(states[4], steps[4], states[5]) && Next(states[5], steps[5], states[6]);
    assert Next(states[6], steps[6], states[7]) && Next(states[7], steps[7], states[8]);
  }

  /**
   A plain SELECT followed by an UPDATE is not enough by itself: with every clock exact and every
   lease kept, two takeovers of the same expired row succeed together.
   */
  lemma UnserialisedTakeoversCollide()
    ensures Runs.IsRun(Initial, Next, CollidingStates(), InterleavedTakeovers())
    ensures forall k :: 0 <= k < 8 ==>
      ClockNotAhead(CollidingStates()[k], InterleavedTakeovers()[k]) && LeasesKept(CollidingStates()[k])
    ensures !AtMostOneHolder(CollidingStates()[8])
  {
    CollidingRun();
    CollidingRunEnd();
    assert CollidingStates()[8].instances[0].Holding? && CollidingStates()[8].instances[1].Holding?;
  }

  // ----- The stored expiry, with no assumption on clocks -----

  /** How a write that took effect relates to the one before it. */
  predicate Follows(before: Write, after: Write) {
    match after
    case Deleted(_) => true
    case Acquired(_, now, expireAt) =>
      expireAt == Lease(now, 0) && (before.Deleted? || before.expireAt <= Unix(now))
    case Refreshed(_, expireAt) =>
      !before.Deleted? && expireAt == before.expireAt + 15
  }

  predicate Chained(log: seq<Write>) {
    forall p :: 0 < p < |log| ==> Follows(log[p - 1], log[p])
  }

  predicate RowIsLastWrite(s: State) {
    s.log != [] ==>
      var last := s.log[|s.log| - 1];
      s.row == if last.Deleted? then None else Some(last.expireAt)
  }

  /** Whatever clocks and leases do, UPDATEs find the rows they were meant for. */
  predicate UnbrokenNext(s: State, step: Step, s': State) {
    Next(s, step, s') && TakesExpired(s, step) && RefreshesSeen(s, step)
  }

  predicate ExpiryAccounted(s: State) {
    Chained(s.log) && RowIsLastWrite(s) && (s.log != [] && s.log[0].Acquired? ==>
      s.log[0].expireAt == Lease(s.log[0].now, 0))
  }

  lemma ExpiryAccountedPreserved(s: State, step: Step, s': State)
    requires ExpiryAccounted(s) && UnbrokenNext(s, step, s')
    ensures ExpiryAccounted(s')
  {
    if (step.Insert? || step.UpdateExpired?) && !step.outcome.RolledBack? {
      ExpiryIsFirstLease(s.instances[step.i].now);
    } else if step.UpdateOwn? {
      RefreshAddsOneTerm(s.instances[step.i].refresher.seen);
    }
  }

  lemma ExpiryAccountedAlways(states: seq<State>, steps: seq<Step>, n: nat)
    requires Runs.IsRun(Initial, UnbrokenNext, states, steps) && n < |states|
    ensures ExpiryAccounted(states[n])
  {
    forall s: State, step: Step, s': State | ExpiryAccounted(s) && UnbrokenNext(s, step, s')
      ensures ExpiryAccounted(s')
    {
      ExpiryAccountedPreserved(s, step, s');
    }
    Runs.Invariance(ExpiryAccounted, UnbrokenNext, states, steps, n);
  }

  /** No DELETE took effect at positions `from..to` of the log. */
  predicate NoDelete(log: seq<Write>, from: nat, to: nat) {
    forall p :: from <= p <= to && p < |log| ==> !log[p].Deleted?
  }

  /** Between two DELETEs each write raises the expiry by 15 seconds at least. */
  lemma {:induction false} ExpiryClimbs(log: seq<Write>, from: nat, to: nat)
    requires Chained(log) && from <= to < |log| && NoDelete(log, from, to)
    ensures log[from].expireAt + 15 * (to - from) <= log[to].expireAt
  {
    if from < to {
      ExpiryClimbs(log, from, to - 1);
      assert Follows(log[to - 1], log[to]);
    }
  }

  /**
   Two acquisitions with `to - from - 1` writes and no DELETE between them read clocks at least
   15 seconds apart for each write, whatever those clocks are and however late anybody is.
   */
  lemma AcquisitionsAreSpaced(states: seq<State>, steps: seq<Step>, n: nat, from: nat, to: nat)
    requires Runs.IsRun(Initial, UnbrokenNext, states, steps) && n < |states|
    requires from < to < |states[n].log| && NoDelete(states[n].log, from, to)
    requires states[n].log[from].Acquired? && states[n].log[to].Acquired?
    ensures Unix(states[n].log[from].now) + 15 * (to - from) <= Unix(states[n].log[to].now)
  {
    ExpiryAccountedAlways(states, steps, n);
    var log := states[n].log;
    assert log[from].expireAt == Lease(log[from].now, 0) by {
      if from > 0 {
        assert Follows(log[from - 1], log[from]);
      }
    }
    ExpiryClimbs(log, from, to - 1);
    assert Follows(log[to - 1], log[to]);
  }

  // ----- Taking over from a holder that died -----

  /** What an instance does to take over a row whose expiry it finds passed. */
  function Takeover(j: nat, reading: int): seq<Step> {
    [ReadClock(j, reading), InsertFails(j), SelectExpired(j), UpdateExpired(j, Committed)]
  }

  /** An undisturbed attempt to take over the row, from a state in which somebody still holds it or has died holding it. */
  lemma TakeoverSucceedsOnceExpired(s: State, j: nat, reading: int)
    requires j < |s.instances| && s.instances[j].Idle? && s.row.Some?
    ensures s.row.value <= Unix(reading) ==>
      Exec(s, Takeover(j, reading)) == Some(With(s, j, Holding(reading, 0, false, Waiting)).(
        row := Some(Lease(reading, 0)), log := s.log + [Acquired(j, reading, Lease(reading, 0))]))
    ensures Exec(s, Takeover(j, reading)).Some? <==> s.row.value <= Unix(reading)
  {
    var s2 := With(s, j, Releasing(reading));
    assert Takeover(j, reading) == [ReadClock(j, reading)] + ([InsertFails(j)] + [SelectExpired(j), UpdateExpired(j, Committed)]);
    ExecMore(s, ReadClock(j, reading), [InsertFails(j)] + [SelectExpired(j), UpdateExpired(j, Committed)]);
    ExecMore(With(s, j, Inserting(reading)), InsertFails(j), [SelectExpired(j), UpdateExpired(j, Committed)]);
    assert Apply(With(s, j, Inserting(reading)), InsertFails(j)) == s2;
    ExecTwo(s2, SelectExpired(j), UpdateExpired(j, Committed));
    if s.row.value <= Unix(reading) {
      assert Apply(s2, SelectExpired(j)) == With(s, j, Selecting(reading, s.row.value));
      ExpiryIsFirstLease(reading);
      assert s.instances[j := Selecting(reading, s.row.value)][j := Holding(reading, 0, false, Waiting)] ==
             s.instances[j := Holding(reading, 0, false, Waiting)];
    }
  }

  /**
   When a holder dies after `refreshes` refreshes, taken one per tick, another instance that reads
   the clock 15 + 7.5 * refreshes seconds later takes the lock over, alone.
   */
  lemma DeadHolderIsReplaced(s: State, i: nat, j: nat, reading: int)
    requires Exclusive(s) && i < |s.instances| && j < |s.instances| && i != j
    requires s.instances[i].Holding? && s.instances[j].Idle?
    requires Paced(s.instances[i].now, s.instances[i].refreshes, s.clock)
    requires s.clock + TTL + s.instances[i].refreshes * REFRESH_INTERVAL <= reading
    ensures Exec(Apply(s, Crash(i)), Takeover(j, reading)).Some?
    ensures
      var s' := Exec(Apply(s, Crash(i)), Takeover(j, reading)).value;
      forall m :: 0 <= m < |s'.instances| ==> (s'.instances[m].Holding? <==> m == j)
  {
    var k := s.instances[i].refreshes;
    ReclaimDelay(k, TTL + k * REFRESH_INTERVAL);
    assert Lease(s.instances[i].now, k) <= Unix(reading);
    TakeoverSucceedsOnceExpired(Apply(s, Crash(i)), j, reading);
  }
}

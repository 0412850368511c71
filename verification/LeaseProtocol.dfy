/**
 The lease lock as a protocol: any number of instances contend for one row of the
 lock table. Every statement sent to the database is a step of its own, so the
 SELECT and the UPDATE of a transaction may be separated by steps of others.
 */
module LeaseProtocol {
  import opened Wrappers
  import opened LeaseTiming
  import Runs

  /** The background refresher of a holder: between ticks, between its SELECT and UPDATE, or gone. */
  datatype Refresher = Waiting | Selected(seen: int) | Gone

  datatype Phase =
    | Idle
    | Inserting(now: int)
    | Releasing(now: int)
    | Selecting(now: int, seen: int)
    | Holding(now: int, refreshes: nat, stopping: bool, refresher: Refresher)

  /** What took effect on the row, in order. */
  datatype Write =
    | Acquired(instance: nat, now: int, expireAt: int)
    | Refreshed(instance: nat, expireAt: int)
    | Deleted(instance: nat)

  datatype State = State(clock: int, row: Option<int>, instances: seq<Phase>, log: seq<Write>)

  /** A statement that changes the row may take effect, not take effect, or take effect and report an error. */
  datatype Outcome = Committed | RolledBack | ReplyLost

  datatype Step =
    | Advance(to: int)
    | ReadClock(i: nat, reading: int)
    | Insert(i: nat, outcome: Outcome)
    | InsertFails(i: nat)
    | GiveUp(i: nat)
    | SelectExpired(i: nat)
    | UpdateExpired(i: nat, outcome: Outcome)
    | SelectOwn(i: nat)
    | UpdateOwn(i: nat, outcome: Outcome)
    | RefresherLeaves(i: nat)
    | CloseStop(i: nat)
    | Delete(i: nat, outcome: Outcome)
    | Crash(i: nat)

  predicate Initial(s: State) {
    && s.log == []
    && forall i :: 0 <= i < |s.instances| ==> s.instances[i].Idle?
  }

  predicate Enabled(s: State, step: Step) {
    if step.Advance? then
      s.clock <= step.to
    else if |s.instances| <= step.i then
      false
    else
      var p := s.instances[step.i];
      match step
      case ReadClock(_, _) => p.Idle?
      case Insert(_, _) => p.Inserting? && s.row.None?
      case InsertFails(_) => p.Inserting?
      case GiveUp(_) => p.Inserting? || p.Releasing? || p.Selecting?
      case SelectExpired(_) => p.Releasing? && s.row.Some? && s.row.value <= Unix(p.now)
      case UpdateExpired(_, _) => p.Selecting?
      case SelectOwn(_) => p.Holding? && p.refresher.Waiting? && s.row.Some?
      case UpdateOwn(_, _) => p.Holding? && p.refresher.Selected?
      case RefresherLeaves(_) => p.Holding? && !p.refresher.Gone?
      case CloseStop(_) => p.Holding? && !p.stopping
      case Delete(_, _) => p.Holding? && p.stopping && p.refresher.Gone?
      case Crash(_) => true
  }

  function With(s: State, i: nat, p: Phase): State
    requires i < |s.instances|
  {
    s.(instances := s.instances[i := p])
  }

  lemma WithTwice(s: State, i: nat, p: Phase, q: Phase)
    requires i < |s.instances|
    ensures With(With(s, i, p), i, q) == With(s, i, q)
  {
    assert s.instances[i := p][i := q] == s.instances[i := q];
  }

  /** The table after a statement that would leave `row` and be logged as `write`. */
  function Written(s: State, outcome: Outcome, row: Option<int>, write: Write): State {
    if outcome.RolledBack? then s else s.(row := row, log := s.log + [write])
  }

  /** Statements match on the key alone: UPDATE leaves an absent row absent, and nobody checks whose row it is. */
  function Apply(s: State, step: Step): State
    requires Enabled(s, step)
  {
    match step
    case Advance(to) => s.(clock := to)
    case ReadClock(i, reading) => With(s, i, Inserting(reading))
    case Insert(i, outcome) =>
      var now := s.instances[i].now;
      var s1 := Written(s, outcome, Some(ExpiryFrom(now)), Acquired(i, now, ExpiryFrom(now)));
      With(s1, i, if outcome.Committed? then Holding(now, 0, false, Waiting) else Idle)
    case InsertFails(i) => With(s, i, Releasing(s.instances[i].now))
    case GiveUp(i) => With(s, i, Idle)
    case SelectExpired(i) => With(s, i, Selecting(s.instances[i].now, s.row.value))
    case UpdateExpired(i, outcome) =>
      var now := s.instances[i].now;
      var s1 := if s.row.None? then s
                else Written(s, outcome, Some(ExpiryFrom(now)), Acquired(i, now, ExpiryFrom(now)));
      With(s1, i, if outcome.Committed? then Holding(now, 0, false, Waiting) else Idle)
    case SelectOwn(i) => With(s, i, s.instances[i].(refresher := Selected(s.row.value)))
    case UpdateOwn(i, outcome) =>
      var p := s.instances[i];
      var expireAt := Extended(p.refresher.seen);
      var s1 := if s.row.None? then s else Written(s, outcome, Some(expireAt), Refreshed(i, expireAt));
      With(s1, i, p.(refreshes := if outcome.RolledBack? then p.refreshes else p.refreshes + 1,
                     refresher := if outcome.Committed? then Waiting else Gone))
    case RefresherLeaves(i) => With(s, i, s.instances[i].(refresher := Gone))
    case CloseStop(i) => With(s, i, s.instances[i].(stopping := true))
    case Delete(i, outcome) => With(Written(s, outcome, None, Deleted(i)), i, Idle)
    case Crash(i) => With(s, i, Idle)
  }

  predicate Next(s: State, step: Step, s': State) {
    Enabled(s, step) && s' == Apply(s, step)
  }

  // ----- What a run may be assumed to respect -----

  /** Transactions serialise: an UPDATE finds the row as the SELECT of its transaction left it. */
  predicate Serialised(s: State, step: Step) {
    Enabled(s, step) ==>
      match step
      case UpdateExpired(i, _) => s.row == Some(s.instances[i].seen)
      case UpdateOwn(i, _) => s.row == Some(s.instances[i].refresher.seen)
      case _ => true
  }

  /** The UPDATE of a takeover finds a row, and `guard` lets it pass for the row's expiry and the reading it was begun with. */
  predicate TakesGuarded(guard: (int, int) -> bool, s: State, step: Step) {
    step.UpdateExpired? && Enabled(s, step) ==> s.row.Some? && guard(s.row.value, s.instances[step.i].now)
  }

  /** The UPDATE of a takeover finds a row that is expired still, whoever wrote it. */
  predicate TakesExpired(s: State, step: Step) {
    TakesGuarded((expireAt, now) => expireAt <= Unix(now), s, step)
  }

  /** The UPDATE of a refresh finds the expiry its SELECT read. */
  predicate RefreshesSeen(s: State, step: Step) {
    step.UpdateOwn? && Enabled(s, step) ==> s.row == Some(s.instances[step.i].refresher.seen)
  }

  /** No instance reads a clock that is ahead. */
  predicate ClockNotAhead(s: State, step: Step) {
    step.ReadClock? ==> step.reading <= s.clock
  }

  /** Every holder's lease, as its own refreshes account for it, is unexpired. */
  predicate LeasesKept(s: State) {
    forall i :: 0 <= i < |s.instances| && s.instances[i].Holding? ==>
      Unix(s.clock) < Lease(s.instances[i].now, s.instances[i].refreshes)
  }

  /**
   Every holder commits its next refresh, or deletes its row, at most `lag` after the next tick; how much that
   is may depend on how often it has refreshed.
   */
  predicate OnSchedule(lag: nat -> nat, s: State) {
    forall i :: 0 <= i < |s.instances| && s.instances[i].Holding? ==>
      WithinLag(s.instances[i].now, s.instances[i].refreshes, lag(s.instances[i].refreshes), s.clock)
  }

  predicate DisciplinedNext(s: State, step: Step, s': State) {
    Next(s, step, s') && ClockNotAhead(s, step) && LeasesKept(s) && TakesExpired(s, step)
  }

  // ----- Steps taken one after the other, with nothing in between -----

  /** The state after `steps`, if each of them can be taken in turn. */
  function Exec(s: State, steps: seq<Step>): Option<State>
    decreases |steps|
  {
    if steps == [] then Some(s)
    else if Enabled(s, steps[0]) && Serialised(s, steps[0]) then Exec(Apply(s, steps[0]), steps[1..])
    else None
  }

  predicate Possible(s: State, step: Step) {
    Enabled(s, step) && Serialised(s, step)
  }

  lemma ExecOne(s: State, a: Step)
    ensures Exec(s, [a]) == if Possible(s, a) then Some(Apply(s, a)) else None
  {
  }

  lemma ExecMore(s: State, a: Step, rest: seq<Step>)
    ensures Exec(s, [a] + rest) == if Possible(s, a) then Exec(Apply(s, a), rest) else None
  {
    assert ([a] + rest)[1..] == rest;
  }

  lemma ExecTwo(s: State, a: Step, b: Step)
    ensures Exec(s, [a, b]) ==
            if Possible(s, a) && Possible(Apply(s, a), b) then Some(Apply(Apply(s, a), b)) else None
  {
    assert [a, b] == [a] + [b];
    ExecMore(s, a, [b]);
    if Possible(s, a) {
      ExecOne(Apply(s, a), b);
    }
  }

  // ----- Mutual exclusion -----

  predicate AtMostOneHolder(s: State) {
    forall i, j ::
      (0 <= i < |s.instances| && 0 <= j < |s.instances| && s.instances[i].Holding? && s.instances[j].Holding?) ==>
      i == j
  }

  predicate ReadingsPast(s: State) {
    forall i :: 0 <= i < |s.instances| && !s.instances[i].Idle? ==> s.instances[i].now <= s.clock
  }

  /** The row belongs to the holder, and its expiry is exactly the lease the holder accounts for. */
  predicate HolderOwnsRow(s: State) {
    forall i :: 0 <= i < |s.instances| && s.instances[i].Holding? ==>
      s.row == Some(Lease(s.instances[i].now, s.instances[i].refreshes))
  }

  /** A refresh under way has read the expiry that the row still has. */
  predicate RefreshUndisturbed(s: State) {
    forall i :: 0 <= i < |s.instances| && s.instances[i].Holding? && s.instances[i].refresher.Selected? ==>
      s.row == Some(s.instances[i].refresher.seen)
  }

  predicate Exclusive(s: State) {
    AtMostOneHolder(s) && ReadingsPast(s) && HolderOwnsRow(s) && RefreshUndisturbed(s)
  }

  /** An instance whose takeover finds the row expired finds nobody holding it. */
  lemma ExpiredRowHasNoHolder(s: State, i: nat)
    requires Exclusive(s) && LeasesKept(s)
    requires i < |s.instances| && s.instances[i].Selecting? && s.row.Some? && s.row.value <= Unix(s.instances[i].now)
    ensures forall j :: 0 <= j < |s.instances| ==> !s.instances[j].Holding?
  {
    UnixMonotone(s.instances[i].now, s.clock);
  }

  lemma ReadingsPastKept(s: State, step: Step, s': State)
    requires ReadingsPast(s) && Next(s, step, s') && ClockNotAhead(s, step)
    ensures ReadingsPast(s')
  {
  }

  lemma HolderOwnsRowKept(s: State, step: Step, s': State)
    requires Exclusive(s) && DisciplinedNext(s, step, s')
    ensures HolderOwnsRow(s') && AtMostOneHolder(s')
  {
    if step.UpdateExpired? {
      ExpiredRowHasNoHolder(s, step.i);
      ExpiryIsFirstLease(s.instances[step.i].now);
    } else if step.Insert? {
      ExpiryIsFirstLease(s.instances[step.i].now);
    } else if step.UpdateOwn? {
      RefreshAddsOneTerm(s.instances[step.i].refresher.seen);
    }
  }

  lemma RefreshUndisturbedKept(s: State, step: Step, s': State)
    requires Exclusive(s) && DisciplinedNext(s, step, s')
    ensures RefreshUndisturbed(s')
  {
    if step.UpdateExpired? {
      ExpiredRowHasNoHolder(s, step.i);
    }
  }

  lemma ExclusivePreserved(s: State, step: Step, s': State)
    requires Exclusive(s) && DisciplinedNext(s, step, s')
    ensures Exclusive(s')
  {
    ReadingsPastKept(s, step, s');
    HolderOwnsRowKept(s, step, s');
    RefreshUndisturbedKept(s, step, s');
  }

  /**
   At most one instance is between a successful Lock and the DELETE of its Unlock, over every run
   of any number of instances, crashes and lost replies included: a second holder can appear only
   after a moment at which some holder had let its lease expire. All that is asked of the database is that the
   UPDATE of a takeover finds the row expired; that refreshes find the row as they read it follows.
   */
  lemma MutualExclusion(states: seq<State>, steps: seq<Step>, n: nat)
    requires Runs.IsRun(Initial, DisciplinedNext, states, steps) && n < |states|
    ensures Exclusive(states[n])
  {
    forall s: State, step: Step, s': State | Exclusive(s) && DisciplinedNext(s, step, s')
      ensures Exclusive(s')
    {
      ExclusivePreserved(s, step, s');
    }
    Runs.Invariance(Exclusive, DisciplinedNext, states, steps, n);
  }

  // ----- Who holds the lock was told so -----

  /** The step that reports success to instance `i`: its INSERT or its takeover committed and the reply arrived. */
  predicate TellsSuccess(step: Step, i: nat) {
    step == Insert(i, Committed) || step == UpdateExpired(i, Committed)
  }

  lemma ChangesOfHolder(s: State, step: Step, s': State, i: nat)
    requires Next(s, step, s') && i < |s'.instances|
    ensures |s.instances| == |s'.instances|
    ensures s'.instances[i].Holding? ==>
      TellsSuccess(step, i) || (s.instances[i].Holding? && s.instances[i].now == s'.instances[i].now)
    ensures TellsSuccess(step, i) ==> !s.instances[i].Holding? && s'.instances[i].Holding?
    ensures step == Crash(i) || (step.Delete? && step.i == i) ==> !s'.instances[i].Holding?
  {
  }

  /**
   In every run an instance holds the lock only since the attempt that it was told had succeeded: one told of an
   error, though its statement took effect, does not hold it, and neither does one that has unlocked or died since.
   */
  lemma {:induction false} HolderWasTold(states: seq<State>, steps: seq<Step>, n: nat, i: nat) returns (k: nat)
    requires Runs.IsRun(Initial, Next, states, steps) && n < |states|
    requires i < |states[n].instances| && states[n].instances[i].Holding?
    ensures k < n && TellsSuccess(steps[k], i)
    ensures forall m :: k < m < n ==> steps[m] != Crash(i) && !(steps[m].Delete? && steps[m].i == i)
  {
    k := n - 1;
    ChangesOfHolder(states[k], steps[k], states[n], i);
    if !TellsSuccess(steps[k], i) {
      k := HolderWasTold(states, steps, k, i);
    }
  }

  predicate RefreshesNoMore(p: Phase) {
    p.Holding? ==> p.refresher.Gone?
  }

  lemma RefreshesNoMoreKept(s: State, step: Step, s': State, i: nat)
    requires Next(s, step, s') && i < |s.instances|
    ensures |s'.instances| == |s.instances|
    ensures RefreshesNoMore(s.instances[i]) && !TellsSuccess(step, i) ==> RefreshesNoMore(s'.instances[i])
    ensures step.UpdateOwn? && step.i == i && !step.outcome.Committed? ==> RefreshesNoMore(s'.instances[i])
  {
  }

  lemma {:induction false} NoRefreshSince(states: seq<State>, steps: seq<Step>, m: nat, n: nat, i: nat)
    requires Runs.IsPath(Next, states, steps) && m < n < |states|
    requires steps[m].UpdateOwn? && steps[m].i == i && !steps[m].outcome.Committed?
    requires forall q :: m < q < n ==> !TellsSuccess(steps[q], i)
    ensures i < |states[n].instances| && RefreshesNoMore(states[n].instances[i])
  {
    assert Next(states[n - 1], steps[n - 1], states[n]);
    if m < n - 1 {
      NoRefreshSince(states, steps, m, n - 1, i);
    }
    RefreshesNoMoreKept(states[n - 1], steps[n - 1], states[n], i);
  }

  /** An instance told that a refresh failed, though it may have taken effect, refreshes no more until it locks anew. */
  lemma FailedRefreshIsLast(states: seq<State>, steps: seq<Step>, m: nat, n: nat, i: nat)
    requires Runs.IsPath(Next, states, steps) && m < n < |steps|
    requires steps[m].UpdateOwn? && steps[m].i == i && !steps[m].outcome.Committed?
    requires forall q :: m < q < n ==> !TellsSuccess(steps[q], i)
    ensures steps[n] != SelectOwn(i) && !(steps[n].UpdateOwn? && steps[n].i == i)
  {
    NoRefreshSince(states, steps, m, n, i);
    assert Next(states[n], steps[n], states[n + 1]);
  }

  // ----- Serialised transactions are one way to take over expired rows only -----

  predicate SelectedExpired(s: State) {
    forall i :: 0 <= i < |s.instances| && s.instances[i].Selecting? ==> s.instances[i].seen <= Unix(s.instances[i].now)
  }

  lemma SelectedExpiredKept(s: State, step: Step, s': State)
    requires SelectedExpired(s) && Next(s, step, s')
    ensures SelectedExpired(s')
  {
  }

  /** Along any run an UPDATE that finds the row its SELECT read takes over an expired row. */
  lemma SerialisedTakesExpired(states: seq<State>, steps: seq<Step>, n: nat)
    requires Runs.IsRun(Initial, Next, states, steps) && n < |steps|
    requires Serialised(states[n], steps[n])
    ensures TakesExpired(states[n], steps[n]) && RefreshesSeen(states[n], steps[n])
  {
    forall s: State, step: Step, s': State | SelectedExpired(s) && Next(s, step, s')
      ensures SelectedExpired(s')
    {
      SelectedExpiredKept(s, step, s');
    }
    Runs.Invariance(SelectedExpired, Next, states, steps, n);
  }

  // ----- Runs that obey a rule -----

  /** A run in which each step obeys `rule` where it is taken. */
  ghost predicate RunUnder(rule: (State, Step) -> bool, states: seq<State>, steps: seq<Step>) {
    && Runs.IsRun(Initial, Next, states, steps)
    && forall k :: 0 <= k < |steps| ==> rule(states[k], steps[k])
  }

  /** Every run under `rule` has one holder at most throughout. */
  ghost predicate RuleIsSafe(rule: (State, Step) -> bool) {
    forall states, steps, n :: RunUnder(rule, states, steps) && 0 <= n < |states| ==> AtMostOneHolder(states[n])
  }

  lemma SafeRule(rule: (State, Step) -> bool)
    requires forall s, step :: Enabled(s, step) && rule(s, step) ==>
      ClockNotAhead(s, step) && LeasesKept(s) && TakesExpired(s, step)
    ensures RuleIsSafe(rule)
  {
    forall states, steps, n | RunUnder(rule, states, steps) && 0 <= n < |states|
      ensures AtMostOneHolder(states[n])
    {
      forall k | 0 <= k < |steps|
        ensures DisciplinedNext(states[k], steps[k], states[k + 1])
      {
        assert Next(states[k], steps[k], states[k + 1]) && rule(states[k], steps[k]);
      }
      MutualExclusion(states, steps, n);
    }
  }
}

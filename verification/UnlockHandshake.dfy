/**
 One Mutex object used by any number of goroutines: Lock publishes the two channels of
 its session under the inner lock, Unlock closes one and waits for the other, and each
 session's refresher runs beside them.
 */
module UnlockHandshake {
  import opened Wrappers
  import Runs

  /** A refresher is waiting for its ticker or the stop channel, inside a transaction, or gone; gone closes `done`. */
  datatype Refresher = Waiting | InTransaction | Gone

  /** A session begins when an attempt to lock succeeds. `closes` counts the times its stop channel was closed. */
  datatype Session = Session(closes: nat, refresher: Refresher)

  /** Where a goroutine is. From WantsLock to Deleting it carries the session it works on. */
  datatype Goroutine =
    | Outside
    | Acquired(session: nat)
    | Publishing(session: nat)
    | WantsUnlock
    | Checking
    | AwaitingDone(session: nat)
    | Deleting(session: nat)
    | Panicked

  datatype Commit = Refreshed(session: nat) | Deleted(session: nat)

  datatype State = State(
    innerLock: Option<nat>,
    stopRefresh: Option<nat>,
    refreshDone: Option<nat>,
    goroutines: seq<Goroutine>,
    sessions: seq<Session>,
    commits: seq<Commit>)

  datatype Step =
    | LockSucceeds(g: nat)
    | TakeInnerLock(g: nat)
    | Publish(g: nat)
    | CallUnlock(g: nat)
    | CloseStop(g: nat)
    | DoneClosed(g: nat)
    | Delete(g: nat)
    | Tick(session: nat)
    | CommitRefresh(session: nat)
    | FailRefresh(session: nat)
    | SeeStop(session: nat)

  predicate Initial(s: State) {
    && s.innerLock.None? && s.stopRefresh.None? && s.refreshDone.None?
    && (forall g :: 0 <= g < |s.goroutines| ==> s.goroutines[g].Outside?)
    && s.sessions == [] && s.commits == []
  }

  predicate IsRefresherStep(step: Step) {
    step.Tick? || step.CommitRefresh? || step.FailRefresh? || step.SeeStop?
  }

  predicate RefresherEnabled(x: Session, step: Step) {
    match step
    case Tick(_) => x.refresher.Waiting?
    case CommitRefresh(_) => x.refresher.InTransaction?
    case FailRefresh(_) => x.refresher.InTransaction?
    case SeeStop(_) => x.refresher.Waiting? && x.closes > 0
    case _ => false
  }

  predicate Enabled(s: State, step: Step) {
    if IsRefresherStep(step) then
      step.session < |s.sessions| && RefresherEnabled(s.sessions[step.session], step)
    else if |s.goroutines| <= step.g then
      false
    else
      var p := s.goroutines[step.g];
      match step
      case LockSucceeds(_) => p.Outside?
      case TakeInnerLock(_) => (p.Acquired? || p.WantsUnlock?) && s.innerLock.None?
      case Publish(_) => p.Publishing?
      case CallUnlock(_) => p.Outside?
      // The published session exists and has both channels in every reachable state.
      case CloseStop(_) => p.Checking? && (s.stopRefresh.Some? ==> s.stopRefresh.value < |s.sessions| && s.refreshDone.Some?)
      case DoneClosed(_) => p.AwaitingDone? && p.session < |s.sessions| && s.sessions[p.session].refresher.Gone?
      case Delete(_) => p.Deleting?
  }

  function With(s: State, g: nat, p: Goroutine): State
    requires g < |s.goroutines|
  {
    s.(goroutines := s.goroutines[g := p])
  }

  function WithRefresher(s: State, x: nat, r: Refresher): State
    requires x < |s.sessions|
  {
    s.(sessions := s.sessions[x := s.sessions[x].(refresher := r)])
  }

  function Apply(s: State, step: Step): State
    requires Enabled(s, step)
  {
    match step
    case LockSucceeds(g) => With(s, g, Acquired(|s.sessions|)).(sessions := s.sessions + [Session(0, Waiting)])
    case TakeInnerLock(g) =>
      var p := s.goroutines[g];
      With(s, g, if p.Acquired? then Publishing(p.session) else Checking).(innerLock := Some(g))
    case Publish(g) =>
      var x := s.goroutines[g].session;
      With(s, g, Outside).(stopRefresh := Some(x), refreshDone := Some(x), innerLock := None)
    case CallUnlock(g) => With(s, g, WantsUnlock)
    case CloseStop(g) =>
      if s.stopRefresh.None? then With(s, g, Panicked).(innerLock := None)
      else
        var x := s.stopRefresh.value;
        With(s, g, AwaitingDone(s.refreshDone.value)).(
          stopRefresh := None, sessions := s.sessions[x := s.sessions[x].(closes := s.sessions[x].closes + 1)])
    case DoneClosed(g) => With(s, g, Deleting(s.goroutines[g].session)).(innerLock := None)
    case Delete(g) => With(s, g, Outside).(commits := s.commits + [Deleted(s.goroutines[g].session)])
    case Tick(x) => WithRefresher(s, x, InTransaction)
    case CommitRefresh(x) => WithRefresher(s, x, Waiting).(commits := s.commits + [Refreshed(x)])
    case FailRefresh(x) => WithRefresher(s, x, Gone)
    case SeeStop(x) => WithRefresher(s, x, Gone)
  }

  predicate Next(s: State, step: Step, s': State) {
    Enabled(s, step) && s' == Apply(s, step)
  }

  // ----- What every reachable state satisfies -----

  predicate HoldsInnerLock(p: Goroutine) {
    p.Publishing? || p.Checking? || p.AwaitingDone?
  }

  predicate InnerLockHeld(s: State) {
    && (forall g :: 0 <= g < |s.goroutines| ==> (HoldsInnerLock(s.goroutines[g]) <==> s.innerLock == Some(g)))
    && (s.innerLock.Some? ==> s.innerLock.value < |s.goroutines|)
  }

  /** The published session has an open stop channel, and both channels are of the same session. */
  predicate PublishedOpen(s: State) {
    s.stopRefresh.Some? ==>
      && s.stopRefresh.value < |s.sessions|
      && s.sessions[s.stopRefresh.value].closes == 0
      && s.refreshDone == s.stopRefresh
  }

  predicate IsPublishing(p: Goroutine) {
    p.Acquired? || p.Publishing?
  }

  /** A session that is not published yet has an open stop channel. */
  predicate UnpublishedOpen(s: State) {
    forall g :: 0 <= g < |s.goroutines| && IsPublishing(s.goroutines[g]) ==>
      && s.goroutines[g].session < |s.sessions|
      && s.sessions[s.goroutines[g].session].closes == 0
      && s.stopRefresh != Some(s.goroutines[g].session)
  }

  predicate OnePublisher(s: State) {
    forall g, h ::
      (0 <= g < h < |s.goroutines| && IsPublishing(s.goroutines[g]) && IsPublishing(s.goroutines[h])) ==>
      s.goroutines[g].session != s.goroutines[h].session
  }

  predicate ClosedOnce(s: State) {
    forall x :: 0 <= x < |s.sessions| ==> s.sessions[x].closes <= 1
  }

  predicate IsUnlocking(p: Goroutine) {
    p.AwaitingDone? || p.Deleting?
  }

  /** A session being unlocked was closed, and its row is not deleted yet. */
  predicate UnlockingClosed(s: State) {
    forall g :: 0 <= g < |s.goroutines| && IsUnlocking(s.goroutines[g]) ==>
      && s.goroutines[g].session < |s.sessions|
      && s.sessions[s.goroutines[g].session].closes == 1
      && (s.goroutines[g].Deleting? ==> s.sessions[s.goroutines[g].session].refresher.Gone?)
      && Deleted(s.goroutines[g].session) !in s.commits
  }

  predicate OneUnlocker(s: State) {
    forall g, h ::
      (0 <= g < h < |s.goroutines| && IsUnlocking(s.goroutines[g]) && IsUnlocking(s.goroutines[h])) ==>
      s.goroutines[g].session != s.goroutines[h].session
  }

  predicate DeletedStopped(s: State) {
    forall p :: 0 <= p < |s.commits| && s.commits[p].Deleted? ==>
      && s.commits[p].session < |s.sessions|
      && s.sessions[s.commits[p].session].closes == 1
      && s.sessions[s.commits[p].session].refresher.Gone?
  }

  /** After the DELETE of a session neither a refresh nor another DELETE of it commits. */
  predicate DeleteIsLast(commits: seq<Commit>) {
    forall p, q :: 0 <= p < q < |commits| && commits[p].Deleted? ==> commits[q].session != commits[p].session
  }

  predicate Orderly(s: State) {
    && InnerLockHeld(s) && PublishedOpen(s) && UnpublishedOpen(s) && OnePublisher(s)
    && ClosedOnce(s) && UnlockingClosed(s) && OneUnlocker(s) && DeletedStopped(s) && DeleteIsLast(s.commits)
  }

  lemma InnerLockKept(s: State, step: Step, s': State)
    requires Next(s, step, s') && InnerLockHeld(s)
    ensures InnerLockHeld(s')
  {
  }

  lemma PublishedKept(s: State, step: Step, s': State)
    requires Next(s, step, s') && InnerLockHeld(s) && PublishedOpen(s) && UnpublishedOpen(s)
    ensures PublishedOpen(s')
  {
  }

  lemma UnpublishedKept(s: State, step: Step, s': State)
    requires Next(s, step, s') && PublishedOpen(s) && UnpublishedOpen(s) && OnePublisher(s)
    ensures UnpublishedOpen(s')
  {
  }

  lemma OnePublisherKept(s: State, step: Step, s': State)
    requires Next(s, step, s') && UnpublishedOpen(s) && OnePublisher(s)
    ensures OnePublisher(s')
  {
  }

  lemma ClosedOnceKept(s: State, step: Step, s': State)
    requires Next(s, step, s') && PublishedOpen(s) && ClosedOnce(s)
    ensures ClosedOnce(s')
  {
  }

  lemma UnlockingKept(s: State, step: Step, s': State)
    requires Next(s, step, s') && PublishedOpen(s) && UnlockingClosed(s) && OneUnlocker(s) && DeletedStopped(s)
    ensures UnlockingClosed(s')
  {
  }

  lemma OneUnlockerKept(s: State, step: Step, s': State)
    requires Next(s, step, s') && PublishedOpen(s) && UnlockingClosed(s) && OneUnlocker(s)
    ensures OneUnlocker(s')
  {
  }

  lemma DeletedStoppedKept(s: State, step: Step, s': State)
    requires Next(s, step, s') && PublishedOpen(s) && UnlockingClosed(s) && DeletedStopped(s)
    ensures DeletedStopped(s')
  {
  }

  lemma DeleteIsLastKept(s: State, step: Step, s': State)
    requires Next(s, step, s') && UnlockingClosed(s) && DeletedStopped(s) && DeleteIsLast(s.commits)
    ensures DeleteIsLast(s'.commits)
  {
  }

  lemma OrderlyPreserved(s: State, step: Step, s': State)
    requires Orderly(s) && Next(s, step, s')
    ensures Orderly(s')
  {
    InnerLockKept(s, step, s');
    PublishedKept(s, step, s');
    UnpublishedKept(s, step, s');
    OnePublisherKept(s, step, s');
    ClosedOnceKept(s, step, s');
    UnlockingKept(s, step, s');
    OneUnlockerKept(s, step, s');
    DeletedStoppedKept(s, step, s');
    DeleteIsLastKept(s, step, s');
  }

  /**
   In every interleaving of Lock, Unlock and the refreshers: a stop channel is closed at most once, and
   once a session's row is deleted nothing of that session reaches the table any more.
   */
  lemma HandshakeIsSafe(states: seq<State>, steps: seq<Step>, n: nat)
    requires Runs.IsRun(Initial, Next, states, steps) && n < |states|
    ensures Orderly(states[n])
  {
    forall s: State, step: Step, s': State | Orderly(s) && Next(s, step, s')
      ensures Orderly(s')
    {
      OrderlyPreserved(s, step, s');
    }
    Runs.Invariance(Orderly, Next, states, steps, n);
  }

  // ----- A failed refresh is the last -----

  lemma {:induction false} GoneStaysGone(states: seq<State>, steps: seq<Step>, m: nat, n: nat, x: nat)
    requires Runs.IsPath(Next, states, steps) && m <= n < |states|
    requires x < |states[m].sessions| && states[m].sessions[x].refresher.Gone?
    ensures x < |states[n].sessions| && states[n].sessions[x].refresher.Gone?
  {
    if m < n {
      GoneStaysGone(states, steps, m, n - 1, x);
      assert Next(states[n - 1], steps[n - 1], states[n]);
    }
  }

  /** After a refresh of a session has failed none of it is begun or committed any more. */
  lemma FailedRefreshIsLast(states: seq<State>, steps: seq<Step>, m: nat, n: nat, x: nat)
    requires Runs.IsPath(Next, states, steps) && m < n < |steps|
    requires steps[m] == FailRefresh(x)
    ensures steps[n] != Tick(x) && steps[n] != CommitRefresh(x) && steps[n] != FailRefresh(x)
  {
    assert Next(states[m], steps[m], states[m + 1]) && Next(states[n], steps[n], states[n + 1]);
    GoneStaysGone(states, steps, m + 1, n, x);
  }

  // ----- Unlock cannot be stuck -----

  /** A path that needs nobody but goroutine `g`, which holds the inner lock, and refreshers, which never take it. */
  ghost predicate OnlyNeeds(g: nat, states: seq<State>, steps: seq<Step>) {
    && Runs.IsPath(Next, states, steps)
    && forall k :: 0 <= k < |steps| ==>
         IsRefresherStep(steps[k]) || steps[k] == Publish(g) || steps[k] == CloseStop(g) || steps[k] == DoneClosed(g)
  }

  lemma RefresherLeavesOnceStopped(s: State, g: nat) returns (states: seq<State>, steps: seq<Step>)
    requires Orderly(s) && g < |s.goroutines| && s.goroutines[g].AwaitingDone?
    ensures OnlyNeeds(g, states, steps) && |steps| <= 3
    ensures states[0] == s && states[|steps|].goroutines == s.goroutines[g := Deleting(s.goroutines[g].session)]
    ensures states[|steps|].innerLock.None?
  {
    var x := s.goroutines[g].session;
    states, steps := [s], [];
    if s.sessions[x].refresher.InTransaction? {
      states, steps := states + [Apply(states[0], CommitRefresh(x))], steps + [CommitRefresh(x)];
    }
    if !s.sessions[x].refresher.Gone? {
      states, steps := states + [Apply(states[|steps|], SeeStop(x))], steps + [SeeStop(x)];
    }
    states, steps := states + [Apply(states[|steps|], DoneClosed(g))], steps + [DoneClosed(g)];
  }

  /**
   Whoever holds the inner lock can always give it back within four steps, none of which waits for a
   goroutine that wants the lock: Unlock never waits for a refresher that cannot leave.
   */
  lemma InnerLockComesFree(s: State, g: nat) returns (states: seq<State>, steps: seq<Step>)
    requires Orderly(s) && s.innerLock == Some(g)
    ensures OnlyNeeds(g, states, steps) && |steps| <= 4
    ensures states[0] == s && states[|steps|].innerLock.None?
  {
    if s.goroutines[g].AwaitingDone? {
      states, steps := RefresherLeavesOnceStopped(s, g);
    } else {
      var step := if s.goroutines[g].Publishing? then Publish(g) else CloseStop(g);
      var s1 := Apply(s, step);
      states, steps := [s, s1], [step];
      if s1.innerLock.Some? {
        OrderlyPreserved(s, step, s1);
        states, steps := RefresherLeavesOnceStopped(s1, g);
        states, steps := [s] + states, [step] + steps;
      }
    }
  }
}

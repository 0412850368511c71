/**
 Pull request events handled at the same time. Each saves the pull request it fetched, reads the row
 back, compares, and perhaps saves again, while others save rows as they like.
 */
module EventRaces {
  import opened Wrappers
  import opened PullRequestStore
  import opened ChangeDetection
  import Runs

  /**
   `saved` is how many writes there were after the Save of the event, and `wrote` whether it was one of them;
   `seen` is how many there were when the row was read. `pending` tells that the second Save is still to come.
   */
  datatype Phase =
    | Arrived
    | Saved(saved: nat, wrote: bool)
    | Compared(saved: nat, wrote: bool, seen: nat, calls: seq<LabelCall>, pending: bool)
    | Failed

  datatype Event = Event(pr: PullRequest, phase: Phase)

  /** `writes` are the Saves that took effect, in order, since the table was `start`. */
  datatype State = State(start: Table, table: Table, writes: seq<PullRequest>, events: seq<Event>)

  datatype Step =
    | FirstSave(e: nat, io: SaveIO)
    | Look(e: nat)
    | LookFails(e: nat)
    | SecondSave(e: nat, io: SaveIO)
    | Elsewhere(pr: PullRequest, io: SaveIO)

  ghost predicate Initial(s: State) {
    s.table == s.start && s.writes == [] && forall e :: 0 <= e < |s.events| ==> s.events[e].phase.Arrived?
  }

  predicate Enabled(s: State, step: Step) {
    if step.Elsewhere? then true
    else if |s.events| <= step.e then false
    else
      var p := s.events[step.e].phase;
      match step
      case FirstSave(_, _) => p.Arrived?
      case Look(_) => p.Saved?
      case LookFails(_) => p.Saved?
      case SecondSave(_, _) => p.Compared? && p.pending
  }

  function Store(s: State, pr: PullRequest, io: SaveIO): State {
    if io.Writes(pr.key in s.table) then s.(table := Upsert(s.table, pr), writes := s.writes + [pr]) else s
  }

  function With(s: State, e: nat, p: Phase): State
    requires e < |s.events|
  {
    s.(events := s.events[e := s.events[e].(phase := p)])
  }

  /** The labels handled when the row is `stored`. */
  function Calls(pr: PullRequest, stored: Option<PullRequest>): seq<LabelCall> {
    if stored.None? then AddedAll(pr.columns.labels) else LabelCalls(pr.columns.labels, stored.value.columns.labels)
  }

  ghost function Apply(s: State, step: Step): State
    requires Enabled(s, step)
  {
    match step
    case FirstSave(e, io) =>
      var pr := s.events[e].pr;
      var present := pr.key in s.table;
      var s1 := Store(s, pr, io);
      With(s1, e, if io.Succeeds(present) then Saved(|s1.writes|, io.Writes(present)) else Failed)
    case Look(e) =>
      var Event(pr, p) := s.events[e];
      var stored := Stored(s.table, pr.key);
      var pending := stored.None? || Differs(pr, stored.value);
      With(s, e, Compared(p.saved, p.wrote, |s.writes|, Calls(pr, stored), pending))
    case LookFails(e) => With(s, e, Failed)
    case SecondSave(e, io) =>
      With(Store(s, s.events[e].pr, io), e, s.events[e].phase.(pending := false))
    case Elsewhere(pr, io) => Store(s, pr, io)
  }

  ghost predicate Next(s: State, step: Step, s': State) {
    Enabled(s, step) && s' == Apply(s, step)
  }

  // ----- What every run keeps -----

  /** The marks of an event fit the history, and its labels were handled as the history then said. */
  ghost predicate Fits(start: Table, writes: seq<PullRequest>, event: Event) {
    var p := event.phase;
    p.Saved? || p.Compared? ==>
      && p.saved <= |writes|
      && (if p.wrote then p.saved > 0 && writes[p.saved - 1] == event.pr
          else event.pr.key !in SaveAll(start, writes[..p.saved]))
      && (p.Compared? ==>
            && p.saved <= p.seen <= |writes|
            && p.calls == Calls(event.pr, Stored(SaveAll(start, writes[..p.seen]), event.pr.key)))
  }

  ghost predicate Accounted(s: State) {
    s.table == SaveAll(s.start, s.writes) && forall e :: 0 <= e < |s.events| ==> Fits(s.start, s.writes, s.events[e])
  }

  lemma FitsGrows(start: Table, writes: seq<PullRequest>, more: seq<PullRequest>, event: Event)
    requires Fits(start, writes, event) && writes <= more
    ensures Fits(start, more, event)
  {
    var p := event.phase;
    if p.Saved? || p.Compared? {
      assert more[..p.saved] == writes[..p.saved];
    }
    if p.Compared? {
      assert more[..p.seen] == writes[..p.seen];
    }
  }

  lemma StoreAccounted(s: State, pr: PullRequest, io: SaveIO)
    requires Accounted(s)
    ensures Accounted(Store(s, pr, io))
  {
    var s1 := Store(s, pr, io);
    assert s1.writes != s.writes ==> s1.writes[..|s.writes|] == s.writes;
    forall e | 0 <= e < |s.events|
      ensures Fits(s.start, s1.writes, s.events[e])
    {
      FitsGrows(s.start, s.writes, s1.writes, s.events[e]);
    }
  }

  lemma WithAccounted(s: State, e: nat, p: Phase)
    requires Accounted(s) && e < |s.events| && Fits(s.start, s.writes, Event(s.events[e].pr, p))
    ensures Accounted(With(s, e, p))
  {
  }

  lemma FirstSaveAccounted(s: State, e: nat, io: SaveIO)
    requires Accounted(s) && Enabled(s, FirstSave(e, io))
    ensures Accounted(Apply(s, FirstSave(e, io)))
  {
    var pr := s.events[e].pr;
    var s1 := Store(s, pr, io);
    StoreAccounted(s, pr, io);
    assert s1.writes[..|s1.writes|] == s1.writes;
    WithAccounted(s1, e, Apply(s, FirstSave(e, io)).events[e].phase);
  }

  lemma LookAccounted(s: State, e: nat)
    requires Accounted(s) && Enabled(s, Look(e))
    ensures Accounted(Apply(s, Look(e)))
  {
    assert s.writes[..|s.writes|] == s.writes;
    assert Fits(s.start, s.writes, s.events[e]);
    WithAccounted(s, e, Apply(s, Look(e)).events[e].phase);
  }

  lemma SecondSaveAccounted(s: State, e: nat, io: SaveIO)
    requires Accounted(s) && Enabled(s, SecondSave(e, io))
    ensures Accounted(Apply(s, SecondSave(e, io)))
  {
    var s1 := Store(s, s.events[e].pr, io);
    StoreAccounted(s, s.events[e].pr, io);
    assert Fits(s1.start, s1.writes, s1.events[e]);
    WithAccounted(s1, e, s.events[e].phase.(pending := false));
  }

  lemma AccountedKept(s: State, step: Step, s': State)
    requires Accounted(s) && Next(s, step, s')
    ensures Accounted(s')
  {
    match step
    case FirstSave(e, io) => FirstSaveAccounted(s, e, io);
    case Look(e) => LookAccounted(s, e);
    case LookFails(e) => WithAccounted(s, e, Failed);
    case SecondSave(e, io) => SecondSaveAccounted(s, e, io);
    case Elsewhere(pr, io) => StoreAccounted(s, pr, io);
  }

  lemma AlwaysAccounted(states: seq<State>, steps: seq<Step>, n: nat)
    requires Runs.IsRun(Initial, Next, states, steps) && n < |states|
    ensures Accounted(states[n])
  {
    forall s: State, step: Step, s': State | Accounted(s) && Next(s, step, s')
      ensures Accounted(s')
    {
      AccountedKept(s, step, s');
    }
    Runs.Invariance(Accounted, Next, states, steps, n);
  }

  // ----- When labels are handled -----

  /**
   In every run an event whose Save took effect compares its labels with those written last before it read the
   row back, write number `p`, counted from 0. That is its own write, or a later one that came in between.
   So it handles a label exactly when the last write in between carried other labels.
   */
  lemma EventSeesLastWrite(states: seq<State>, steps: seq<Step>, n: nat, e: nat) returns (p: nat)
    requires Runs.IsRun(Initial, Next, states, steps) && n < |states| && e < |states[n].events|
    requires states[n].events[e].phase.Compared? && states[n].events[e].phase.wrote
    ensures
      var Event(pr, phase) := states[n].events[e];
      var writes := states[n].writes;
      && phase.saved - 1 <= p < phase.seen <= |writes|
      && IsLastSave(writes[..phase.seen], pr.key, p)
      && phase.calls == LabelCalls(pr.columns.labels, writes[p].columns.labels)
      && (phase.calls != [] <==> p >= phase.saved && !SameLabels(pr.columns.labels, writes[p].columns.labels))
  {
    AlwaysAccounted(states, steps, n);
    var s := states[n];
    var Event(pr, phase) := s.events[e];
    assert Fits(s.start, s.writes, s.events[e]);
    var before := s.writes[..phase.seen];
    assert before[phase.saved - 1] == pr;
    p := FindLastSave(before, pr.key);
    LastSaveIsStored(s.start, before, pr.key, p);
    LabelsDiffer(pr.columns.labels, s.writes[p].columns.labels);
  }

  /**
   An event whose Save reported success without effect found no row. It handles all its labels when there still is none
   as it looks, and else compares them with the last write, which came in between.
   */
  lemma LostSaveSeesOthers(states: seq<State>, steps: seq<Step>, n: nat, e: nat)
    requires Runs.IsRun(Initial, Next, states, steps) && n < |states| && e < |states[n].events|
    requires states[n].events[e].phase.Compared? && !states[n].events[e].phase.wrote
    ensures
      var Event(pr, phase) := states[n].events[e];
      && phase.seen <= |states[n].writes|
      && var before := states[n].writes[..phase.seen];
      && (NeverSaved(before, pr.key) ==> phase.calls == AddedAll(pr.columns.labels))
      && forall p :: IsLastSave(before, pr.key, p) ==>
           p >= phase.saved && phase.calls == LabelCalls(pr.columns.labels, before[p].columns.labels)
  {
    AlwaysAccounted(states, steps, n);
    var s := states[n];
    var Event(pr, phase) := s.events[e];
    assert Fits(s.start, s.writes, s.events[e]);
    var before, early := s.writes[..phase.seen], s.writes[..phase.saved];
    AbsentRow(s.start, early, pr.key);
    assert forall q :: 0 <= q < phase.saved ==> early[q] == before[q];
    if NeverSaved(before, pr.key) {
      UnsavedIsUntouched(s.start, before, pr.key);
    }
    forall p | IsLastSave(before, pr.key, p)
      ensures p >= phase.saved && phase.calls == LabelCalls(pr.columns.labels, before[p].columns.labels)
    {
      LastSaveIsStored(s.start, before, pr.key, p);
    }
  }

  lemma AbsentRow(start: Table, writes: seq<PullRequest>, key: Key)
    requires key !in SaveAll(start, writes)
    ensures key !in start && NeverSaved(writes, key)
  {
    if key in start {
      SaveKeepsKeys(start, writes, key);
    }
    if !NeverSaved(writes, key) {
      var p := FindLastSave(writes, key);
      LastSaveIsStored(start, writes, key, p);
    }
  }

  /** Of two events for one pull request the one that saves first handles the difference of their labels, the other none. */
  lemma FirstSaverHandlesDifference(s: State, a: nat, b: nat)
    requires a < |s.events| && b < |s.events| && a != b && s.events[a].pr.key == s.events[b].pr.key
    requires s.events[a].phase.Arrived? && s.events[b].phase.Arrived?
    ensures
      var s' := Apply(Apply(s, FirstSave(a, SaveIO(true, true))), FirstSave(b, SaveIO(true, true)));
      && Apply(s', Look(a)).events[a].phase.calls ==
         LabelCalls(s.events[a].pr.columns.labels, s.events[b].pr.columns.labels)
      && Apply(s', Look(b)).events[b].phase.calls == []
  {
    var labels := s.events[b].pr.columns.labels;
    LabelsDiffer(labels, labels);
  }

  // ----- An event by itself -----

  /** Where the steps of event `e` lead when nobody comes in between. */
  ghost function Alone(s: State, e: nat, fetchIO: SaveIO, getWorks: bool, io: SaveIO): State
    requires e < |s.events| && s.events[e].phase.Arrived?
  {
    var s1 := Apply(s, FirstSave(e, fetchIO));
    if s1.events[e].phase.Failed? then s1
    else
      var s2 := Apply(s1, if getWorks then Look(e) else LookFails(e));
      if s2.events[e].phase.Failed? || !s2.events[e].phase.pending then s2 else Apply(s2, SecondSave(e, io))
  }

  /** Then they do what ProcessEvent promises. */
  lemma AloneAsProcessed(s: State, e: nat, fetchIO: SaveIO, getWorks: bool, io: SaveIO)
    requires e < |s.events| && s.events[e].phase.Arrived?
    ensures
      var s' := Alone(s, e, fetchIO, getWorks, io);
      var Event(pr, phase) := s'.events[e];
      var saved := fetchIO.Writes(pr.key in s.table);
      var lost := fetchIO.Succeeds(pr.key in s.table) && !saved;
      && (phase.Failed? <==> !(fetchIO.Succeeds(pr.key in s.table) && getWorks))
      && (!phase.Failed? ==> phase.Compared? && phase.calls == if lost then AddedAll(pr.columns.labels) else [])
      && s'.table == if saved || (lost && getWorks && io.insert) then Upsert(s.table, pr) else s.table
  {
    var pr := s.events[e].pr;
    LabelsDiffer(pr.columns.labels, pr.columns.labels);
    assert Upsert(Upsert(s.table, pr), pr) == Upsert(s.table, pr);
  }
}

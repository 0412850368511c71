/**
 The cherry-pick queue: handlers that try to enqueue a request without waiting, one worker,
 and the routine that closes the queue at shutdown and may drain it beside the worker.
 */
module CherryPickQueue {
  import Runs

  const CAPACITY: nat := 20

  /** A ticket stands for the request built by one pass through a handler; what the worker does with it is opaque. */
  datatype Ticket = Ticket(handler: nat)

  /** What the two selects of a handler come to. */
  datatype Verdict = Accepted | Full | Closing

  /** A handler first looks whether the server is stopping, then, in a second select, tries to send. */
  datatype Handler = Arriving | StopChecked | Answered(verdict: Verdict) | SentOnClosed

  datatype Worker = Receiving | Running(ticket: Ticket) | Exited

  datatype Branch = TimedOut | Stopped

  /** finishCherryPickRequests. */
  datatype Closer =
    | NotCalled
    | StopClosed
    | Selecting
    | Draining
    | Cancelling(ticket: Ticket)
    | Returned(branch: Branch)

  datatype Consumer = ByWorker | ByCloser

  datatype Taken = Taken(ticket: Ticket, consumer: Consumer)

  datatype State = State(
    queue: seq<Ticket>,
    queueClosed: bool,
    handlers: seq<Handler>,
    worker: Worker,
    closer: Closer,
    accepted: seq<Ticket>,
    taken: seq<Taken>,
    done: seq<Ticket>,
    cancelled: seq<Ticket>)

  datatype Step =
    | CheckStop(h: nat)
    | TrySend(h: nat)
    | WorkerReceives
    | WorkerFinishes
    | WorkerExits
    | CloseStop
    | CloseQueue
    | TimeOut
    | SeeStopped
    | CloserReceives
    | CloserComments
    | CloserReturns

  predicate Initial(s: State) {
    && s.queue == [] && !s.queueClosed && s.worker.Receiving? && s.closer.NotCalled?
    && (forall h :: 0 <= h < |s.handlers| ==> s.handlers[h].Arriving?)
    && s.accepted == [] && s.taken == [] && s.done == [] && s.cancelled == []
  }

  predicate Enabled(s: State, step: Step) {
    match step
    case CheckStop(h) => h < |s.handlers| && s.handlers[h].Arriving?
    case TrySend(h) => h < |s.handlers| && s.handlers[h].StopChecked?
    case WorkerReceives => s.worker.Receiving? && s.queue != []
    case WorkerFinishes => s.worker.Running?
    case WorkerExits => s.worker.Receiving? && s.queue == [] && s.queueClosed
    case CloseStop => s.closer.NotCalled?
    case CloseQueue => s.closer.StopClosed?
    case TimeOut => s.closer.Selecting?
    case SeeStopped => s.closer.Selecting? && s.worker.Exited?
    case CloserReceives => s.closer.Draining? && s.queue != []
    case CloserComments => s.closer.Cancelling?
    case CloserReturns => s.closer.Draining? && s.queue == [] && s.queueClosed
  }

  function With(s: State, h: nat, p: Handler): State
    requires h < |s.handlers|
  {
    s.(handlers := s.handlers[h := p])
  }

  function Take(s: State, consumer: Consumer): State
    requires s.queue != []
  {
    s.(queue := s.queue[1..], taken := s.taken + [Taken(s.queue[0], consumer)])
  }

  function Apply(s: State, step: Step): State
    requires Enabled(s, step)
  {
    match step
    case CheckStop(h) => With(s, h, if s.closer.NotCalled? then StopChecked else Answered(Closing))
    case TrySend(h) =>
      if s.queueClosed then With(s, h, SentOnClosed)
      else if |s.queue| < CAPACITY then
        With(s, h, Answered(Accepted)).(queue := s.queue + [Ticket(h)], accepted := s.accepted + [Ticket(h)])
      else With(s, h, Answered(Full))
    case WorkerReceives => Take(s, ByWorker).(worker := Running(s.queue[0]))
    case WorkerFinishes => s.(worker := Receiving, done := s.done + [s.worker.ticket])
    case WorkerExits => s.(worker := Exited)
    case CloseStop => s.(closer := StopClosed)
    case CloseQueue => s.(closer := Selecting, queueClosed := true)
    case TimeOut => s.(closer := Draining)
    case SeeStopped => s.(closer := Returned(Stopped))
    case CloserReceives => Take(s, ByCloser).(closer := Cancelling(s.queue[0]))
    case CloserComments => s.(closer := Draining, cancelled := s.cancelled + [s.closer.ticket])
    case CloserReturns => s.(closer := Returned(TimedOut))
  }

  predicate Next(s: State, step: Step, s': State) {
    Enabled(s, step) && s' == Apply(s, step)
  }

  // ----- Conservation -----

  function Tickets(taken: seq<Taken>): (tickets: seq<Ticket>)
    ensures |tickets| == |taken|
  {
    seq(|taken|, i requires 0 <= i < |taken| => taken[i].ticket)
  }

  /** What one consumer took, in the order it took it. */
  function TakenBy(taken: seq<Taken>, consumer: Consumer): seq<Ticket> {
    if taken == [] then []
    else
      var last := taken[|taken| - 1];
      TakenBy(taken[..|taken| - 1], consumer) + if last.consumer == consumer then [last.ticket] else []
  }

  /** What a consumer has dealt with, and what it is dealing with. */
  function Share(s: State, consumer: Consumer): seq<Ticket> {
    match consumer
    case ByWorker => s.done + if s.worker.Running? then [s.worker.ticket] else []
    case ByCloser => s.cancelled + if s.closer.Cancelling? then [s.closer.ticket] else []
  }

  /** Accepted requests leave the queue first in, first out. */
  ghost predicate InOrder(s: State) {
    s.accepted == Tickets(s.taken) + s.queue && |s.queue| <= 20
  }

  /** What a consumer took is its share, in the order it took it. */
  ghost predicate Shared(s: State, consumer: Consumer) {
    TakenBy(s.taken, consumer) == Share(s, consumer)
  }

  ghost predicate Conserved(s: State) {
    InOrder(s) && Shared(s, ByWorker) && Shared(s, ByCloser)
  }

  lemma TakeOne(taken: seq<Taken>, one: Taken, consumer: Consumer)
    ensures TakenBy(taken + [one], consumer) ==
            TakenBy(taken, consumer) + if one.consumer == consumer then [one.ticket] else []
  {
    assert (taken + [one])[..|taken|] == taken;
  }

  lemma InOrderStep(s: State, step: Step, s': State)
    requires InOrder(s) && Next(s, step, s')
    ensures InOrder(s')
  {
    if step.WorkerReceives? || step.CloserReceives? {
      assert Tickets(s'.taken) == Tickets(s.taken) + [s.queue[0]];
      assert s.queue == [s.queue[0]] + s'.queue;
    }
  }

  /** A consumer that receives had nothing in hand. */
  lemma SharedReceive(s: State, step: Step, s': State, consumer: Consumer)
    requires Shared(s, consumer) && Next(s, step, s') && (step.WorkerReceives? || step.CloserReceives?)
    ensures Shared(s', consumer)
  {
    TakeOne(s.taken, Taken(s.queue[0], if step.WorkerReceives? then ByWorker else ByCloser), consumer);
  }

  lemma SharedFinish(s: State, step: Step, s': State, consumer: Consumer)
    requires Shared(s, consumer) && Next(s, step, s') && (step.WorkerFinishes? || step.CloserComments?)
    ensures Shared(s', consumer)
  {
  }

  /** No other step touches what a consumer took or dealt with. */
  lemma SharedOtherwise(s: State, step: Step, s': State, consumer: Consumer)
    requires Shared(s, consumer) && Next(s, step, s')
    requires !step.WorkerReceives? && !step.CloserReceives? && !step.WorkerFinishes? && !step.CloserComments?
    ensures Shared(s', consumer)
  {
    assert s'.taken == s.taken && s'.done == s.done && s'.cancelled == s.cancelled;
    assert s'.worker.Running? == s.worker.Running? && s'.closer.Cancelling? == s.closer.Cancelling?;
  }

  lemma SharedStep(s: State, step: Step, s': State, consumer: Consumer)
    requires Shared(s, consumer) && Next(s, step, s')
    ensures Shared(s', consumer)
  {
    if step.WorkerReceives? || step.CloserReceives? {
      SharedReceive(s, step, s', consumer);
    } else if step.WorkerFinishes? || step.CloserComments? {
      SharedFinish(s, step, s', consumer);
    } else {
      SharedOtherwise(s, step, s', consumer);
    }
  }

  // ----- Replies -----

  /** A handler was told its request is scheduled exactly when that request was accepted. */
  ghost predicate RepliesTrue(s: State) {
    forall h :: 0 <= h < |s.handlers| ==> (s.handlers[h] == Answered(Accepted) <==> Ticket(h) in s.accepted)
  }

  ghost predicate AcceptedOnce(s: State) {
    && (forall p :: 0 <= p < |s.accepted| ==> s.accepted[p].handler < |s.handlers|)
    && (forall p, q :: 0 <= p < q < |s.accepted| ==> s.accepted[p] != s.accepted[q])
  }

  lemma RepliesStep(s: State, step: Step, s': State)
    requires RepliesTrue(s) && AcceptedOnce(s) && Next(s, step, s')
    ensures RepliesTrue(s') && AcceptedOnce(s')
  {
    if step.TrySend? && s'.accepted != s.accepted {
      assert Ticket(step.h) !in s.accepted;
      assert s'.accepted[|s.accepted|] == Ticket(step.h);
      forall h | 0 <= h < |s'.handlers|
        ensures s'.handlers[h] == Answered(Accepted) <==> Ticket(h) in s'.accepted
      {
        assert Ticket(h) in s'.accepted <==> Ticket(h) in s.accepted || h == step.h;
      }
    }
  }

  // ----- Shutdown -----

  ghost predicate ShutdownOrder(s: State) {
    && (s.queueClosed <==> !s.closer.NotCalled? && !s.closer.StopClosed?)
    && (s.worker.Exited? ==> s.queueClosed && s.queue == [])
    && (s.closer.Returned? ==> s.queue == [])
    && (s.closer == Returned(Stopped) ==> s.worker.Exited?)
    && (s.closer.NotCalled? || s.closer.StopClosed? || s.closer.Selecting? || s.closer == Returned(Stopped) ==>
          forall p :: 0 <= p < |s.taken| ==> s.taken[p].consumer.ByWorker?)
  }

  lemma ShutdownOrderStep(s: State, step: Step, s': State)
    requires ShutdownOrder(s) && Next(s, step, s')
    ensures ShutdownOrder(s')
  {
  }

  ghost predicate Sound(s: State) {
    Conserved(s) && RepliesTrue(s) && AcceptedOnce(s) && ShutdownOrder(s)
  }

  /** In every reachable state nothing is lost, duplicated, reordered or wrongly reported. */
  lemma QueueIsSound(states: seq<State>, steps: seq<Step>, n: nat)
    requires Runs.IsRun(Initial, Next, states, steps) && n < |states|
    ensures Sound(states[n])
  {
    forall s: State, step: Step, s': State | Sound(s) && Next(s, step, s')
      ensures Sound(s')
    {
      InOrderStep(s, step, s');
      SharedStep(s, step, s', ByWorker);
      SharedStep(s, step, s', ByCloser);
      RepliesStep(s, step, s');
      ShutdownOrderStep(s, step, s');
    }
    Runs.Invariance(Sound, Next, states, steps, n);
  }

  lemma {:induction false} OneConsumerTookAll(taken: seq<Taken>)
    requires forall p :: 0 <= p < |taken| ==> taken[p].consumer.ByWorker?
    ensures TakenBy(taken, ByWorker) == Tickets(taken)
  {
    if taken != [] {
      var front, last := taken[..|taken| - 1], taken[|taken| - 1];
      OneConsumerTookAll(front);
      assert Tickets(taken) == Tickets(front) + [last.ticket];
    }
  }

  lemma AddToOne(all: seq<Ticket>, w: seq<Ticket>, c: seq<Ticket>, x: Ticket)
    requires multiset(all) == multiset(w) + multiset(c)
    ensures multiset(all + [x]) == multiset(w + [x]) + multiset(c) == multiset(w) + multiset(c + [x])
  {
  }

  ghost predicate SharedOut(taken: seq<Taken>) {
    multiset(Tickets(taken)) == multiset(TakenBy(taken, ByWorker)) + multiset(TakenBy(taken, ByCloser))
  }

  lemma ShareOneMore(front: seq<Taken>, last: Taken)
    requires SharedOut(front)
    ensures SharedOut(front + [last])
  {
    TakeOne(front, last, ByWorker);
    TakeOne(front, last, ByCloser);
    AddToOne(Tickets(front), TakenBy(front, ByWorker), TakenBy(front, ByCloser), last.ticket);
    assert Tickets(front + [last]) == Tickets(front) + [last.ticket];
    var idle := if last.consumer.ByWorker? then ByCloser else ByWorker;
    assert TakenBy(front + [last], idle) == TakenBy(front, idle);
  }

  lemma {:induction false} SharesMakeAll(taken: seq<Taken>)
    ensures SharedOut(taken)
  {
    if taken != [] {
      SharesMakeAll(taken[..|taken| - 1]);
      ShareOneMore(taken[..|taken| - 1], taken[|taken| - 1]);
      assert taken[..|taken| - 1] + [taken[|taken| - 1]] == taken;
    }
  }

  /**
   When finishCherryPickRequests returns, the queue is closed and empty. If the worker had stopped, it ran
   every accepted request in order; after the timeout each accepted request was run, is the one
   the worker is running, or was cancelled.
   */
  lemma ShutdownIsComplete(states: seq<State>, steps: seq<Step>, n: nat)
    requires Runs.IsRun(Initial, Next, states, steps) && n < |states|
    requires states[n].closer.Returned?
    ensures states[n].queueClosed && states[n].queue == []
    ensures states[n].closer.branch.Stopped? ==> states[n].done == states[n].accepted && states[n].cancelled == []
    ensures multiset(states[n].accepted) == multiset(Share(states[n], ByWorker)) + multiset(states[n].cancelled)
  {
    var s := states[n];
    QueueIsSound(states, steps, n);
    assert s.accepted == Tickets(s.taken);
    SharesMakeAll(s.taken);
    if s.closer.branch.Stopped? {
      OneConsumerTookAll(s.taken);
      assert |s.taken| == |s.done|;
      assert multiset(s.cancelled) == multiset{};
    }
  }

  /** Once the queue is closed no step makes it longer, and draining it always ends. */
  lemma ClosedQueueShrinks(s: State, step: Step, s': State)
    requires Next(s, step, s') && s.queueClosed
    ensures s'.queueClosed && |s'.queue| <= |s.queue|
    ensures step.CloserReceives? ==> |s'.queue| < |s.queue|
    ensures s'.accepted == s.accepted
  {
  }

  /** Number of steps the closing routine still needs when nobody helps it. */
  function DrainWork(s: State): nat {
    2 * |s.queue| + (if s.closer.Draining? then 1 else if s.closer.Cancelling? then 2 else 0)
  }

  function DrainSteps(s: State): (steps: seq<Step>)
    requires s.queueClosed && (s.closer.Draining? || s.closer.Cancelling?)
    ensures |steps| == DrainWork(s)
    decreases DrainWork(s)
  {
    var step := if s.closer.Cancelling? then CloserComments else if s.queue == [] then CloserReturns else CloserReceives;
    if step.CloserReturns? then [step] else [step] + DrainSteps(Apply(s, step))
  }

  /** From any state after the timeout, whatever the worker is doing, the drain runs to its end by itself. */
  lemma {:induction false} DrainEnds(s: State) returns (states: seq<State>)
    requires s.queueClosed && (s.closer.Draining? || s.closer.Cancelling?)
    ensures Runs.IsPath(Next, states, DrainSteps(s))
    ensures states[0] == s && states[|states| - 1].closer == Returned(TimedOut)
    decreases DrainWork(s)
  {
    var step := DrainSteps(s)[0];
    var s' := Apply(s, step);
    if step.CloserReturns? {
      states := [s, s'];
    } else {
      var rest := DrainEnds(s');
      states := [s] + rest;
    }
  }

  // ----- Sending on the closed queue -----

  ghost predicate HasSentOnClosed(s: State) {
    exists h :: 0 <= h < |s.handlers| && s.handlers[h].SentOnClosed?
  }

  ghost predicate HasStopChecked(s: State) {
    exists h :: 0 <= h < |s.handlers| && s.handlers[h].StopChecked?
  }

  /** Some continuation of `s` makes a handler send on the closed queue, which panics. */
  ghost predicate CanPanic(s: State) {
    exists states, steps :: Runs.IsPath(Next, states, steps) && states[0] == s && HasSentOnClosed(states[|steps|])
  }

  ghost predicate Safe(s: State) {
    s.queueClosed && !s.closer.NotCalled? && !HasSentOnClosed(s) && !HasStopChecked(s)
  }

  lemma SafeStep(s: State, step: Step, s': State)
    requires Safe(s) && Next(s, step, s')
    ensures Safe(s')
  {
    assert forall h :: 0 <= h < |s.handlers| ==> !s.handlers[h].StopChecked? && !s.handlers[h].SentOnClosed?;
  }

  /**
   The stop check and the send are two selects. Once the queue is closed a handler will panic in some
   continuation exactly when one stood between the two at that moment.
   */
  lemma PanicCondition(s: State)
    requires s.queueClosed && !s.closer.NotCalled? && !HasSentOnClosed(s)
    ensures CanPanic(s) <==> HasStopChecked(s)
  {
    if HasStopChecked(s) {
      var h :| 0 <= h < |s.handlers| && s.handlers[h].StopChecked?;
      var s' := Apply(s, TrySend(h));
      assert s'.handlers[h].SentOnClosed?;
      assert Runs.IsPath(Next, [s, s'], [TrySend(h)]);
      assert [s, s'][0] == s && HasSentOnClosed([s, s'][|[TrySend(h)]|]);
    } else if CanPanic(s) {
      var states, steps :| Runs.IsPath(Next, states, steps) && states[0] == s && HasSentOnClosed(states[|steps|]);
      forall s: State, step: Step, s': State | Safe(s) && Next(s, step, s')
        ensures Safe(s')
      {
        SafeStep(s, step, s');
      }
      Runs.Invariance(Safe, Next, states, steps, |steps|);
    }
  }

  /** Shutdown closes the queue only while no handler stands between its two selects. */
  ghost predicate QuietNext(s: State, step: Step, s': State) {
    Next(s, step, s') && (step.CloseQueue? ==> !HasStopChecked(s))
  }

  ghost predicate NeverSent(s: State) {
    && (s.queueClosed <==> !s.closer.NotCalled? && !s.closer.StopClosed?)
    && !HasSentOnClosed(s)
    && (s.queueClosed ==> !HasStopChecked(s))
  }

  lemma NeverSentStep(s: State, step: Step, s': State)
    requires NeverSent(s) && QuietNext(s, step, s')
    ensures NeverSent(s')
  {
    assert forall h :: 0 <= h < |s.handlers| ==> !s.handlers[h].SentOnClosed?;
    assert s.queueClosed || step.CloseQueue? ==> forall h :: 0 <= h < |s.handlers| ==> !s.handlers[h].StopChecked?;
  }

  /** With such a shutdown no run ever sends on the closed queue. */
  lemma QuietShutdownNeverPanics(states: seq<State>, steps: seq<Step>, n: nat)
    requires Runs.IsRun(Initial, QuietNext, states, steps) && n < |states|
    ensures !HasSentOnClosed(states[n])
  {
    forall s: State, step: Step, s': State | NeverSent(s) && QuietNext(s, step, s')
      ensures NeverSent(s')
    {
      NeverSentStep(s, step, s');
    }
    Runs.Invariance(NeverSent, QuietNext, states, steps, n);
  }

  // ----- The handlers' side -----

  /** The steps that handler `h` takes itself. */
  function OwnSteps(steps: seq<Step>, h: nat): nat {
    if steps == [] then 0
    else
      var last := steps[|steps| - 1];
      OwnSteps(steps[..|steps| - 1], h) + if last == CheckStop(h) || last == TrySend(h) then 1 else 0
  }

  function OwnStep(s: State, h: nat): Step
    requires h < |s.handlers|
  {
    if s.handlers[h].Arriving? then CheckStop(h) else TrySend(h)
  }

  predicate IsOver(p: Handler) {
    p.Answered? || p.SentOnClosed?
  }

  /** How many steps of its own it takes a handler to get to `p`. */
  function Progress(p: Handler): nat {
    match p
    case Arriving => 0
    case StopChecked => 1
    case Answered(verdict) => if verdict.Closing? then 1 else 2
    case SentOnClosed => 2
  }

  lemma OwnStepsMore(steps: seq<Step>, n: nat, h: nat)
    requires n < |steps|
    ensures OwnSteps(steps[..n + 1], h) == OwnSteps(steps[..n], h) + OwnSteps([steps[n]], h)
  {
    assert steps[..n + 1][..n] == steps[..n];
  }

  lemma ProgressStep(s: State, step: Step, s': State, h: nat)
    requires Next(s, step, s') && h < |s'.handlers|
    ensures |s.handlers| == |s'.handlers|
    ensures Progress(s'.handlers[h]) == Progress(s.handlers[h]) + OwnSteps([step], h)
  {
  }

  /**
   A handler never waits: at every point of every run, whatever the others do in between, it has its answer
   or can take its next step at once, and it has its answer after two steps of its own, one when the server is stopping.
   */
  lemma {:induction false} HandlerNeverWaits(states: seq<State>, steps: seq<Step>, n: nat, h: nat)
    requires Runs.IsRun(Initial, Next, states, steps) && n < |states| && h < |states[n].handlers|
    ensures IsOver(states[n].handlers[h]) || Enabled(states[n], OwnStep(states[n], h))
    ensures OwnSteps(steps[..n], h) == Progress(states[n].handlers[h]) <= 2
  {
    if n > 0 {
      ProgressStep(states[n - 1], steps[n - 1], states[n], h);
      HandlerNeverWaits(states, steps, n - 1, h);
      OwnStepsMore(steps, n - 1, h);
    }
  }

  /** `step`, taken in `s`, is the select that gives handler `h` its answer, and the answer is right. */
  predicate Decides(s: State, step: Step, h: nat, verdict: Verdict) {
    match verdict
    case Accepted => step == TrySend(h) && !s.queueClosed && |s.queue| < 20
    case Full => step == TrySend(h) && !s.queueClosed && |s.queue| == 20
    case Closing => step == CheckStop(h) && !s.closer.NotCalled?
  }

  /**
   However handlers, worker and closing routine interleave, the answer a handler has tells of the moment of
   its own select: the queue had room and took its request, was full, or the stop channel was closed.
   */
  lemma {:induction false} AnswerTellsQueue(states: seq<State>, steps: seq<Step>, n: nat, h: nat) returns (k: nat)
    requires Runs.IsRun(Initial, Next, states, steps) && n < |states|
    requires h < |states[n].handlers| && states[n].handlers[h].Answered?
    ensures k < n && Decides(states[k], steps[k], h, states[n].handlers[h].verdict)
    ensures states[k + 1].accepted ==
            states[k].accepted + if states[n].handlers[h].verdict.Accepted? then [Ticket(h)] else []
  {
    k := n - 1;
    assert Next(states[k], steps[k], states[n]);
    if states[k].handlers[h] == states[n].handlers[h] {
      k := AnswerTellsQueue(states, steps, k, h);
    } else {
      QueueIsSound(states, steps, k);
    }
  }
}

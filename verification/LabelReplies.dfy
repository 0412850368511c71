/**
 Replies to newly added labels. Any number of handlers, for pull requests and issues alike,
 take the comment lock, list the comments, and post the configured messages that are missing.
 */
module LabelReplies {
  import opened Wrappers
  import opened Strings
  import opened Selection
  import Runs

  const PLACEHOLDER: string := "USERNAME"

  datatype Comment = Comment(user: string, body: string)

  datatype LabelResponse = LabelResponse(name: string, message: string)

  /** What one handler was called for: the label added to an issue, its author and the messages configured. */
  datatype Job = Job(issue: nat, added: string, author: string, config: seq<LabelResponse>)

  /** The comment a configured message becomes on this issue. */
  function Expanded(job: Job, k: nat): string
    requires k < |job.config|
  {
    ReplaceAll(job.config[k].message, PLACEHOLDER, job.author)
  }

  predicate Asked(job: Job, k: nat)
    requires k < |job.config|
  {
    job.config[k].name == job.added
  }

  predicate Says(comment: Comment, user: string, text: string) {
    comment.user == user && Contains(comment.body, text)
  }

  predicate Said(comments: seq<Comment>, user: string, text: string) {
    exists i :: 0 <= i < |comments| && Says(comments[i], user, text)
  }

  lemma SaidItself(comments: seq<Comment>, user: string, text: string)
    requires Comment(user, text) in comments
    ensures Said(comments, user, text)
  {
    var i :| 0 <= i < |comments| && comments[i] == Comment(user, text);
    assert OccursAt(text, text, 0);
    assert Says(comments[i], user, text);
  }

  // ----- One handler by itself -----

  method MessageByUserContains(comments: seq<Comment>, username: string, text: string) returns (found: bool)
    ensures found <==> exists i :: 0 <= i < |comments| && comments[i].user == username && Contains(comments[i].body, text)
    ensures found <==> Said(comments, username, text)
  {
    for i := 0 to |comments|
      invariant forall j :: 0 <= j < i ==> !Says(comments[j], username, text)
    {
      if comments[i].user == username && Contains(comments[i].body, text) {
        assert Says(comments[i], username, text);
        return true;
      }
    }
    return false;
  }

  /** The listing lacks the message of entry `k`, which is asked for, and the comment arrives. */
  ghost predicate IsPosted(bot: string, job: Job, listing: seq<Comment>, lost: set<nat>, k: nat)
    requires k < |job.config|
  {
    Asked(job, k) && !Said(listing, bot, Expanded(job, k)) && k !in lost
  }

  /** `added` are the messages posted for the first `n` entries, in order; `at` tells which entries they are of. */
  ghost predicate Answers(
      bot: string, job: Job, listing: seq<Comment>, lost: set<nat>, n: nat, at: seq<nat>, added: seq<Comment>)
  {
    && n <= |job.config| && Positions(at, n) && |added| == |at|
    && (forall k :: 0 <= k < n ==> (k in at <==> IsPosted(bot, job, listing, lost, k)))
    && forall j :: 0 <= j < |at| ==> added[j] == Comment(bot, Expanded(job, at[j]))
  }

  /** What the entry after the first `n` adds. */
  function Reply(bot: string, job: Job, listing: seq<Comment>, lost: set<nat>, n: nat): seq<Comment>
    requires n < |job.config|
  {
    if Asked(job, n) && !Said(listing, bot, Expanded(job, n)) && n !in lost then [Comment(bot, Expanded(job, n))] else []
  }

  lemma AnswersMore(
      bot: string, job: Job, listing: seq<Comment>, lost: set<nat>, n: nat, at: seq<nat>, added: seq<Comment>)
      returns (at': seq<nat>)
    requires Answers(bot, job, listing, lost, n, at, added) && n < |job.config|
    ensures Answers(bot, job, listing, lost, n + 1, at', added + Reply(bot, job, listing, lost, n))
  {
    PositionsMore(at, n);
    at' := if IsPosted(bot, job, listing, lost, n) then at + [n] else at;
  }

  class Thread {
    var comments: seq<Comment>

    /** `listed` tells whether the comments could be listed, `lost` for which entries a comment does not arrive. */
    method HandleLabeled(bot: string, job: Job, listed: bool, lost: set<nat>) returns (ok: bool, ghost at: seq<nat>)
      modifies this
      ensures ok <==> listed
      ensures old(comments) <= comments && (!ok ==> comments == old(comments))
      ensures ok ==> Answers(bot, job, old(comments), lost, |job.config|, at, comments[|old(comments)|..])
      ensures forall i :: |old(comments)| <= i < |comments| ==>
        comments[i].user == bot && !Said(old(comments), bot, comments[i].body)
      ensures ok ==> forall k :: 0 <= k < |job.config| && job.config[k].name == job.added && k !in lost ==>
        var text := ReplaceAll(job.config[k].message, "USERNAME", job.author);
        Said(old(comments), bot, text) || Comment(bot, text) in comments[|old(comments)|..]
    {
      at := [];
      if !listed {
        return false, at;
      }
      var listing := comments;
      for k := 0 to |job.config|
        invariant listing <= comments && Answers(bot, job, listing, lost, k, at, comments[|listing|..])
      {
        ghost var added := comments[|listing|..];
        var finalMessage := ReplaceAll(job.config[k].message, PLACEHOLDER, job.author);
        at := AnswersMore(bot, job, listing, lost, k, at, added);
        if job.config[k].name == job.added {
          var found := MessageByUserContains(listing, bot, finalMessage);
          if !found && k !in lost {
            comments := comments + [Comment(bot, finalMessage)];
          }
        }
        assert comments[|listing|..] == added + Reply(bot, job, listing, lost, k);
      }
      NoneSaidTwice(bot, job, listing, lost, at, comments[|listing|..]);
      return true, at;
    }
  }

  /** What `Answers` means for each message. */
  lemma NoneSaidTwice(
      bot: string, job: Job, listing: seq<Comment>, lost: set<nat>, at: seq<nat>, added: seq<Comment>)
    requires Answers(bot, job, listing, lost, |job.config|, at, added)
    ensures forall j :: 0 <= j < |added| ==> added[j].user == bot && !Said(listing, bot, added[j].body)
    ensures forall k :: 0 <= k < |job.config| && Asked(job, k) && k !in lost ==>
      Said(listing, bot, Expanded(job, k)) || Comment(bot, Expanded(job, k)) in added
  {
    forall j | 0 <= j < |added|
      ensures !Said(listing, bot, added[j].body)
    {
      assert at[j] in at;
    }
    forall k | 0 <= k < |job.config| && Asked(job, k) && k !in lost && !Said(listing, bot, Expanded(job, k))
      ensures Comment(bot, Expanded(job, k)) in added
    {
      assert IsPosted(bot, job, listing, lost, k);
      var j :| 0 <= j < |at| && at[j] == k;
      assert added[j] == Comment(bot, Expanded(job, k));
    }
  }

  // ----- What to configure -----

  /** The messages configured for the added label stay different when the author's name is filled in. */
  ghost predicate DistinctReplies(job: Job) {
    forall a, b :: 0 <= a < b < |job.config| && Asked(job, a) && Asked(job, b) ==> Expanded(job, a) != Expanded(job, b)
  }

  /** The messages configured for the added label, as written, differ. */
  ghost predicate DistinctMessages(job: Job) {
    forall a, b :: 0 <= a < b < |job.config| && Asked(job, a) && Asked(job, b) ==>
      job.config[a].message != job.config[b].message
  }

  ghost predicate PlainMessages(job: Job) {
    forall k :: 0 <= k < |job.config| && Asked(job, k) ==> !Contains(job.config[k].message, PLACEHOLDER)
  }

  /** Messages that do not name the author are posted as written: it is enough that the configured texts differ. */
  lemma PlainMessagesStayDistinct(job: Job)
    requires PlainMessages(job)
    ensures DistinctReplies(job) <==> DistinctMessages(job)
  {
    forall k | 0 <= k < |job.config| && Asked(job, k)
      ensures Expanded(job, k) == job.config[k].message
    {
      NothingToReplace(job.config[k].message, PLACEHOLDER, job.author);
    }
  }

  /** With the placeholder it is not: one message may turn into another that spells the author's name out. */
  lemma DistinctMessagesMayMerge(name: string, author: string)
    requires !Contains(author, PLACEHOLDER)
    ensures
      var job := Job(0, name, author, [LabelResponse(name, PLACEHOLDER), LabelResponse(name, author)]);
      DistinctMessages(job) && !DistinctReplies(job)
  {
    var job := Job(0, name, author, [LabelResponse(name, PLACEHOLDER), LabelResponse(name, author)]);
    assert OccursAt(PLACEHOLDER, PLACEHOLDER, 0);
    ReplacesFirst(PLACEHOLDER, PLACEHOLDER, author, 0);
    NothingToReplace(author, PLACEHOLDER, author);
    assert Asked(job, 0) && Asked(job, 1);
    assert Expanded(job, 0) == author == Expanded(job, 1);
  }

  // ----- Handlers running together -----

  datatype Handler =
    | Called
    | Locked
    | Replying(listing: seq<Comment>, next: nat, clean: bool)
    | Finished(clean: bool)

  datatype Post = Post(issue: nat, body: string)

  datatype State = State(
    bot: string,
    jobs: seq<Job>,
    handlers: seq<Handler>,
    lock: Option<nat>,
    threads: map<nat, seq<Comment>>,
    posts: seq<Post>)

  /** Sending a comment works, fails, or works and reports an error. */
  datatype Sending = Sent | NotSent | ReplyLost

  datatype Step =
    | TakeLock(h: nat)
    | ListComments(h: nat)
    | ListingFails(h: nat)
    | Entry(h: nat, sending: Sending)
    | Leave(h: nat)
    | SomebodyComments(issue: nat, comment: Comment)

  function ThreadOf(s: State, issue: nat): seq<Comment> {
    if issue in s.threads then s.threads[issue] else []
  }

  function WithComment(s: State, issue: nat, comment: Comment): State {
    s.(threads := s.threads[issue := ThreadOf(s, issue) + [comment]])
  }

  ghost predicate WellFormed(s: State) {
    |s.handlers| == |s.jobs|
  }

  ghost predicate Initial(s: State) {
    && WellFormed(s)
    && (forall h :: 0 <= h < |s.handlers| ==> s.handlers[h].Called?)
    && s.lock.None? && s.posts == []
  }

  predicate Enabled(s: State, step: Step) {
    if step.SomebodyComments? then true
    else if |s.handlers| <= step.h || |s.jobs| <= step.h then false
    else
      var p := s.handlers[step.h];
      match step
      case TakeLock(_) => p.Called? && s.lock.None?
      case ListComments(_) => p.Locked?
      case ListingFails(_) => p.Locked?
      case Entry(h, _) => p.Replying? && p.next < |s.jobs[h].config|
      case Leave(h) => p.Replying? && p.next == |s.jobs[h].config|
  }

  /** The next configured message is asked for and was not said when the comments were listed. */
  predicate Due(s: State, h: nat)
    requires h < |s.handlers| && h < |s.jobs|
    requires s.handlers[h].Replying? && s.handlers[h].next < |s.jobs[h].config|
  {
    var p := s.handlers[h];
    Asked(s.jobs[h], p.next) && !Said(p.listing, s.bot, Expanded(s.jobs[h], p.next))
  }

  function With(s: State, h: nat, p: Handler): State
    requires h < |s.handlers|
  {
    s.(handlers := s.handlers[h := p])
  }

  function Apply(s: State, step: Step): State
    requires Enabled(s, step)
  {
    match step
    case TakeLock(h) => With(s, h, Locked).(lock := Some(h))
    case ListComments(h) => With(s, h, Replying(ThreadOf(s, s.jobs[h].issue), 0, true))
    case ListingFails(h) => With(s, h, Finished(false)).(lock := None)
    case Entry(h, sending) =>
      var p := s.handlers[h];
      var job := s.jobs[h];
      if Due(s, h) then
        var body := Expanded(job, p.next);
        var s1 := if sending.NotSent? then s
                  else WithComment(s, job.issue, Comment(s.bot, body)).(posts := s.posts + [Post(job.issue, body)]);
        With(s1, h, p.(next := p.next + 1, clean := p.clean && !sending.NotSent?))
      else
        With(s, h, p.(next := p.next + 1))
    case Leave(h) => With(s, h, Finished(s.handlers[h].clean)).(lock := None)
    case SomebodyComments(issue, comment) => WithComment(s, issue, comment)
  }

  ghost predicate Next(s: State, step: Step, s': State) {
    Enabled(s, step) && s' == Apply(s, step)
  }

  // ----- At most once -----

  ghost predicate AllDistinct(s: State) {
    forall h :: 0 <= h < |s.jobs| ==> DistinctReplies(s.jobs[h])
  }

  ghost predicate PostedAtMostOnce(posts: seq<Post>) {
    forall p, q :: 0 <= p < q < |posts| ==> posts[p] != posts[q]
  }

  ghost predicate LockHeld(s: State) {
    forall h :: 0 <= h < |s.handlers| ==>
      (s.handlers[h].Locked? || s.handlers[h].Replying? <==> s.lock == Some(h))
  }

  ghost predicate PostsStay(s: State) {
    forall p :: 0 <= p < |s.posts| ==> Comment(s.bot, s.posts[p].body) in ThreadOf(s, s.posts[p].issue)
  }

  /** `body` was posted by this handler for one of the entries it has passed. */
  ghost predicate PostedHere(job: Job, next: nat, body: string) {
    exists k :: 0 <= k < next && k < |job.config| && Asked(job, k) && Expanded(job, k) == body
  }

  /** Whatever was posted to the issue of a running handler was listed by it, or posted by it since. */
  ghost predicate ListingFresh(s: State) {
    forall h, p ::
      (0 <= h < |s.handlers| && h < |s.jobs| && s.handlers[h].Replying?
      && 0 <= p < |s.posts| && s.posts[p].issue == s.jobs[h].issue) ==>
        || Comment(s.bot, s.posts[p].body) in s.handlers[h].listing
        || PostedHere(s.jobs[h], s.handlers[h].next, s.posts[p].body)
  }

  ghost predicate Orderly(s: State) {
    WellFormed(s) && AllDistinct(s) && LockHeld(s) && PostsStay(s) && ListingFresh(s) && PostedAtMostOnce(s.posts)
  }

  lemma DueIsNew(s: State, h: nat)
    requires Orderly(s) && h < |s.handlers| && s.handlers[h].Replying?
    requires s.handlers[h].next < |s.jobs[h].config| && Due(s, h)
    ensures Post(s.jobs[h].issue, Expanded(s.jobs[h], s.handlers[h].next)) !in s.posts
  {
    var job := s.jobs[h];
    var body := Expanded(job, s.handlers[h].next);
    if Post(job.issue, body) in s.posts {
      var p :| 0 <= p < |s.posts| && s.posts[p] == Post(job.issue, body);
      if Comment(s.bot, body) in s.handlers[h].listing {
        SaidItself(s.handlers[h].listing, s.bot, body);
      }
      assert false;
    }
  }

  lemma LockHeldKept(s: State, step: Step, s': State)
    requires WellFormed(s) && LockHeld(s) && Next(s, step, s')
    ensures WellFormed(s') && LockHeld(s')
  {
  }

  lemma PostsStayKept(s: State, step: Step, s': State)
    requires WellFormed(s) && PostsStay(s) && Next(s, step, s')
    ensures PostsStay(s')
  {
  }

  lemma ListingFreshKept(s: State, step: Step, s': State)
    requires Orderly(s) && Next(s, step, s')
    ensures ListingFresh(s')
  {
    if step.Entry? {
      var h := step.h;
      var job := s.jobs[h];
      var next := s.handlers[h].next;
      forall p | 0 <= p < |s'.posts| && s'.posts[p].issue == job.issue
        ensures Comment(s.bot, s'.posts[p].body) in s.handlers[h].listing || PostedHere(job, next + 1, s'.posts[p].body)
      {
        if p < |s.posts| && PostedHere(job, next, s.posts[p].body) {
          var k :| 0 <= k < next && k < |job.config| && Asked(job, k) && Expanded(job, k) == s.posts[p].body;
          assert Asked(job, k) && k < next + 1;
        } else if p == |s.posts| {
          assert Asked(job, next) && Expanded(job, next) == s'.posts[p].body;
        }
      }
    }
  }

  lemma OrderlyKept(s: State, step: Step, s': State)
    requires Orderly(s) && Next(s, step, s')
    ensures Orderly(s')
  {
    LockHeldKept(s, step, s');
    PostsStayKept(s, step, s');
    ListingFreshKept(s, step, s');
    if step.Entry? && Due(s, step.h) {
      DueIsNew(s, step.h);
    }
  }

  /** Handlers never post the same message twice to the same issue, however they interleave with each other and with other comments. */
  lemma AtMostOnce(states: seq<State>, steps: seq<Step>, n: nat)
    requires Runs.IsRun(Initial, Next, states, steps) && n < |states|
    requires AllDistinct(states[0])
    ensures PostedAtMostOnce(states[n].posts)
  {
    forall s: State, step: Step, s': State | Orderly(s) && Next(s, step, s')
      ensures Orderly(s')
    {
      OrderlyKept(s, step, s');
    }
    Runs.Invariance(Orderly, Next, states, steps, n);
  }

  // ----- Where the guarantee ends -----

  ghost predicate NeverRepeats(jobs: seq<Job>) {
    forall states: seq<State>, steps: seq<Step>, n: nat ::
      (Runs.IsRun(Initial, Next, states, steps) && states[0].jobs == jobs && 0 <= n < |states|) ==>
      PostedAtMostOnce(states[n].posts)
  }

  /** `later` is `s` with the comments `added` to the issue, each recorded as a post. */
  ghost predicate Posts(s: State, issue: nat, added: seq<Comment>, later: State) {
    && later.jobs == s.jobs && later.bot == s.bot && |later.handlers| == |s.handlers|
    && (forall other :: ThreadOf(later, other) == if other == issue then ThreadOf(s, issue) + added else ThreadOf(s, other))
    && |later.posts| == |s.posts| + |added| && s.posts <= later.posts
    && forall j :: 0 <= j < |added| ==> later.posts[|s.posts| + j] == Post(issue, added[j].body)
  }

  /** The handler goes through the first `n` entries, nobody coming in between. */
  lemma {:induction false} SendAll(s: State, h: nat, lost: set<nat>, n: nat)
      returns (states: seq<State>, steps: seq<Step>, at: seq<nat>, added: seq<Comment>)
    requires h < |s.handlers| && h < |s.jobs| && s.handlers[h].Replying? && s.handlers[h].next == 0
    requires n <= |s.jobs[h].config|
    ensures Runs.IsPath(Next, states, steps) && states[0] == s && Posts(s, s.jobs[h].issue, added, states[|steps|])
    ensures Answers(s.bot, s.jobs[h], s.handlers[h].listing, lost, n, at, added)
    ensures
      var p := states[|steps|].handlers[h];
      p.Replying? && p.next == n && p.listing == s.handlers[h].listing
    ensures states[|steps|].lock == s.lock
  {
    if n == 0 {
      states, steps, at, added := [s], [], [], [];
    } else {
      states, steps, at, added := SendAll(s, h, lost, n - 1);
      var last, listing := states[|steps|], s.handlers[h].listing;
      var step := Entry(h, if n - 1 in lost then NotSent else Sent);
      var reply := Reply(s.bot, s.jobs[h], listing, lost, n - 1);
      PostsOne(s, last, step, added, reply);
      Runs.Extend(Next, states, steps, step, Apply(last, step));
      at := AnswersMore(s.bot, s.jobs[h], listing, lost, n - 1, at, added);
      states, steps, added := states + [Apply(last, step)], steps + [step], added + reply;
    }
  }

  lemma PostsOne(s: State, last: State, step: Step, added: seq<Comment>, reply: seq<Comment>)
    requires step.Entry? && step.h < |s.jobs| && !step.sending.ReplyLost? && Enabled(last, step)
    requires Posts(s, s.jobs[step.h].issue, added, last)
    requires
      var p := last.handlers[step.h];
      var lost := if step.sending.NotSent? then {p.next} else {};
      reply == Reply(s.bot, s.jobs[step.h], p.listing, lost, p.next)
    ensures Posts(s, s.jobs[step.h].issue, added + reply, Apply(last, step))
  {
    var issue, next := s.jobs[step.h].issue, Apply(last, step);
    if reply == [] {
      assert added + reply == added && next.threads == last.threads && next.posts == last.posts;
    } else {
      assert next.posts == last.posts + [Post(issue, reply[0].body)];
      forall other
        ensures ThreadOf(next, other) == if other == issue then ThreadOf(s, issue) + (added + reply) else ThreadOf(s, other)
      {
        assert other == issue ==> ThreadOf(next, other) == ThreadOf(s, issue) + added + reply;
      }
    }
  }

  /**
   A handler that nobody comes in between, from taking the comment lock to giving it back, does what
   HandleLabeled promises, whichever sends fail.
   */
  lemma AloneAsHandled(s: State, h: nat, lost: set<nat>)
      returns (states: seq<State>, steps: seq<Step>, at: seq<nat>, added: seq<Comment>)
    requires WellFormed(s) && h < |s.handlers| && s.handlers[h].Called? && s.lock.None?
    ensures Runs.IsPath(Next, states, steps) && states[0] == s
    ensures Answers(s.bot, s.jobs[h], ThreadOf(s, s.jobs[h].issue), lost, |s.jobs[h].config|, at, added)
    ensures Posts(s, s.jobs[h].issue, added, states[|steps|])
    ensures states[|steps|].handlers[h].Finished? && states[|steps|].lock.None?
  {
    var s1 := Apply(s, TakeLock(h));
    var s2 := Apply(s1, ListComments(h));
    states, steps, at, added := SendAll(s2, h, lost, |s.jobs[h].config|);
    var last := states[|steps|];
    var end := Apply(last, Leave(h));
    assert forall issue :: ThreadOf(s2, issue) == ThreadOf(s, issue) && ThreadOf(end, issue) == ThreadOf(last, issue);
    Runs.Extend(Next, states, steps, Leave(h), end);
    states, steps := [s, s1] + (states + [end]), [TakeLock(h), ListComments(h)] + (steps + [Leave(h)]);
  }

  lemma RepeatedReply(jobs: seq<Job>, h: nat, a: nat, b: nat)
    requires h < |jobs| && a < b < |jobs[h].config| && Asked(jobs[h], a) && Asked(jobs[h], b)
    requires Expanded(jobs[h], a) == Expanded(jobs[h], b)
    ensures !NeverRepeats(jobs)
  {
    var s0 := State("", jobs, seq(|jobs|, _ => Called), None, map[], []);
    var states, steps, at, added := AloneAsHandled(s0, h, {});
    var posts := states[|steps|].posts;
    assert IsPosted("", jobs[h], [], {}, a) && IsPosted("", jobs[h], [], {}, b);
    var p :| 0 <= p < |at| && at[p] == a;
    var q :| 0 <= q < |at| && at[q] == b;
    assert posts[p] == posts[q];
    assert !PostedAtMostOnce(posts);
    assert Runs.IsRun(Initial, Next, states, steps);
  }

  /** Messages are never repeated in any run exactly when those configured for one label differ after expansion. */
  lemma AtMostOnceCondition(jobs: seq<Job>)
    ensures NeverRepeats(jobs) <==> forall h :: 0 <= h < |jobs| ==> DistinctReplies(jobs[h])
  {
    if forall h :: 0 <= h < |jobs| ==> DistinctReplies(jobs[h]) {
      forall states: seq<State>, steps: seq<Step>, n: nat | Runs.IsRun(Initial, Next, states, steps) && states[0].jobs == jobs && 0 <= n < |states|
        ensures PostedAtMostOnce(states[n].posts)
      {
        AtMostOnce(states, steps, n);
      }
    } else {
      var h :| 0 <= h < |jobs| && !DistinctReplies(jobs[h]);
      var a, b :| 0 <= a < b < |jobs[h].config| && Asked(jobs[h], a) && Asked(jobs[h], b)
                  && Expanded(jobs[h], a) == Expanded(jobs[h], b);
      RepeatedReply(jobs, h, a, b);
    }
  }

  // ----- At least once -----

  /** The message of each entry asked for among the first `n` has been said on the issue. */
  ghost predicate SaidUpTo(s: State, job: Job, n: nat) {
    forall k :: 0 <= k < n && k < |job.config| && Asked(job, k) ==> Said(ThreadOf(s, job.issue), s.bot, Expanded(job, k))
  }

  ghost predicate RepliesMade(s: State) {
    forall h :: 0 <= h < |s.handlers| && h < |s.jobs| ==>
      match s.handlers[h]
      case Replying(listing, next, clean) =>
        listing <= ThreadOf(s, s.jobs[h].issue) && (clean ==> SaidUpTo(s, s.jobs[h], next))
      case Finished(clean) => clean ==> SaidUpTo(s, s.jobs[h], |s.jobs[h].config|)
      case _ => true
  }

  lemma SaidGrows(comments: seq<Comment>, more: seq<Comment>, user: string, text: string)
    requires comments <= more && Said(comments, user, text)
    ensures Said(more, user, text)
  {
    var i :| 0 <= i < |comments| && Says(comments[i], user, text);
    assert Says(more[i], user, text);
  }

  lemma SaidUpToGrows(s: State, s': State, job: Job, n: nat)
    requires SaidUpTo(s, job, n) && s'.bot == s.bot && ThreadOf(s, job.issue) <= ThreadOf(s', job.issue)
    ensures SaidUpTo(s', job, n)
  {
    forall k | 0 <= k < n && k < |job.config| && Asked(job, k)
      ensures Said(ThreadOf(s', job.issue), s'.bot, Expanded(job, k))
    {
      SaidGrows(ThreadOf(s, job.issue), ThreadOf(s', job.issue), s.bot, Expanded(job, k));
    }
  }

  lemma ThreadsGrow(s: State, step: Step, s': State, issue: nat)
    requires Next(s, step, s')
    ensures ThreadOf(s, issue) <= ThreadOf(s', issue) && s'.bot == s.bot && s'.jobs == s.jobs
  {
  }

  lemma EntrySays(s: State, step: Step, s': State)
    requires WellFormed(s) && RepliesMade(s) && Next(s, step, s') && step.Entry?
    ensures s'.handlers[step.h].clean ==> SaidUpTo(s', s.jobs[step.h], s'.handlers[step.h].next)
  {
    var job := s.jobs[step.h];
    var next := s.handlers[step.h].next;
    ThreadsGrow(s, step, s', job.issue);
    if s'.handlers[step.h].clean {
      SaidUpToGrows(s, s', job, next);
      if Asked(job, next) {
        var text := Expanded(job, next);
        var thread := ThreadOf(s', job.issue);
        if Due(s, step.h) {
          assert thread[|thread| - 1] == Comment(s.bot, text);
          SaidItself(thread, s.bot, text);
        } else {
          SaidGrows(s.handlers[step.h].listing, thread, s.bot, text);
        }
      }
    }
  }

  lemma RepliesMadeKept(s: State, step: Step, s': State)
    requires WellFormed(s) && RepliesMade(s) && Next(s, step, s')
    ensures WellFormed(s') && RepliesMade(s')
  {
    if step.Entry? {
      EntrySays(s, step, s');
    }
    forall h | 0 <= h < |s'.handlers| && h < |s'.jobs|
      ensures
        match s'.handlers[h]
        case Replying(listing, next, clean) =>
          listing <= ThreadOf(s', s'.jobs[h].issue) && (clean ==> SaidUpTo(s', s'.jobs[h], next))
        case Finished(clean) => clean ==> SaidUpTo(s', s'.jobs[h], |s'.jobs[h].config|)
        case _ => true
    {
      var job := s.jobs[h];
      ThreadsGrow(s, step, s', job.issue);
      match s.handlers[h]
      case Replying(_, next, clean) =>
        if clean && (step.SomebodyComments? || step.h != h || step.Leave?) {
          SaidUpToGrows(s, s', job, next);
        }
      case Finished(clean) =>
        if clean {
          SaidUpToGrows(s, s', job, |job.config|);
        }
      case _ =>
    }
  }

  ghost predicate RepliesSound(s: State) {
    WellFormed(s) && RepliesMade(s)
  }

  /** When a handler has finished without a failed listing or a failed send, the bot has said every message asked for. */
  lemma CleanHandlerHasReplied(states: seq<State>, steps: seq<Step>, n: nat, h: nat, k: nat)
    requires Runs.IsRun(Initial, Next, states, steps) && n < |states|
    requires h < |states[n].handlers| && states[n].handlers[h] == Finished(true)
    requires h < |states[n].jobs| && k < |states[n].jobs[h].config| && Asked(states[n].jobs[h], k)
    ensures Said(ThreadOf(states[n], states[n].jobs[h].issue), states[n].bot, Expanded(states[n].jobs[h], k))
  {
    forall s: State, step: Step, s': State | RepliesSound(s) && Next(s, step, s')
      ensures RepliesSound(s')
    {
      RepliesMadeKept(s, step, s');
    }
    Runs.Invariance(RepliesSound, Next, states, steps, n);
    assert SaidUpTo(states[n], states[n].jobs[h], |states[n].jobs[h].config|);
  }
}

/** The handlers in front of the cherry-pick queue, each taken on its own. */
module CherryPickHandler {
  import opened Wrappers
  import opened Strings
  import opened Selection
  import Runs
  import Queue = CherryPickQueue

  const COMMAND: string := "/cherry-pick"
  const APPROVED: string := "CherryPick/Approved"
  const CLOUD: string := "cloud"

  // ----- The command -----

  predicate HasCherryPick(body: string) {
    Contains(TrimSpace(body), COMMAND)
  }

  /** The text from the first command on; slicing from a missing command panics. */
  function GetCommand(command: string): string
    requires Contains(command, COMMAND)
  {
    command[Index(command, COMMAND)..]
  }

  /** The guard looks at the trimmed body and the handler at the whole one, yet they agree. */
  lemma GuardMatchesCommand(body: string)
    ensures HasCherryPick(body) <==> Contains(body, COMMAND)
  {
    TrimSpaceKeeps(body, COMMAND);
  }

  /** GetCommand returns the longest suffix that starts with the command, and does nothing to its own result. */
  lemma CommandIsSuffix(body: string)
    requires HasCherryPick(body)
    ensures Contains(body, COMMAND)
    ensures
      var c := GetCommand(body);
      && COMMAND <= c
      && |c| <= |body| && body[|body| - |c|..] == c
      && (forall i :: 0 <= i < |body| - |c| ==> !(COMMAND <= body[i..]))
      && Contains(c, COMMAND)
      && GetCommand(c) == c
  {
    GuardMatchesCommand(body);
    var at := Index(body, COMMAND);
    var c := body[at..];
    assert c[..|COMMAND|] == body[at..at + |COMMAND|];
    assert OccursAt(c, COMMAND, 0);
    forall i | 0 <= i < at
      ensures !(COMMAND <= body[i..])
    {
      assert !OccursAt(body, COMMAND, i);
    }
    assert Index(c, COMMAND) == 0;
  }

  /** The command has an argument: a space follows it somewhere. */
  predicate HasArgument(body: string)
    requires Contains(body, COMMAND)
  {
    |Split(GetCommand(body), ' ')| >= 2
  }

  /** The version asked for. */
  function Version(body: string): string
    requires Contains(body, COMMAND) && HasArgument(body)
  {
    TrimSpace(Split(GetCommand(body), ' ')[1])
  }

  /** The argument stands between the first two spaces behind the command; whatever sticks to the command is not part of it. */
  lemma ArgumentFollowsCommand(body: string) returns (first: string, word: string, rest: string)
    requires Contains(body, COMMAND) && HasArgument(body)
    ensures GetCommand(body) == first + [' '] + (word + rest) && Version(body) == TrimSpace(word)
    ensures COMMAND <= first && ' ' !in first && ' ' !in word && (rest == "" || rest[0] == ' ')
  {
    var command := GetCommand(body);
    first, word := Split(command, ' ')[0], Split(command, ' ')[1];
    rest := SecondPiece(command, ' ');
    PiecesHaveNoSeparator(command, ' ', 0);
    PiecesHaveNoSeparator(command, ' ', 1);
    assert command[..|COMMAND|] == COMMAND;
    PrefixBeforeSeparator(COMMAND, first, ' ', word + rest);
  }

  /** The version is the argument less the other white space around it; a second space in a row makes it empty. */
  lemma VersionFollowsCommand(body: string) returns (first: string, left: string, right: string, rest: string)
    requires Contains(body, COMMAND) && HasArgument(body)
    ensures GetCommand(body) == first + [' '] + (left + Version(body) + right + rest)
    ensures COMMAND <= first && ' ' !in first && ' ' !in left + Version(body) + right && (rest == "" || rest[0] == ' ')
    ensures AllSpace(left) && AllSpace(right) && Trimmed(Version(body))
  {
    var word;
    first, word, rest := ArgumentFollowsCommand(body);
    left, right := TrimSpaceCuts(word);
  }

  /** There is no argument exactly when no space follows the command. */
  lemma ArgumentAfterSpace(body: string)
    requires Contains(body, COMMAND)
    ensures HasArgument(body) <==> ' ' in GetCommand(body)
  {
    var command := GetCommand(body);
    JoinSplit(command, ' ');
    if !HasArgument(body) {
      PiecesHaveNoSeparator(command, ' ', 0);
    } else {
      var rest := SecondPiece(command, ' ');
      assert command[|Split(command, ' ')[0]|] == ' ';
    }
  }

  function ReleaseBranch(title: string): string {
    var milestone := TrimSuffix(TrimChar(TrimSpace(title), 'v'), ".0");
    if title != CLOUD then "release-" + milestone else milestone
  }

  /** A text that trimming 'v', and white space behind, leaves alone. */
  predicate IsBare(core: string) {
    core != "" && core[0] != 'v' && core[|core| - 1] != 'v' && !IsSpace(core[|core| - 1])
  }

  /** The milestone v5.37.0 leads to release-5.37, v5.37.1 to release-5.37.1, and the cloud milestone to itself. */
  lemma ReleaseBranchOfVersion(core: string)
    requires IsBare(core)
    ensures ReleaseBranch("v" + core) == "release-" + TrimSuffix(core, ".0")
    ensures ReleaseBranch(CLOUD) == CLOUD
  {
    var title := "v" + core;
    assert title[1..] == core;
    TrimmedStays(title);
    assert TrimChar(core, 'v') == core;
    assert TrimSpace(CLOUD) == CLOUD;
    assert TrimChar(CLOUD, 'v') == CLOUD;
  }

  function ReleaseVersion(title: string): string {
    TrimSpace(ReleaseBranch(title))
  }

  /** The title of the milestone of a version: v5.37.0 is one of 5.37. */
  predicate IsVersionTitle(title: string, version: string) {
    && title == "v" + version + ".0"
    && (version != "" ==> version[0] != 'v' && !IsSpace(version[|version| - 1]))
  }

  lemma ReleaseNameIsTrimmed(version: string)
    requires version != "" ==> !IsSpace(version[|version| - 1])
    ensures Trimmed("release-" + version)
  {
    var name := "release-" + version;
    assert name[0] == 'r' && name[|name| - 1] == if version == "" then '-' else version[|version| - 1];
  }

  lemma ReleaseVersionOfTitle(title: string, version: string)
    requires IsVersionTitle(title, version)
    ensures ReleaseVersion(title) == "release-" + version
  {
    var core := version + ".0";
    assert IsBare(core) && title == "v" + core;
    ReleaseBranchOfVersion(core);
    ReleaseNameIsTrimmed(version);
    TrimmedStays("release-" + version);
  }

  lemma ReleaseVersionOfCloud()
    ensures ReleaseVersion(CLOUD) == CLOUD
  {
    ReleaseBranchOfVersion("5");
    TrimmedStays(CLOUD);
  }

  // ----- The handlers -----

  datatype PullRequest = PullRequest(number: int, merged: bool, milestoneNumber: int, milestoneTitle: string)

  datatype Reply = Scheduled | TooMany | NoPermission

  /** The comment that tells a verdict, if any. */
  function ReplyFor(verdict: Queue.Verdict): Option<Reply> {
    match verdict
    case Accepted => Some(Scheduled)
    case Full => Some(TooMany)
    case Closing => None
  }

  /** The verdict of the two selects when nothing comes between them. */
  function Judge(stopClosed: bool, queued: nat): Queue.Verdict {
    if stopClosed then Queue.Closing else if queued < Queue.CAPACITY then Queue.Accepted else Queue.Full
  }

  datatype Request = Request(pr: PullRequest, version: string, milestone: Option<int>)

  method IsListed(list: seq<string>, user: string) returns (found: bool)
    ensures found <==> user in list
  {
    for i := 0 to |list|
      invariant user !in list[..i]
    {
      if user == list[i] {
        return true;
      }
    }
    return false;
  }

  /** The stop check and the send of the queue's protocol, with nothing in between, come to the verdict of the handlers below. */
  lemma SelectsAgree(states: seq<Queue.State>, steps: seq<Queue.Step>, n: nat, h: nat)
    requires Runs.IsRun(Queue.Initial, Queue.Next, states, steps) && n < |states|
    requires h < |states[n].handlers| && states[n].handlers[h].Arriving?
    ensures
      var s := states[n];
      var verdict := Judge(!s.closer.NotCalled?, |s.queue|);
      var s1 := Queue.Apply(s, Queue.CheckStop(h));
      var s2 := if Queue.Enabled(s1, Queue.TrySend(h)) then Queue.Apply(s1, Queue.TrySend(h)) else s1;
      && s2.handlers[h] == Queue.Answered(verdict)
      && s2.queue == s.queue + if verdict.Accepted? then [Queue.Ticket(h)] else []
  {
    Queue.QueueIsSound(states, steps, n);
  }

  /** One comment per attempt: the first ones were enqueued, the others met a full queue. */
  predicate SentAsFits(before: seq<Request>, after: seq<Request>, msgs: seq<Reply>) {
    && before <= after && |after| - |before| <= |msgs|
    && (|after| - |before| < |msgs| ==> |after| == 20)
    && forall m :: 0 <= m < |msgs| ==> msgs[m] == if m < |after| - |before| then Scheduled else TooMany
  }

  class Server {
    const orgMembers: seq<string>
    const blockListBots: seq<string>
    var stopClosed: bool
    var requestsClosed: bool
    var requests: seq<Request>

    constructor (orgMembers: seq<string>, blockListBots: seq<string>)
      ensures this.orgMembers == orgMembers && this.blockListBots == blockListBots
      ensures requests == [] && !stopClosed && !requestsClosed
    {
      this.orgMembers := orgMembers;
      this.blockListBots := blockListBots;
      stopClosed, requestsClosed, requests := false, false, [];
    }

    /** Shutdown closes the stop channel before the queue, and fills it never beyond its capacity. */
    ghost predicate Valid()
      reads this
    {
      |requests| <= Queue.CAPACITY && (requestsClosed ==> stopClosed)
    }

    /** `msg` is the comment posted on the way out, if any. */
    method HandleCherryPick(commenter: string, body: string, pr: PullRequest) returns (msg: Option<Reply>, failed: bool)
      requires Valid() && Contains(body, COMMAND)
      modifies this`requests
      ensures Valid()
      ensures
        var permitted := commenter in orgMembers && commenter !in blockListBots;
        var wanted := permitted && pr.merged && HasArgument(body);
        && (!permitted ==> msg == Some(NoPermission) && !failed && requests == old(requests))
        && (permitted && !wanted ==> msg.None? && !failed && requests == old(requests))
        && (wanted && stopClosed ==> msg.None? && failed && requests == old(requests))
        && (wanted && !stopClosed && |old(requests)| < 20 ==>
              msg == Some(Scheduled) && !failed && requests == old(requests) + [Request(pr, Version(body), None)])
        && (wanted && !stopClosed && |old(requests)| == 20 ==>
              msg == Some(TooMany) && failed && requests == old(requests))
        && (wanted ==> msg == ReplyFor(Judge(stopClosed, |old(requests)|)))
    {
      msg := None;
      var member := IsListed(orgMembers, commenter);
      var blocked := IsListed(blockListBots, commenter);
      if !member || blocked {
        return Some(NoPermission), false;
      }
      var args := Split(GetCommand(body), ' ');
      if !pr.merged {
        return msg, false;
      }
      if |args| < 2 {
        return msg, false;
      }
      if stopClosed {
        return msg, true;
      }
      if |requests| < Queue.CAPACITY {
        requests := requests + [Request(pr, TrimSpace(args[1]), None)];
        return Some(Scheduled), false;
      }
      return Some(TooMany), true;
    }

    /** `labels` is None when they cannot be listed; `msgs` are the comments posted. */
    method CheckIfNeedCherryPick(pr: PullRequest, labels: Option<seq<string>>) returns (msgs: seq<Reply>)
      requires Valid()
      modifies this`requests
      ensures Valid()
      ensures |msgs| ==
              if pr.merged && pr.milestoneNumber != 0 && pr.milestoneTitle != "" && labels.Some? && !stopClosed
              then multiset(labels.value)["CherryPick/Approved"] else 0
      ensures SentAsFits(old(requests), requests, msgs)
      ensures forall i :: |old(requests)| <= i < |requests| ==>
        requests[i].pr == pr && requests[i].milestone == Some(pr.milestoneNumber)
      ensures forall i, version :: |old(requests)| <= i < |requests| && IsVersionTitle(pr.milestoneTitle, version) ==>
        requests[i].version == "release-" + version
      ensures pr.milestoneTitle == "cloud" ==>
        forall i :: |old(requests)| <= i < |requests| ==> requests[i].version == "cloud"
    {
      if !pr.merged || pr.milestoneNumber == 0 || pr.milestoneTitle == "" || labels.None? {
        return [];
      }
      var request := Request(pr, ReleaseVersion(pr.milestoneTitle), Some(pr.milestoneNumber));
      msgs := SendEach(request, labels.value, APPROVED);
      ReleaseVersionOfCloud();
      forall version | IsVersionTitle(pr.milestoneTitle, version)
        ensures request.version == "release-" + version
      {
        ReleaseVersionOfTitle(pr.milestoneTitle, version);
      }
    }

    /** The loop over the labels: one attempt to send for each that is `approved`. */
    method SendEach(request: Request, labels: seq<string>, approved: string) returns (msgs: seq<Reply>)
      requires Valid()
      modifies this`requests
      ensures Valid()
      ensures |msgs| == if stopClosed then 0 else multiset(labels)[approved]
      ensures SentAsFits(old(requests), requests, msgs)
      ensures forall i :: |old(requests)| <= i < |requests| ==> requests[i] == request
    {
      msgs := [];
      for i := 0 to |labels|
        invariant |msgs| == if stopClosed then 0 else multiset(labels[..i])[approved]
        invariant stopClosed ==> approved !in labels[..i]
        invariant SentAsFits(old(requests), requests, msgs) && Valid()
        invariant forall m :: |old(requests)| <= m < |requests| ==> requests[m] == request
      {
        assert labels[..i + 1] == labels[..i] + [labels[i]];
        if labels[i] == approved {
          if stopClosed {
            return;
          }
          if |requests| < Queue.CAPACITY {
            requests, msgs := requests + [request], msgs + [Scheduled];
          } else {
            msgs := msgs + [TooMany];
          }
        }
      }
      assert labels[..|labels|] == labels;
    }

    /**
     Shutdown. Either the worker stops first, having received all that was queued, or the wait is over and the
     queue is drained here while the worker goes on receiving: `races` says which receives the worker wins.
     `at` are the places in the queue of the requests cancelled here.
     */
    method FinishCherryPickRequests(timedOut: bool, races: seq<bool>)
      returns (cancelled: seq<Request>, ghost at: seq<nat>)
      requires Valid() && !stopClosed
      modifies this
      ensures Valid() && stopClosed && requestsClosed && requests == []
      ensures Positions(at, |old(requests)|) && |cancelled| == |at|
      ensures forall j :: 0 <= j < |at| ==> cancelled[j] == old(requests)[at[j]]
      ensures forall i :: 0 <= i < |old(requests)| ==> (i in at <==> timedOut && !(i < |races| && races[i]))
    {
      stopClosed := true;
      requestsClosed := true;
      cancelled, at := [], [];
      if !timedOut {
        requests := [];
        return;
      }
      var turn := 0;
      while requests != []
        invariant stopClosed && requestsClosed && |requests| <= Queue.CAPACITY
        invariant turn <= |old(requests)| && requests == old(requests)[turn..]
        invariant Positions(at, turn) && |cancelled| == |at|
        invariant forall j :: 0 <= j < |at| ==> cancelled[j] == old(requests)[at[j]]
        invariant forall i :: 0 <= i < turn ==> (i in at <==> !(i < |races| && races[i]))
        decreases |requests|
      {
        var job := requests[0];
        PositionsMore(at, turn);
        if !(turn < |races| && races[turn]) {
          cancelled, at := cancelled + [job], at + [turn];
        }
        requests, turn := requests[1..], turn + 1;
      }
    }
  }
}

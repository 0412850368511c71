/** What the server does when an issue differs from its stored mirror. */
module IssueChanges {
  import opened Wrappers
  import opened PullRequestStore
  import opened Selection

  datatype Issue = Issue(key: Key, username: string, state: string, labels: seq<string>)

  type IssueTable = map<Key, Issue>

  /** The labels of `labels` that are not among `oldLabels`, in order. */
  function NewLabels(labels: seq<string>, oldLabels: seq<string>): seq<string> {
    if labels == [] then []
    else
      var last := labels[|labels| - 1];
      NewLabels(labels[..|labels| - 1], oldLabels) + if last !in oldLabels then [last] else []
  }

  /** The calls made for `labels` when a failing call is the last. */
  function UpToFailure(labels: seq<string>, fails: set<string>): seq<string> {
    if labels == [] then []
    else if labels[0] in fails then [labels[0]]
    else [labels[0]] + UpToFailure(labels[1..], fails)
  }

  predicate AllWork(labels: seq<string>, fails: set<string>) {
    forall i :: 0 <= i < |labels| ==> labels[i] !in fails
  }

  /** The filter holds the labels at the places whose label is not among the old ones, in order and each place once. */
  lemma {:induction false} NewLabelsInOrder(labels: seq<string>, oldLabels: seq<string>) returns (at: seq<nat>)
    ensures Positions(at, |labels|) && |NewLabels(labels, oldLabels)| == |at|
    ensures forall i :: 0 <= i < |labels| ==> (i in at <==> labels[i] !in oldLabels)
    ensures forall j :: 0 <= j < |at| ==> NewLabels(labels, oldLabels)[j] == labels[at[j]]
  {
    at := [];
    if labels != [] {
      var last := |labels| - 1;
      at := NewLabelsInOrder(labels[..last], oldLabels);
      PositionsMore(at, last);
      if labels[last] !in oldLabels {
        at := at + [last];
      }
    }
  }

  lemma {:induction false} NoFailure(labels: seq<string>, fails: set<string>)
    requires AllWork(labels, fails)
    ensures UpToFailure(labels, fails) == labels
  {
    if labels != [] {
      NoFailure(labels[1..], fails);
    }
  }

  lemma {:induction false} FirstFailure(before: seq<string>, name: string, after: seq<string>, fails: set<string>)
    requires AllWork(before, fails) && name in fails
    ensures UpToFailure(before + [name] + after, fails) == before + [name]
  {
    var all := before + [name] + after;
    if before == [] {
      assert all[0] == name;
    } else {
      FirstFailure(before[1..], name, after, fails);
      assert all[0] == before[0] && all[1..] == before[1..] + [name] + after;
    }
  }

  lemma {:induction false} NewLabelsSplit(labels: seq<string>, oldLabels: seq<string>, i: nat)
    requires i <= |labels|
    ensures NewLabels(labels[..i], oldLabels) <= NewLabels(labels, oldLabels)
  {
    if i < |labels| {
      NewLabelsSplit(labels[..|labels| - 1], oldLabels, i);
      assert labels[..|labels| - 1][..i] == labels[..i];
    } else {
      assert labels[..i] == labels;
    }
  }

  lemma OneMoreLabel(labels: seq<string>, oldLabels: seq<string>, i: nat)
    requires i < |labels|
    ensures NewLabels(labels[..i + 1], oldLabels) ==
            NewLabels(labels[..i], oldLabels) + if labels[i] !in oldLabels then [labels[i]] else []
  {
    assert labels[..i + 1][..i] == labels[..i];
  }

  /** The handler of the new label at `i` is the first to fail. */
  lemma FailureAt(labels: seq<string>, oldLabels: seq<string>, i: nat, fails: set<string>)
    requires i < |labels| && labels[i] !in oldLabels && labels[i] in fails
    requires AllWork(NewLabels(labels[..i], oldLabels), fails)
    ensures UpToFailure(NewLabels(labels, oldLabels), fails) == NewLabels(labels[..i], oldLabels) + [labels[i]]
    ensures !AllWork(NewLabels(labels, oldLabels), fails)
  {
    var before := NewLabels(labels[..i], oldLabels);
    var added := NewLabels(labels, oldLabels);
    OneMoreLabel(labels, oldLabels, i);
    NewLabelsSplit(labels, oldLabels, i + 1);
    assert added == before + [labels[i]] + added[|before| + 1..];
    assert added[|before|] == labels[i];
    FirstFailure(before, labels[i], added[|before| + 1..], fails);
  }

  datatype CheckError = GetFailed | HandlerFailed | SaveFailed

  class IssueServer {
    var table: IssueTable
    var handled: seq<string>

    constructor ()
      ensures table == map[] && handled == []
    {
      table, handled := map[], [];
    }

    method Save(issue: Issue, io: SaveIO) returns (ok: bool)
      modifies this`table
      ensures ok <==> io.update || (io.insert && issue.key !in old(table))
      ensures table == if (if issue.key in old(table) then io.update else io.insert) then old(table)[issue.key := issue]
                       else old(table)
    {
      if io.insert && issue.key !in table {
        table := table[issue.key := issue];
        return true;
      }
      if io.update && issue.key in table {
        table := table[issue.key := issue];
      }
      return io.update;
    }

    /**
     Every new label is handled, in order, until a handler fails; a failure leaves the stored issue as it
     was, so that the next event handles the labels again.
     */
    method CheckIssueForChanges(issue: Issue, getWorks: bool, io: SaveIO, fails: set<string>) returns (err: Option<CheckError>)
      modifies this
      ensures !getWorks ==> err == Some(GetFailed) && handled == old(handled) && table == old(table)
      ensures getWorks && issue.key !in old(table) ==>
        && handled == old(handled)
        && err == (if io.insert || io.update then None else Some(SaveFailed))
        && table == if io.insert then old(table)[issue.key := issue] else old(table)
      ensures getWorks && issue.key in old(table) ==>
        var stored := old(table)[issue.key];
        var added := NewLabels(issue.labels, stored.labels);
        var changed := stored.state != issue.state || added != [];
        && (err == Some(HandlerFailed) <==> !AllWork(added, fails))
        && handled == old(handled) + UpToFailure(added, fails)
        && (err != Some(HandlerFailed) ==> handled == old(handled) + added)
        && (err == Some(SaveFailed) <==> err != Some(HandlerFailed) && changed && !io.update)
        && table == if err.None? && changed then old(table)[issue.key := issue] else old(table)
    {
      if !getWorks {
        return Some(GetFailed);
      }
      if issue.key !in table {
        var ok := Save(issue, io);
        return if ok then None else Some(SaveFailed);
      }
      var stored := table[issue.key];
      var found, failed := HandleNewLabels(issue.labels, stored.labels, fails);
      if failed {
        return Some(HandlerFailed);
      }
      if stored.state != issue.state || found {
        var ok := Save(issue, io);
        return if ok then None else Some(SaveFailed);
      }
      return None;
    }

    /** The two nested loops over the labels. */
    method HandleNewLabels(labels: seq<string>, oldLabels: seq<string>, fails: set<string>) returns (found: bool, failed: bool)
      modifies this`handled
      ensures
        var added := NewLabels(labels, oldLabels);
        && (failed <==> !AllWork(added, fails))
        && handled == old(handled) + UpToFailure(added, fails)
        && (!failed ==> handled == old(handled) + added && (found <==> added != []))
    {
      ghost var added := NewLabels(labels, oldLabels);
      found := false;
      for i := 0 to |labels|
        invariant handled == old(handled) + NewLabels(labels[..i], oldLabels)
        invariant AllWork(NewLabels(labels[..i], oldLabels), fails)
        invariant found <==> NewLabels(labels[..i], oldLabels) != []
      {
        OneMoreLabel(labels, oldLabels, i);
        var hadLabel := false;
        for j := 0 to |oldLabels|
          invariant !hadLabel && labels[i] !in oldLabels[..j]
        {
          if labels[i] == oldLabels[j] {
            hadLabel := true;
            break;
          }
        }
        if !hadLabel {
          handled := handled + [labels[i]];
          if labels[i] in fails {
            FailureAt(labels, oldLabels, i, fails);
            return found, true;
          }
          found := true;
        }
      }
      assert labels[..|labels|] == labels;
      NoFailure(added, fails);
      return found, false;
    }
  }
}

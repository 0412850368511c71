/** What the server does when a pull request or issue differs from its stored mirror, and the pass that closes stale rows. */
module ChangeDetection {
  import opened Wrappers
  import opened PullRequestStore

  datatype LabelCall = Added(name: string) | Removed(name: string)

  // ----- Comparing -----

  /** The first element of `src` that `dst` lacks. */
  function FirstMissing(src: seq<string>, dst: seq<string>): (r: Option<string>)
    ensures r.None? <==> forall i :: 0 <= i < |src| ==> src[i] in dst
    ensures r.Some? ==> exists i :: 0 <= i < |src| && src[i] == r.value && src[i] !in dst && forall j :: 0 <= j < i ==> src[j] in dst
  {
    if src == [] then None
    else if src[0] !in dst then Some(src[0])
    else
      var r := FirstMissing(src[1..], dst);
      assert forall i :: 1 <= i < |src| ==> src[i] == src[1..][i - 1];
      r
  }

  lemma FirstMissingAt(src: seq<string>, dst: seq<string>, i: nat)
    requires IsFirstMissing(src, dst, i)
    ensures FirstMissing(src, dst) == Some(src[i])
  {
    var r := FirstMissing(src, dst);
    var k :| 0 <= k < |src| && src[k] == r.value && src[k] !in dst && forall j :: 0 <= j < k ==> src[j] in dst;
    assert !(k < i) && !(i < k);
  }

  ghost predicate SameLabels(a: seq<string>, b: seq<string>) {
    forall x :: x in a <==> x in b
  }

  /** The ten compared fields other than the labels; an absent value reads as zero. */
  function Compared(pr: PullRequest): (string, string, string, string, string, string, bool, bool, int, string) {
    (pr.columns.ref, pr.columns.sha, pr.columns.state, pr.columns.buildStatus, pr.columns.buildConclusion,
     pr.columns.buildLink, pr.columns.maintainerCanModify.GetOr(false), pr.columns.merged.GetOr(false),
     pr.milestone.number.GetOr(0), pr.milestone.title.GetOr(""))
  }

  ghost predicate Differs(pr: PullRequest, oldPr: PullRequest) {
    !SameLabels(pr.columns.labels, oldPr.columns.labels) || Compared(pr) != Compared(oldPr)
  }

  /** `src[i]` is the first element of `src` that `dst` lacks. */
  ghost predicate IsFirstMissing(src: seq<string>, dst: seq<string>, i: int) {
    0 <= i < |src| && src[i] !in dst && forall j :: 0 <= j < i ==> src[j] in dst
  }

  function LabelCalls(labels: seq<string>, oldLabels: seq<string>): seq<LabelCall> {
    match FirstMissing(labels, oldLabels)
    case Some(name) => [Added(name)]
    case None =>
      match FirstMissing(oldLabels, labels)
      case Some(name) => [Removed(name)]
      case None => []
  }

  /** One label is handled at most: the first that was added or, only if none was, the first that was removed. */
  lemma AddedBeforeRemoved(labels: seq<string>, oldLabels: seq<string>)
    ensures forall i :: IsFirstMissing(labels, oldLabels, i) ==> LabelCalls(labels, oldLabels) == [Added(labels[i])]
    ensures (forall j :: 0 <= j < |labels| ==> labels[j] in oldLabels) ==>
      forall i :: IsFirstMissing(oldLabels, labels, i) ==> LabelCalls(labels, oldLabels) == [Removed(oldLabels[i])]
    ensures LabelCalls(labels, oldLabels) == [] <==> SameLabels(labels, oldLabels)
  {
    forall i | IsFirstMissing(labels, oldLabels, i)
      ensures LabelCalls(labels, oldLabels) == [Added(labels[i])]
    {
      FirstMissingAt(labels, oldLabels, i);
    }
    forall i | IsFirstMissing(oldLabels, labels, i)
      ensures FirstMissing(oldLabels, labels) == Some(oldLabels[i])
    {
      FirstMissingAt(oldLabels, labels, i);
    }
    LabelsDiffer(labels, oldLabels);
  }

  function AddedAll(labels: seq<string>): (calls: seq<LabelCall>)
    ensures |calls| == |labels|
  {
    seq(|labels|, i requires 0 <= i < |labels| => Added(labels[i]))
  }

  predicate SameMilestone(a: Milestone, b: Milestone) {
    a.number.GetOr(0) == b.number.GetOr(0) && a.title.GetOr("") == b.title.GetOr("")
  }

  datatype Fetch = Fetched(state: string) | RateLimited | FetchFailed

  /** What GitHub answers about the pull requests it knows. */
  type GitHub = map<Key, Fetch>

  function Answer(github: GitHub, key: Key): Fetch {
    if key in github then github[key] else FetchFailed
  }

  class Server {
    const store: Store
    var handled: seq<LabelCall>

    constructor (store: Store)
      ensures this.store == store && handled == []
    {
      this.store := store;
      handled := [];
    }

    method Compare(src: seq<string>, dst: seq<string>, added: bool) returns (found: bool)
      modifies this`handled
      ensures found <==> FirstMissing(src, dst).Some?
      ensures handled == old(handled) +
        match FirstMissing(src, dst)
        case Some(name) => [if added then Added(name) else Removed(name)]
        case None => []
    {
      for i := 0 to |src|
        invariant handled == old(handled)
        invariant forall j :: 0 <= j < i ==> src[j] in dst
      {
        var hadLabel := false;
        for j := 0 to |dst|
          invariant !hadLabel && src[i] !in dst[..j]
        {
          if src[i] == dst[j] {
            hadLabel := true;
            break;
          }
        }
        if !hadLabel {
          FirstMissingAt(src, dst, i);
          handled := handled + [if added then Added(src[i]) else Removed(src[i])];
          return true;
        }
      }
      return false;
    }

    /** The ten comparisons that may set the flag of the one above. */
    method FieldsDiffer(pr: PullRequest, oldPr: PullRequest, labelsDiffer: bool) returns (prHasChanges: bool)
      ensures prHasChanges <==>
        || labelsDiffer
        || pr.columns.ref != oldPr.columns.ref
        || pr.columns.sha != oldPr.columns.sha
        || pr.columns.state != oldPr.columns.state
        || pr.columns.buildStatus != oldPr.columns.buildStatus
        || pr.columns.buildConclusion != oldPr.columns.buildConclusion
        || pr.columns.buildLink != oldPr.columns.buildLink
        || pr.columns.maintainerCanModify.GetOr(false) != oldPr.columns.maintainerCanModify.GetOr(false)
        || pr.columns.merged.GetOr(false) != oldPr.columns.merged.GetOr(false)
        || pr.milestone.number.GetOr(0) != oldPr.milestone.number.GetOr(0)
        || pr.milestone.title.GetOr("") != oldPr.milestone.title.GetOr("")
      ensures prHasChanges <==> labelsDiffer || Compared(pr) != Compared(oldPr)
    {
      prHasChanges := labelsDiffer;
      if oldPr.columns.ref != pr.columns.ref {
        prHasChanges := true;
      }
      if oldPr.columns.sha != pr.columns.sha {
        prHasChanges := true;
      }
      if oldPr.columns.state != pr.columns.state {
        prHasChanges := true;
      }
      if oldPr.columns.buildStatus != pr.columns.buildStatus {
        prHasChanges := true;
      }
      if oldPr.columns.buildConclusion != pr.columns.buildConclusion {
        prHasChanges := true;
      }
      if oldPr.columns.buildLink != pr.columns.buildLink {
        prHasChanges := true;
      }
      if oldPr.columns.maintainerCanModify.GetOr(false) != pr.columns.maintainerCanModify.GetOr(false) {
        prHasChanges := true;
      }
      if oldPr.columns.merged.GetOr(false) != pr.columns.merged.GetOr(false) {
        prHasChanges := true;
      }
      if oldPr.milestone.number.GetOr(0) != pr.milestone.number.GetOr(0) {
        prHasChanges := true;
      }
      if oldPr.milestone.title.GetOr("") != pr.milestone.title.GetOr("") {
        prHasChanges := true;
      }
    }

    method CheckPullRequestForChanges(pr: PullRequest, getWorks: bool, io: SaveIO) returns (changed: bool, failed: bool)
      modifies this`handled, store
      ensures !getWorks ==> !changed && failed && handled == old(handled) && store.table == old(store.table)
      ensures getWorks && pr.key !in old(store.table) ==>
        && !changed && !failed && handled == old(handled) + AddedAll(pr.columns.labels)
        && |handled| == |old(handled)| + |pr.columns.labels|
        && (forall i :: 0 <= i < |pr.columns.labels| ==> handled[|old(handled)| + i] == Added(pr.columns.labels[i]))
        && store.table == if io.insert then Upsert(old(store.table), pr) else old(store.table)
      ensures getWorks && pr.key in old(store.table) ==>
        var oldPr := Stored(old(store.table), pr.key).value;
        && (changed <==> Differs(pr, oldPr))
        && (failed <==> changed && !io.update)
        && handled == old(handled) + LabelCalls(pr.columns.labels, oldPr.columns.labels)
        && (forall i :: IsFirstMissing(pr.columns.labels, oldPr.columns.labels, i) ==>
              handled == old(handled) + [Added(pr.columns.labels[i])])
        && ((forall j :: 0 <= j < |pr.columns.labels| ==> pr.columns.labels[j] in oldPr.columns.labels) ==>
              forall i :: IsFirstMissing(oldPr.columns.labels, pr.columns.labels, i) ==>
                handled == old(handled) + [Removed(oldPr.columns.labels[i])])
        && (SameLabels(pr.columns.labels, oldPr.columns.labels) ==> handled == old(handled))
        && store.table == if changed && io.update then Upsert(old(store.table), pr) else old(store.table)
    {
      var r := store.Get(pr.key, getWorks);
      if r.Err? {
        return false, true;
      }
      if r.value.None? {
        var _ := store.Save(pr, io);
        for i := 0 to |pr.columns.labels|
          invariant handled == old(handled) + AddedAll(pr.columns.labels[..i])
          invariant store.table == if io.insert then Upsert(old(store.table), pr) else old(store.table)
        {
          handled := handled + [Added(pr.columns.labels[i])];
        }
        assert pr.columns.labels[..|pr.columns.labels|] == pr.columns.labels;
        return false, false;
      }
      var oldPr := r.value.value;
      var prHasChanges := Compare(pr.columns.labels, oldPr.columns.labels, true);
      if !prHasChanges {
        prHasChanges := Compare(oldPr.columns.labels, pr.columns.labels, false);
      }
      LabelsDiffer(pr.columns.labels, oldPr.columns.labels);
      AddedBeforeRemoved(pr.columns.labels, oldPr.columns.labels);
      prHasChanges := FieldsDiffer(pr, oldPr, prHasChanges);
      if prHasChanges {
        var ok := store.Save(pr, io);
        return true, !ok;
      }
      return false, false;
    }

    /**
     A pull request event: the fetched pull request is saved, then checked against what is stored. With
     nobody writing in between, the check compares the pull request with itself, except for the milestone
     that Save does not write. Labels are handled exactly when the first Save reported success without effect
     and the row can be read.
     */
    method ProcessEvent(pr: PullRequest, fetchIO: SaveIO, getWorks: bool, io: SaveIO) returns (changed: bool, failed: bool)
      modifies this`handled, store
      ensures
        var present := pr.key in old(store.table);
        var saved := fetchIO.Writes(present);
        var lost := fetchIO.Succeeds(present) && !saved;
        && (changed <==> saved && getWorks && !SameMilestone(pr.milestone, Upsert(old(store.table), pr)[pr.key].milestone))
        && (failed <==> !(fetchIO.Succeeds(present) && getWorks) || (changed && !io.update))
        && handled == old(handled) + (if lost && getWorks then AddedAll(pr.columns.labels) else [])
        && store.table == if saved || (lost && getWorks && io.insert) then Upsert(old(store.table), pr) else old(store.table)
    {
      var ok := store.Save(pr, fetchIO);
      if !ok {
        return false, true;
      }
      changed, failed := CheckPullRequestForChanges(pr, getWorks, io);
    }

    /** One turn of the pass, for a pull request that could be fetched or not. */
    method CloseIfClosed(prs: seq<PullRequest>, i: nat, github: GitHub, unsaved: set<Key>, ghost before: Table)
      requires ListsRows(before, prs) && i < |prs| && ClosedAfter(before, store.table, prs, i, github, unsaved)
      modifies store
      ensures ClosedAfter(before, store.table, prs, i + 1, github, unsaved)
    {
      var pr := prs[i];
      var pull := Answer(github, pr.key);
      CloseOne(before, store.table, prs, i, github, unsaved);
      if pull.Fetched? && pull.state == STATE_CLOSED {
        var _ := store.Save(pr.(columns := pr.columns.(state := pull.state)), SaveIO(true, pr.key !in unsaved));
      }
    }

    /** The loop over the listing; `seen` is how far it came. */
    method CloseEach(prs: seq<PullRequest>, github: GitHub, unsaved: set<Key>) returns (seen: nat)
      requires ListsRows(store.table, prs)
      modifies store
      ensures seen == Cut(prs, github, 0)
      ensures ClosedAfter(old(store.table), store.table, prs, seen, github, unsaved)
    {
      ghost var before := store.table;
      seen := 0;
      while seen < |prs|
        invariant seen <= |prs|
        invariant Cut(prs, github, 0) == Cut(prs, github, seen)
        invariant ClosedAfter(before, store.table, prs, seen, github, unsaved)
      {
        if Answer(github, prs[seen].key).RateLimited? {
          break;
        }
        CloseIfClosed(prs, seen, github, unsaved, before);
        seen := seen + 1;
      }
    }

    /** `prs` is the listing the pass works through and `seen` how far it came. */
    method CleanOutdatedPRs(listWorks: bool, github: GitHub, unsaved: set<Key>)
      returns (prs: seq<PullRequest>, seen: nat)
      modifies store
      ensures !listWorks ==> store.table == old(store.table)
      ensures listWorks ==> IsListing(old(store.table), prs) && seen <= |prs|
      ensures listWorks ==> forall j :: 0 <= j < seen && prs[j].key in github ==> github[prs[j].key] != RateLimited
      ensures listWorks && seen < |prs| ==> prs[seen].key in github && github[prs[seen].key] == RateLimited
      ensures listWorks ==> ClosedAfter(old(store.table), store.table, prs, seen, github, unsaved)
    {
      var r := store.ListOpen(listWorks);
      if r.Err? {
        return [], 0;
      }
      prs := r.value;
      seen := CloseEach(prs, github, unsaved);
    }
  }

  /** Where a pass from `from` on is cut short by the rate limit, or the end. */
  function Cut(prs: seq<PullRequest>, github: GitHub, from: nat): (n: nat)
    requires from <= |prs|
    ensures from <= n <= |prs|
    ensures forall j :: from <= j < n ==> !Answer(github, prs[j].key).RateLimited?
    ensures n < |prs| ==> Answer(github, prs[n].key).RateLimited?
    decreases |prs| - from
  {
    if from == |prs| || Answer(github, prs[from].key).RateLimited? then from else Cut(prs, github, from + 1)
  }

  /** `key` is among the first `n` of `prs`. */
  ghost predicate LookedAt(prs: seq<PullRequest>, n: nat, key: Key) {
    exists i :: 0 <= i < n && i < |prs| && prs[i].key == key
  }

  ghost predicate FoundClosed(prs: seq<PullRequest>, n: nat, key: Key, github: GitHub) {
    LookedAt(prs, n, key) && key in github && github[key] == Fetched("closed")
  }

  /** Exactly the rows found closed, and whose update worked, changed; nothing of them but their state. */
  ghost predicate ClosedAfter(
      before: Table, after: Table, prs: seq<PullRequest>, n: nat, github: GitHub, unsaved: set<Key>)
  {
    && after.Keys == before.Keys
    && forall k :: k in before ==>
         after[k] == if FoundClosed(prs, n, k, github) && k !in unsaved
                     then before[k].(columns := before[k].columns.(state := STATE_CLOSED))
                     else before[k]
  }

  /** One more pull request looked at. */
  lemma CloseOne(before: Table, after: Table, prs: seq<PullRequest>, i: nat, github: GitHub, unsaved: set<Key>)
    requires ListsRows(before, prs) && i < |prs| && ClosedAfter(before, after, prs, i, github, unsaved)
    ensures
      var pr := prs[i];
      var closed := pr.(columns := pr.columns.(state := STATE_CLOSED));
      var found := Answer(github, pr.key) == Fetched(STATE_CLOSED) && pr.key !in unsaved;
      pr.key in after && ClosedAfter(before, if found then Upsert(after, closed) else after, prs, i + 1, github, unsaved)
  {
    var key := prs[i].key;
    assert !LookedAt(prs, i, key);
    assert after[key] == before[key];
    forall k | k in before
      ensures LookedAt(prs, i + 1, k) <==> LookedAt(prs, i, k) || k == key
    {
    }
  }

  /** The two comparisons find nothing exactly when the labels agree as sets. */
  lemma LabelsDiffer(labels: seq<string>, oldLabels: seq<string>)
    ensures FirstMissing(labels, oldLabels).None? && FirstMissing(oldLabels, labels).None? <==> SameLabels(labels, oldLabels)
  {
  }

  /** After a pass without errors no row is open that GitHub reported closed. */
  lemma CleanPassLeavesNoStaleRow(
      before: Table, after: Table, prs: seq<PullRequest>, github: GitHub, unsaved: set<Key>, key: Key)
    requires IsListing(before, prs) && ClosedAfter(before, after, prs, |prs|, github, unsaved)
    requires forall k :: k in before ==> k in github && github[k].Fetched? && k !in unsaved
    requires key in OpenKeys(after)
    ensures key in OpenKeys(before) && github[key] != Fetched("closed")
  {
  }

  /**
   However often the same pull request was saved before, a check right after its Save finds no label to
   handle, and finds a change exactly when the milestone its row began with is another one: no number of
   Saves ever makes such a difference go away.
   */
  lemma ChecksAfterSaveConverge(table: Table, saves: seq<PullRequest>, pr: PullRequest)
    requires saves != [] && saves[|saves| - 1] == pr
    ensures
      var oldPr := Stored(SaveAll(table, saves), pr.key);
      && oldPr.Some?
      && LabelCalls(pr.columns.labels, oldPr.value.columns.labels) == []
      && (Differs(pr, oldPr.value) <==>
          !SameMilestone(pr.milestone, if pr.key in table then table[pr.key].milestone else NO_MILESTONE))
  {
    GetReturnsLastSave(table, saves, pr.key, |saves| - 1);
  }
}

/** The stored mirror of pull requests: a table keyed by repository and number. */
module PullRequestStore {
  import opened Wrappers

  const STATE_OPEN: string := "open"
  const STATE_CLOSED: string := "closed"

  datatype Key = Key(repoOwner: string, repoName: string, number: int)

  /** The columns that Save writes. */
  datatype Columns = Columns(
    fullName: string,
    username: string,
    ref: string,
    sha: string,
    labels: seq<string>,
    state: string,
    buildStatus: string,
    buildConclusion: string,
    buildLink: string,
    url: string,
    createdAt: int,
    maintainerCanModify: Option<bool>,
    merged: Option<bool>)

  /** The columns that the table has but Save never mentions. */
  datatype Milestone = Milestone(number: Option<int>, title: Option<string>)

  const NO_MILESTONE: Milestone := Milestone(None, None)

  datatype Row = Row(columns: Columns, milestone: Milestone)

  datatype PullRequest = PullRequest(key: Key, columns: Columns, milestone: Milestone)

  type Table = map<Key, Row>

  /** The table after a Save whose statements reach the database. */
  function Upsert(table: Table, pr: PullRequest): Table {
    table[pr.key := Row(pr.columns, if pr.key in table then table[pr.key].milestone else NO_MILESTONE)]
  }

  function Stored(table: Table, key: Key): Option<PullRequest> {
    if key in table then Some(PullRequest(key, table[key].columns, table[key].milestone)) else None
  }

  function OpenKeys(table: Table): set<Key> {
    set k | k in table && table[k].columns.state == STATE_OPEN
  }

  /** Which statements the database carries out; a duplicate key is not a failure of the database. */
  datatype SaveIO = SaveIO(insert: bool, update: bool) {
    /** A Save writes the row; `present` tells whether the key is stored already. */
    predicate Writes(present: bool) {
      if present then update else insert
    }

    /** A Save reports success: an INSERT that fails for whatever reason is followed by an UPDATE, which may meet no row. */
    predicate Succeeds(present: bool) {
      (insert && !present) || update
    }
  }

  class Store {
    var table: Table

    constructor ()
      ensures table == map[]
    {
      table := map[];
    }

    /**
     An INSERT that fails for whatever reason is followed by an UPDATE, which succeeds without effect
     when there is no row.
     */
    method Save(pr: PullRequest, io: SaveIO) returns (ok: bool)
      modifies this
      ensures pr.key !in old(table) && io.insert ==>
        ok && table == old(table)[pr.key := Row(pr.columns, NO_MILESTONE)]
      ensures pr.key in old(table) && io.update ==>
        ok && table == old(table)[pr.key := Row(pr.columns, old(table)[pr.key].milestone)]
      ensures pr.key !in old(table) && !io.insert ==> (ok <==> io.update) && table == old(table)
      ensures pr.key in old(table) && !io.update ==> !ok && table == old(table)
      ensures
        var present := pr.key in old(table);
        && (ok <==> io.Succeeds(present))
        && table == if io.Writes(present) then Upsert(old(table), pr) else old(table)
    {
      if io.insert && pr.key !in table {
        table := table[pr.key := Row(pr.columns, NO_MILESTONE)];
        return true;
      }
      if !io.update {
        return false;
      }
      if pr.key in table {
        table := table[pr.key := Row(pr.columns, table[pr.key].milestone)];
      }
      return true;
    }

    method Get(key: Key, works: bool) returns (r: Result<Option<PullRequest>, string>)
      ensures r.Ok? <==> works
      ensures works && key in table ==>
        r.value == Some(PullRequest(key, table[key].columns, table[key].milestone)) == Stored(table, key)
      ensures works && key !in table ==> r.value == None == Stored(table, key)
    {
      if !works {
        return Err("could not get PR");
      }
      if key !in table {
        return Ok(None);
      }
      return Ok(Some(PullRequest(key, table[key].columns, table[key].milestone)));
    }

    /** The open pull requests in some order, each once. */
    method ListOpen(works: bool) returns (r: Result<seq<PullRequest>, string>)
      ensures r.Ok? <==> works
      ensures works ==> IsListing(table, r.value)
    {
      if !works {
        return Err("could not list open PRs");
      }
      var left := OpenKeys(table);
      var prs: seq<PullRequest> := [];
      while left != {}
        invariant left <= OpenKeys(table)
        invariant forall i :: 0 <= i < |prs| ==> prs[i].key in OpenKeys(table) - left && Some(prs[i]) == Stored(table, prs[i].key)
        invariant forall i, j :: 0 <= i < j < |prs| ==> prs[i].key != prs[j].key
        invariant forall k :: k in OpenKeys(table) - left ==> Lists(prs, k)
        decreases |left|
      {
        var k :| k in left;
        ghost var before := prs;
        left, prs := left - {k}, prs + [PullRequest(k, table[k].columns, table[k].milestone)];
        forall m | m in OpenKeys(table) - left
          ensures Lists(prs, m)
        {
          if m == k {
            assert prs[|before|].key == m;
          } else {
            assert Lists(before, m);
            var i :| 0 <= i < |before| && before[i].key == m;
            assert prs[i].key == m;
          }
        }
      }
      assert OpenKeys(table) - left == OpenKeys(table);
      return Ok(prs);
    }
  }

  ghost predicate Lists(prs: seq<PullRequest>, key: Key) {
    exists i :: 0 <= i < |prs| && prs[i].key == key
  }

  /** `prs` are open rows of `table`, each at most once. */
  ghost predicate ListsRows(table: Table, prs: seq<PullRequest>) {
    && (forall i :: 0 <= i < |prs| ==> prs[i].key in OpenKeys(table) && Some(prs[i]) == Stored(table, prs[i].key))
    && (forall i, j :: 0 <= i < j < |prs| ==> prs[i].key != prs[j].key)
  }

  /** `prs` are the open rows of `table`, each once. */
  ghost predicate IsListing(table: Table, prs: seq<PullRequest>) {
    ListsRows(table, prs) && forall k :: k in OpenKeys(table) ==> Lists(prs, k)
  }

  // ----- Any sequence of Saves -----

  function SaveAll(table: Table, saves: seq<PullRequest>): Table {
    if saves == [] then table
    else Upsert(SaveAll(table, saves[..|saves| - 1]), saves[|saves| - 1])
  }

  /** `p` is the last of `saves` with key `key`. */
  predicate IsLastSave(saves: seq<PullRequest>, key: Key, p: int) {
    0 <= p < |saves| && saves[p].key == key && forall q :: p < q < |saves| ==> saves[q].key != key
  }

  predicate NeverSaved(saves: seq<PullRequest>, key: Key) {
    forall q :: 0 <= q < |saves| ==> saves[q].key != key
  }

  /** Saving keeps a key's milestone as it was; a new row has none. */
  lemma {:induction false} MilestoneNeverSaved(table: Table, saves: seq<PullRequest>, key: Key)
    requires key in SaveAll(table, saves)
    ensures SaveAll(table, saves)[key].milestone == if key in table then table[key].milestone else NO_MILESTONE
    ensures key in table || !NeverSaved(saves, key)
  {
    if saves != [] {
      var before := saves[..|saves| - 1];
      assert saves[|saves| - 1] in saves;
      if key in SaveAll(table, before) {
        MilestoneNeverSaved(table, before, key);
      } else if key in table {
        SaveKeepsKeys(table, before, key);
      }
    }
  }

  lemma {:induction false} SaveKeepsKeys(table: Table, saves: seq<PullRequest>, key: Key)
    requires key in table
    ensures key in SaveAll(table, saves)
  {
    if saves != [] {
      SaveKeepsKeys(table, saves[..|saves| - 1], key);
    }
  }

  lemma {:induction false} LastSaveIsStored(table: Table, saves: seq<PullRequest>, key: Key, p: int)
    requires IsLastSave(saves, key, p)
    ensures key in SaveAll(table, saves) && SaveAll(table, saves)[key].columns == saves[p].columns
  {
    if p < |saves| - 1 {
      LastSaveIsStored(table, saves[..|saves| - 1], key, p);
    }
  }

  lemma {:induction false} UnsavedIsUntouched(table: Table, saves: seq<PullRequest>, key: Key)
    requires NeverSaved(saves, key)
    ensures (key in SaveAll(table, saves) <==> key in table)
    ensures key in table ==> SaveAll(table, saves)[key] == table[key]
  {
    if saves != [] {
      UnsavedIsUntouched(table, saves[..|saves| - 1], key);
    }
  }

  /** After any saves Get returns what was saved last for the key, under the milestone the row began with. */
  lemma GetReturnsLastSave(table: Table, saves: seq<PullRequest>, key: Key, p: int)
    requires IsLastSave(saves, key, p)
    ensures Stored(SaveAll(table, saves), key) ==
            Some(saves[p].(milestone := if key in table then table[key].milestone else NO_MILESTONE))
  {
    LastSaveIsStored(table, saves, key, p);
    MilestoneNeverSaved(table, saves, key);
  }

  /** After any saves ListOpen holds exactly the keys whose last save, or untouched row, is open. */
  lemma ListOpenFollowsLastSave(table: Table, saves: seq<PullRequest>, key: Key)
    ensures forall p :: IsLastSave(saves, key, p) ==>
              (key in OpenKeys(SaveAll(table, saves)) <==> saves[p].columns.state == "open")
    ensures NeverSaved(saves, key) ==> (key in OpenKeys(SaveAll(table, saves)) <==> key in OpenKeys(table))
    ensures NeverSaved(saves, key) || exists p :: IsLastSave(saves, key, p)
  {
    forall p | IsLastSave(saves, key, p)
      ensures key in OpenKeys(SaveAll(table, saves)) <==> saves[p].columns.state == STATE_OPEN
    {
      LastSaveIsStored(table, saves, key, p);
    }
    if NeverSaved(saves, key) {
      UnsavedIsUntouched(table, saves, key);
    } else {
      var p := FindLastSave(saves, key);
    }
  }

  lemma {:induction false} FindLastSave(saves: seq<PullRequest>, key: Key) returns (p: int)
    requires !NeverSaved(saves, key)
    ensures IsLastSave(saves, key, p)
  {
    p := |saves| - 1;
    if saves[p].key != key {
      p := FindLastSave(saves[..p], key);
    }
  }
}

/**
 The lock as an object: a key of the lock table and the two channels of its refresher.
 Whether a statement succeeds is decided by the database and passed in.
 */
module LockStore {
  import opened Wrappers
  import opened LeaseTiming
  import opened Backoff
  import LP = LeaseProtocol

  /** Which statements of a transaction that reads and updates the row succeed. */
  datatype UpdateTx = UpdateTx(begin: bool, select: bool, update: bool, commit: bool) {
    predicate Works() {
      begin && select && update && commit
    }
  }

  /** Which statements of an attempt to lock succeed. A duplicate key is not a failure of the database. */
  datatype AttemptTx = AttemptTx(begin: bool, insert: bool, commit: bool, release: UpdateTx)

  datatype LockError = ConnFailed | TxFailed | RowNotFound | NotExpired | FailedToLock | ContextDone

  class LockTable {
    var rows: map<string, int>
  }

  /** A channel that is only ever closed. */
  class Signal {
    var closed: bool

    constructor ()
      ensures !closed
    {
      closed := false;
    }
  }

  function Row(rows: map<string, int>, key: string): Option<int> {
    if key in rows then Some(rows[key]) else None
  }

  /** An attempt wins the lock exactly when nothing it needs fails and the row is absent or expired. */
  predicate Wins(row: Option<int>, now: int, tx: AttemptTx) {
    && tx.begin
    && (if row.None? then tx.insert && tx.commit else row.value <= Unix(now) && tx.release.Works())
  }

  /** One turn of the loop in Lock: the context ends, or an attempt is made on the table as others left it. */
  datatype Turn =
    | Cancelled
    | Attempt(others: map<string, int>, now: int, tx: AttemptTx, jitter: int)

  predicate WinningTurn(turn: Turn, key: string) {
    turn.Attempt? && Wins(Row(turn.others, key), turn.now, turn.tx)
  }

  predicate LosingTurn(turn: Turn, key: string) {
    turn.Attempt? && !Wins(Row(turn.others, key), turn.now, turn.tx)
  }

  /** The table as the others had left it at the last of these turns. */
  function TableAfter(turns: seq<Turn>, rows: map<string, int>): map<string, int> {
    if turns != [] && turns[|turns| - 1].Attempt? then turns[|turns| - 1].others else rows
  }

  function Jitters(turns: seq<Turn>): (js: seq<int>)
    requires forall i :: 0 <= i < |turns| ==> turns[i].Attempt?
    ensures |js| == |turns|
  {
    seq(|turns|, i requires 0 <= i < |turns| => turns[i].jitter)
  }

  function LastWait(waits: seq<int>, i: nat): int
    requires i <= |waits|
  {
    if i == 0 then 0 else waits[i - 1]
  }

  predicate PausedAt(turns: seq<Turn>, waits: seq<int>, i: nat)
    requires i < |waits| && i < |turns| && turns[i].Attempt?
  {
    waits[i] == NextWait(LastWait(waits, i), true, turns[i].jitter)
  }

  /** The pauses after the first turns, all attempts: each is worked out from the one before and a jitter of its own. */
  predicate Paused(turns: seq<Turn>, waits: seq<int>) {
    && |waits| <= |turns|
    && (forall i :: 0 <= i < |waits| ==> turns[i].Attempt?)
    && forall i :: 0 <= i < |waits| ==> PausedAt(turns, waits, i)
  }

  /** The first `lost` turns were attempts that lost the lock, each followed by its pause. */
  predicate AllLost(turns: seq<Turn>, lost: nat, waits: seq<int>, key: string) {
    && lost == |waits| && Paused(turns, waits)
    && forall i :: 0 <= i < lost ==> LosingTurn(turns[i], key)
  }

  lemma OneMoreLost(turns: seq<Turn>, lost: nat, waits: seq<int>, key: string, wait: int)
    requires AllLost(turns, lost, waits, key) && lost < |turns| && LosingTurn(turns[lost], key)
    requires wait == NextWait(LastWait(waits, lost), true, turns[lost].jitter)
    ensures AllLost(turns, lost + 1, waits + [wait], key)
    ensures TableAfter(turns[..lost + 1], map[]) == turns[lost].others
  {
    forall i | 0 <= i <= lost
      ensures PausedAt(turns, waits + [wait], i)
    {
      assert i < lost ==> PausedAt(turns, waits, i);
    }
    assert turns[..lost + 1] == turns[..lost] + [turns[lost]];
  }

  /** Lock never retries sooner, or later, than the backoff allows after that many failures in a row. */
  lemma PausesBounded(turns: seq<Turn>, waits: seq<int>, i: nat)
    requires Paused(turns, waits) && i < |waits|
    requires forall j :: 0 <= j < |waits| ==> IsJitter(turns[j].jitter)
    ensures LeastWait(i + 1) <= waits[i] < WaitLimit(i + 1)
  {
    PausesAccumulate(turns, waits, i);
    WaitBounds(Jitters(turns[..i + 1]));
  }

  lemma {:induction false} PausesAccumulate(turns: seq<Turn>, waits: seq<int>, i: nat)
    requires Paused(turns, waits) && i < |waits|
    ensures waits[i] == WaitAfter(Jitters(turns[..i + 1]))
  {
    assert PausedAt(turns, waits, i);
    var jitters := Jitters(turns[..i + 1]);
    assert jitters[..i] == Jitters(turns[..i]) && jitters[i] == turns[i].jitter;
    if i > 0 {
      PausesAccumulate(turns, waits, i - 1);
    } else {
      assert jitters[..0] == [];
    }
  }

  datatype UnlockResult = Unlocked | DeleteFailed | NotLocked

  class Mutex {
    const key: string
    const db: LockTable
    var stopRefresh: Signal?
    var refreshDone: Signal?

    ghost predicate Valid()
      reads this, stopRefresh
    {
      stopRefresh != null ==> refreshDone != null && refreshDone != stopRefresh && !stopRefresh.closed
    }

    constructor (key: string, db: LockTable)
      ensures Valid() && this.key == key && this.db == db && stopRefresh == null
    {
      this.key := key;
      this.db := db;
      stopRefresh := null;
      refreshDone := null;
    }

    method TryLock(now: int, tx: AttemptTx) returns (ok: bool, err: Option<LockError>)
      modifies db
      ensures key !in old(db.rows) ==> (ok <==> tx.begin && tx.insert && tx.commit)
      ensures key in old(db.rows) ==> (ok <==> tx.begin && old(db.rows)[key] <= Unix(now) && tx.release.Works())
      ensures ok <==> err.None?
      ensures db.rows == if ok then old(db.rows)[key := Lease(now, 0)] else old(db.rows)
    {
      if !tx.begin {
        return false, Some(TxFailed);
      }
      var pending := db.rows;
      if key in pending || !tx.insert {
        var err2 := ReleaseLock(now, tx.release);
        if err2.None? {
          return true, None;
        }
        return false, Some(FailedToLock);
      }
      pending := pending[key := ExpiryFrom(now)];
      if !tx.commit {
        return false, Some(TxFailed);
      }
      db.rows := pending;
      return true, None;
    }

    method ReleaseLock(now: int, tx: UpdateTx) returns (err: Option<LockError>)
      modifies db
      ensures err.None? <==> key in old(db.rows) && old(db.rows)[key] <= Unix(now) && tx.Works()
      ensures db.rows == if err.None? then old(db.rows)[key := Lease(now, 0)] else old(db.rows)
    {
      if !tx.begin {
        return Some(TxFailed);
      }
      var pending := db.rows;
      var e := GetExpireAt(pending, tx.select);
      if e.Err? {
        return Some(e.error);
      }
      if Unix(now) < e.value {
        return Some(NotExpired);
      }
      if !tx.update {
        return Some(TxFailed);
      }
      pending := pending[key := ExpiryFrom(now)];
      if !tx.commit {
        return Some(TxFailed);
      }
      db.rows := pending;
      return None;
    }

    method GetExpireAt(pending: map<string, int>, select: bool) returns (r: Result<int, LockError>)
      ensures r.Ok? <==> select && key in pending
      ensures r.Ok? ==> pending[key] == r.value
    {
      if !select {
        return Err(TxFailed);
      }
      if key !in pending {
        return Err(RowNotFound);
      }
      return Ok(pending[key]);
    }

    /** Extends the stored expiry, whoever wrote it. */
    method RefreshLock(tx: UpdateTx) returns (err: Option<LockError>)
      modifies db
      ensures err.None? <==> key in old(db.rows) && tx.Works()
      ensures db.rows == if err.None? then old(db.rows)[key := old(db.rows)[key] + 15] else old(db.rows)
    {
      if !tx.begin {
        return Some(TxFailed);
      }
      var pending := db.rows;
      var e := GetExpireAt(pending, tx.select);
      if e.Err? {
        return Some(e.error);
      }
      if !tx.update {
        return Some(TxFailed);
      }
      pending := pending[key := Extended(e.value)];
      if !tx.commit {
        return Some(TxFailed);
      }
      db.rows := pending;
      return None;
    }

    /** The loop of Lock: `lost` turns went by before the one that ended it; `waits` are the pauses after them. */
    method Contend(turns: seq<Turn>) returns (won: bool, lost: nat, waits: seq<int>)
      requires forall i :: 0 <= i < |turns| && turns[i].Attempt? ==> IsJitter(turns[i].jitter)
      modifies db
      ensures AllLost(turns, lost, waits, key)
      ensures won <==> lost < |turns| && WinningTurn(turns[lost], key)
      ensures won ==> db.rows == turns[lost].others[key := Lease(turns[lost].now, 0)]
      ensures !won ==> lost == |turns| || turns[lost].Cancelled?
      ensures !won ==> db.rows == TableAfter(turns[..lost], old(db.rows))
    {
      var waitInterval := 0;
      lost, waits := 0, [];
      while true
        invariant AllLost(turns, lost, waits, key)
        invariant db.rows == TableAfter(turns[..lost], old(db.rows))
        invariant waitInterval == LastWait(waits, lost)
        decreases |turns| - lost
      {
        if lost == |turns| || turns[lost].Cancelled? {
          return false, lost, waits;
        }
        var turn := turns[lost];
        db.rows := turn.others;
        var ok, failure := TryLock(turn.now, turn.tx);
        if ok {
          return true, lost, waits;
        }
        var next := NextWaitInterval(waitInterval, failure.Some?, turn.jitter);
        OneMoreLost(turns, lost, waits, key, next);
        waitInterval, waits, lost := next, waits + [next], lost + 1;
      }
    }

    /** Without a connection there is no loop. */
    method Lock(connWorks: bool, turns: seq<Turn>) returns (err: Option<LockError>, lost: nat, waits: seq<int>)
      requires Valid()
      requires forall i :: 0 <= i < |turns| && turns[i].Attempt? ==> IsJitter(turns[i].jitter)
      modifies this`stopRefresh, this`refreshDone, db
      ensures Valid()
      ensures AllLost(turns, lost, waits, key)
      ensures err == Some(ConnFailed) <==> !connWorks
      ensures !connWorks ==> lost == 0
      ensures err.None? <==> connWorks && lost < |turns| && WinningTurn(turns[lost], key)
      ensures err.None? ==> db.rows == turns[lost].others[key := Lease(turns[lost].now, 0)]
      ensures err.None? ==> fresh(stopRefresh) && fresh(refreshDone) && !refreshDone.closed
      ensures err.Some? && connWorks ==> lost == |turns| || turns[lost].Cancelled?
      ensures err.Some? ==> stopRefresh == old(stopRefresh) && refreshDone == old(refreshDone)
      ensures err.Some? ==> db.rows == TableAfter(turns[..lost], old(db.rows))
    {
      if !connWorks {
        return Some(ConnFailed), 0, [];
      }
      var won;
      won, lost, waits := Contend(turns);
      if !won {
        return Some(ContextDone), lost, waits;
      }
      stopRefresh := new Signal();
      refreshDone := new Signal();
      err := None;
    }

    /** `lastRefresh` is the refresh that is under way, if any, when the stop channel closes. */
    method Unlock(lastRefresh: Option<UpdateTx>, deleteWorks: bool) returns (r: UnlockResult)
      requires Valid()
      modifies this`stopRefresh, stopRefresh, refreshDone, db
      ensures Valid()
      ensures r == NotLocked <==> old(stopRefresh) == null
      ensures r == NotLocked ==> db.rows == old(db.rows)
      ensures r != NotLocked ==> stopRefresh == null && old(stopRefresh).closed && old(refreshDone).closed
      ensures r == Unlocked <==> old(stopRefresh) != null && deleteWorks
      ensures r == Unlocked ==> db.rows == old(db.rows) - {key}
      ensures r == DeleteFailed ==>
        var refreshed := lastRefresh.Some? && lastRefresh.value.Works() && !old(refreshDone.closed) && key in old(db.rows);
        db.rows == if refreshed then old(db.rows)[key := old(db.rows)[key] + 15] else old(db.rows)
    {
      if stopRefresh == null {
        return NotLocked;
      }
      stopRefresh.closed := true;
      stopRefresh := null;
      if !refreshDone.closed {
        if lastRefresh.Some? {
          var _ := RefreshLock(lastRefresh.value);
        }
        refreshDone.closed := true;
      }
      if !deleteWorks {
        return DeleteFailed;
      }
      db.rows := db.rows - {key};
      return Unlocked;
    }
  }

  // ----- The methods, run with nothing in between, are steps of the protocol -----

  /** The protocol steps an attempt takes once it has read the clock. */
  function AttemptSteps(i: nat, row: Option<int>, now: int, tx: AttemptTx): seq<LP.Step> {
    if !tx.begin then [LP.GiveUp(i)]
    else if row.None? && tx.insert then [LP.Insert(i, if tx.commit then LP.Committed else LP.RolledBack)]
    else [LP.InsertFails(i)] + ReleaseSteps(i, row, now, tx.release)
  }

  function ReleaseSteps(i: nat, row: Option<int>, now: int, tx: UpdateTx): seq<LP.Step> {
    if !tx.begin || !tx.select || row.None? || Unix(now) < row.value then [LP.GiveUp(i)]
    else if !tx.update then [LP.SelectExpired(i), LP.GiveUp(i)]
    else [LP.SelectExpired(i), LP.UpdateExpired(i, if tx.commit then LP.Committed else LP.RolledBack)]
  }

  /** The instance `i` either holds the lock as of `now`, or is idle in a table it did not change. */
  predicate Decided(s: LP.State, s': LP.State, i: nat, now: int, won: bool)
    requires i < |s.instances|
  {
    && s'.row == (if won then Some(Lease(now, 0)) else s.row)
    && s'.instances == s.instances[i := if won then LP.Holding(now, 0, false, LP.Waiting) else LP.Idle]
    && s'.clock == s.clock
  }

  lemma SelectThen(s: LP.State, i: nat, now: int, last: LP.Step)
    requires i < |s.instances| && s.instances[i] == LP.Releasing(now)
    requires s.row.Some? && s.row.value <= Unix(now)
    requires last == LP.GiveUp(i) || last == LP.UpdateExpired(i, LP.RolledBack) || last == LP.UpdateExpired(i, LP.Committed)
    ensures
      var r := LP.Exec(s, [LP.SelectExpired(i), last]);
      r.Some? && Decided(s, r.value, i, now, last == LP.UpdateExpired(i, LP.Committed))
  {
    var s1 := LP.With(s, i, LP.Selecting(now, s.row.value));
    LP.ExecTwo(s, LP.SelectExpired(i), last);
    assert LP.Apply(s, LP.SelectExpired(i)) == s1;
    ExpiryIsFirstLease(now);
    LP.WithTwice(s, i, s1.instances[i], LP.Apply(s1, last).instances[i]);
  }

  lemma ReleaseFollowsProtocol(s: LP.State, i: nat, now: int, tx: UpdateTx)
    requires i < |s.instances| && s.instances[i] == LP.Releasing(now)
    ensures
      var won := s.row.Some? && s.row.value <= Unix(now) && tx.Works();
      var r := LP.Exec(s, ReleaseSteps(i, s.row, now, tx));
      r.Some? && Decided(s, r.value, i, now, won)
  {
    var steps := ReleaseSteps(i, s.row, now, tx);
    if |steps| == 1 {
      LP.ExecOne(s, LP.GiveUp(i));
    } else {
      SelectThen(s, i, now, steps[1]);
    }
  }

  /** TryLock has the effect and the answer of the protocol steps it takes. */
  lemma TryLockFollowsProtocol(s: LP.State, i: nat, now: int, tx: AttemptTx)
    requires i < |s.instances| && s.instances[i] == LP.Inserting(now)
    ensures
      var r := LP.Exec(s, AttemptSteps(i, s.row, now, tx));
      r.Some? && Decided(s, r.value, i, now, Wins(s.row, now, tx))
  {
    ExpiryIsFirstLease(now);
    if !tx.begin {
      LP.ExecOne(s, LP.GiveUp(i));
    } else if s.row.None? && tx.insert {
      LP.ExecOne(s, LP.Insert(i, if tx.commit then LP.Committed else LP.RolledBack));
    } else {
      var s1 := LP.Apply(s, LP.InsertFails(i));
      LP.ExecMore(s, LP.InsertFails(i), ReleaseSteps(i, s.row, now, tx.release));
      ReleaseFollowsProtocol(s1, i, now, tx.release);
    }
  }

  /** RefreshLock by the refresher of a holder: one term more on the row, or the refresher is gone. */
  lemma RefreshFollowsProtocol(s: LP.State, i: nat, tx: UpdateTx)
    requires i < |s.instances| && s.instances[i].Holding? && s.instances[i].refresher.Waiting?
    ensures
      var works := s.row.Some? && tx.Works();
      var steps := if s.row.None? || !tx.begin || !tx.select || !tx.update then [LP.RefresherLeaves(i)]
                   else [LP.SelectOwn(i), LP.UpdateOwn(i, if tx.commit then LP.Committed else LP.RolledBack)];
      var r := LP.Exec(s, steps);
      && r.Some?
      && r.value.row == (if works then Some(s.row.value + 15) else s.row)
      && r.value.instances == s.instances[i := s.instances[i].(
           refreshes := s.instances[i].refreshes + if works then 1 else 0,
           refresher := if works then LP.Waiting else LP.Gone)]
  {
    if s.row.Some? && tx.begin && tx.select && tx.update {
      var update := LP.UpdateOwn(i, if tx.commit then LP.Committed else LP.RolledBack);
      LP.ExecTwo(s, LP.SelectOwn(i), update);
      RefreshAddsOneTerm(s.row.value);
    } else {
      LP.ExecOne(s, LP.RefresherLeaves(i));
    }
  }

  /** Unlock with no refresh under way: the refresher is stopped first, the row deleted after. */
  lemma UnlockFollowsProtocol(s: LP.State, i: nat, deleteWorks: bool)
    requires i < |s.instances| && s.instances[i].Holding?
    requires s.instances[i].refresher.Waiting? && !s.instances[i].stopping
    ensures
      var delete := LP.Delete(i, if deleteWorks then LP.Committed else LP.RolledBack);
      && LP.Exec(s, [LP.CloseStop(i), delete]).None?
      && var r := LP.Exec(s, [LP.CloseStop(i), LP.RefresherLeaves(i), delete]);
      && r.Some?
      && r.value.row == (if deleteWorks then None else s.row)
      && r.value.instances == s.instances[i := LP.Idle]
  {
    var delete := LP.Delete(i, if deleteWorks then LP.Committed else LP.RolledBack);
    LP.ExecTwo(s, LP.CloseStop(i), delete);
    LP.ExecMore(s, LP.CloseStop(i), [LP.RefresherLeaves(i), delete]);
    assert [LP.CloseStop(i), LP.RefresherLeaves(i), delete] == [LP.CloseStop(i)] + [LP.RefresherLeaves(i), delete];
    LP.ExecTwo(LP.Apply(s, LP.CloseStop(i)), LP.RefresherLeaves(i), delete);
  }
}

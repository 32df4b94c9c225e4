/** The session and record rows as the service changes them in place. */
module SyncService {
  import opened Common
  import opened SyncModel
  import opened SyncProgress
  import SyncRuns

  class SyncInstanceRecord {
    const sid: string
    const instanceId: int
    var status: RecordStatus
    var stats: Stats
    var startedAt: Option<int>
    var completedAt: Option<int>
    var errorMessage: Option<string>

    constructor (sid: string, instanceId: int)
      ensures Value() == InstanceRecord(sid, instanceId, Pending, NO_STATS, None, None, None)
    {
      this.sid, this.instanceId := sid, instanceId;
      status, stats := Pending, NO_STATS;
      startedAt, completedAt, errorMessage := None, None, None;
    }

    ghost function Value(): InstanceRecord
      reads this
    {
      InstanceRecord(sid, instanceId, status, stats, startedAt, completedAt, errorMessage)
    }

    method StartSync(at: int)
      modifies this
      ensures Value() == AfterStart(old(Value()), at)
      ensures status == Running && startedAt == Some(at)
      ensures stats == old(stats) && completedAt == old(completedAt) && errorMessage == old(errorMessage)
    {
      status := Running;
      startedAt := Some(at);
    }

    method CompleteSync(items: Stats, at: int)
      modifies this
      ensures Value() == AfterComplete(old(Value()), items, at)
      ensures status == Completed && completedAt == Some(at) && stats == items
      ensures startedAt == old(startedAt) && errorMessage == old(errorMessage)
    {
      status := Completed;
      completedAt := Some(at);
      stats := items;
    }

    method FailSync(message: string, at: int)
      modifies this
      ensures Value() == AfterFail(old(Value()), message, at)
      ensures status == Failed && completedAt == Some(at) && errorMessage == Some(message)
      ensures startedAt == old(startedAt) && stats == old(stats)
    {
      status := Failed;
      completedAt := Some(at);
      errorMessage := Some(message);
    }
  }

  class SyncSession {
    var status: SessionStatus
    var total: int
    var succeeded: int
    var failed: int
    var completedAt: Option<int>

    constructor ()
      ensures Value() == Session(SessionRunning, 0, 0, 0, None)
    {
      status, total, succeeded, failed, completedAt := SessionRunning, 0, 0, 0, None;
    }

    ghost function Value(): Session
      reads this
    {
      Session(status, total, succeeded, failed, completedAt)
    }

    method UpdateStatistics(succeededInstances: int, failedInstances: int, at: int)
      modifies this
      ensures Value() == Counted(old(Value()), succeededInstances, failedInstances, at)
      ensures succeeded == succeededInstances && failed == failedInstances && total == old(total)
      ensures old(status) == SessionRunning && succeededInstances + failedInstances == total ==>
        completedAt == Some(at) && status == if failedInstances > 0 then SessionFailed else SessionCompleted
      ensures old(status) != SessionRunning || succeededInstances + failedInstances != total ==>
        status == old(status) && completedAt == old(completedAt)
    {
      succeeded := succeededInstances;
      failed := failedInstances;
      if Terminal(status) {
        return;
      }
      if succeeded + failed == total {
        if failed > 0 {
          status := SessionFailed;
        } else {
          status := SessionCompleted;
        }
        completedAt := Some(at);
      }
    }

    /** Overwrites the outcome, whatever the status was. */
    method Close(succeededInstances: int, failedInstances: int, outcome: SessionStatus, at: int)
      modifies this
      ensures Value() == old(Value()).(succeeded := succeededInstances, failed := failedInstances, status := outcome, completedAt := Some(at))
    {
      succeeded, failed, status, completedAt := succeededInstances, failedInstances, outcome, Some(at);
    }

    method GetProgressPercentage() returns (hundredths: int)
      requires total >= 0
      ensures hundredths == Progress(Value())
      ensures total == 0 ==> hundredths == 0
      ensures total > 0 ==> -total <= 2 * (10000 * (succeeded + failed) - hundredths * total) <= total
    {
      if total == 0 {
        return 0;
      }
      RoundedIsNearest(10000 * (succeeded + failed), total);
      hundredths := Rounded(10000 * (succeeded + failed), total);
    }
  }

  datatype CallError = NotFound | IntegrityError | UnknownInstances(missing: set<int>)

  /** One pending record per listed instance, under consecutive new keys. */
  ghost function Added(s: Store, sid: string, next: nat, instanceIds: seq<int>): Store {
    if instanceIds == [] then s
    else
      var n := |instanceIds| - 1;
      var t := Added(s, sid, next, instanceIds[..n]);
      t.(records := t.records[next + n := NewRecord(sid, instanceIds[n])])
  }

  function NewRecord(sid: string, instanceId: int): InstanceRecord {
    InstanceRecord(sid, instanceId, Pending, NO_STATS, None, None, None)
  }

  lemma AddedOneMore(s: Store, sid: string, next: nat, instanceIds: seq<int>, i: nat)
    requires i < |instanceIds|
    ensures var t := Added(s, sid, next, instanceIds[..i]);
      Added(s, sid, next, instanceIds[..i + 1]) == t.(records := t.records[next + i := NewRecord(sid, instanceIds[i])])
  {
    assert instanceIds[..i + 1][..i] == instanceIds[..i];
  }

  /** What was added: the old rows stay, and the k-th new row is the k-th instance's, pending and empty. */
  lemma {:induction false} AddedRows(s: Store, sid: string, next: nat, instanceIds: seq<int>)
    requires forall r :: r in s.records ==> r < next
    ensures var t := Added(s, sid, next, instanceIds);
      && t.sessions == s.sessions
      && (forall r :: r in t.records <==> r in s.records || next <= r < next + |instanceIds|)
      && (forall r :: r in s.records ==> t.records[r] == s.records[r])
      && (forall k | 0 <= k < |instanceIds| ::
            t.records[next + k] == InstanceRecord(sid, instanceIds[k], Pending, Stats(0, 0, 0, 0), None, None, None))
  {
    if instanceIds == [] {
    } else {
      AddedRows(s, sid, next, instanceIds[..|instanceIds| - 1]);
    }
  }

  lemma KeySeq(next: nat, n: nat)
    ensures var ids := seq(n, i => next + i);
      Distinct(ids) && forall r :: r in ids <==> next <= r < next + n
  {
    var ids := seq(n, i => next + i);
    forall r | next <= r < next + n ensures r in ids {
      assert ids[r - next] == r;
    }
  }

  /** Records created for a session without any, with the total set, make it fresh for the run theorems. */
  lemma AddedIsFresh(s: Store, sid: string, next: nat, instanceIds: seq<int>)
    requires SyncModel.Valid(s) && sid in s.sessions && RecordsOf(s, sid) == {} && instanceIds != []
    requires s.sessions[sid] == Session(SessionRunning, |instanceIds|, 0, 0, None)
    requires forall r :: r in s.records ==> r < next
    ensures SyncModel.Valid(Added(s, sid, next, instanceIds)) && SyncRuns.Fresh(Added(s, sid, next, instanceIds), sid)
  {
    var t := Added(s, sid, next, instanceIds);
    var ids := seq(|instanceIds|, i => next + i);
    AddedRows(s, sid, next, instanceIds);
    KeySeq(next, |instanceIds|);
    forall r | next <= r < next + |instanceIds| ensures t.records[r] == NewRecord(sid, instanceIds[r - next]) {
      assert next + (r - next) == r;
    }
    forall r ensures r in RecordsOf(t, sid) <==> r in ids {
      assert r in s.records ==> r !in RecordsOf(s, sid);
    }
    DistinctSize(ids, RecordsOf(t, sid));
  }

  function Named(instanceIds: seq<int>): set<int> {
    set id | id in instanceIds
  }

  lemma NothingMissing(named: set<int>, known: set<int>)
    ensures named - known == {} <==> named <= known
  {
    if named - known == {} {
      forall id | id in named ensures id in known {
        assert id !in named - known;
      }
    }
  }

  class SyncSessionService {
    var sessions: map<string, SyncSession>
    var records: map<nat, SyncInstanceRecord>
    var nextRecord: nat

    constructor ()
      ensures Valid() && fresh(sessions.Values) && fresh(records.Values)
      ensures View() == Store(map[], map[])
    {
      sessions, records, nextRecord := map[], map[], 0;
    }

    /** Different keys are different rows, and every record's session exists. */
    ghost predicate Valid()
      reads this
    {
      && Injective(sessions) && Injective(records)
      && (forall r :: r in records ==> r < nextRecord && records[r].sid in sessions)
    }

    ghost function View(): Store
      reads this, sessions.Values, records.Values
    {
      Store(map k | k in sessions :: sessions[k].Value(), map r | r in records :: records[r].Value())
    }

    lemma ViewValid()
      requires Valid()
      ensures SyncModel.Valid(View())
    {
    }

    method CreateSession(sid: string) returns (session: SyncSession)
      requires Valid() && sid !in sessions
      modifies this`sessions
      ensures Valid() && fresh(session) && sessions == old(sessions)[sid := session]
      ensures View() == old(View()).(sessions := old(View()).sessions[sid := Session(SessionRunning, 0, 0, 0, None)])
    {
      session := new SyncSession();
      assert session !in sessions.Values;
      assert forall k :: k in sessions ==> sessions[k] in sessions.Values;
      sessions := sessions[sid := session];
    }

    method AddRecord(sid: string, instanceId: int)
      requires Valid() && sid in sessions
      modifies this`records, this`nextRecord
      ensures Valid() && nextRecord == old(nextRecord) + 1
      ensures old(nextRecord) in records && fresh(records[old(nextRecord)])
      ensures records == old(records)[old(nextRecord) := records[old(nextRecord)]]
      ensures View() == old(View()).(records := old(View()).records[old(nextRecord) := NewRecord(sid, instanceId)])
    {
      var record := new SyncInstanceRecord(sid, instanceId);
      assert forall r :: r in records ==> records[r] in records.Values && records[r] != record;
      records := records[nextRecord := record];
      nextRecord := nextRecord + 1;
    }

    /** One record per instance, all or none: an unknown instance or session stops it before anything is stored. */
    method AddInstanceRecords(sid: string, instanceIds: seq<int>, known: set<int>) returns (added: Result<seq<nat>, CallError>)
      requires Valid()
      modifies this`records, this`nextRecord
      ensures Valid() && fresh(records.Values - old(records.Values))
      ensures added.Ok? <==> sid in sessions && Named(instanceIds) <= known
      ensures added.Err? ==> records == old(records) && View() == old(View())
      ensures added.Ok? ==> added.value == seq(|instanceIds|, i => old(nextRecord) + i)
      ensures added.Ok? ==> View() == Added(old(View()), sid, old(nextRecord), instanceIds)
    {
      var missing := Named(instanceIds) - known;
      NothingMissing(Named(instanceIds), known);
      if missing != {} {
        return Err(UnknownInstances(missing));
      }
      if sid !in sessions {
        return Err(IntegrityError);
      }
      var first := nextRecord;
      for i := 0 to |instanceIds|
        invariant Valid() && nextRecord == first + i
        invariant fresh(records.Values - old(records.Values))
        invariant forall r :: r in old(records) ==> r in records && records[r] == old(records)[r]
        invariant View() == Added(old(View()), sid, first, instanceIds[..i])
      {
        AddedOneMore(old(View()), sid, first, instanceIds, i);
        AddRecord(sid, instanceIds[i]);
      }
      assert instanceIds[..|instanceIds|] == instanceIds;
      added := Ok(seq(|instanceIds|, i => first + i));
    }

    method StartInstanceSync(r: nat, at: int) returns (found: bool)
      requires Valid()
      modifies records.Values
      ensures found <==> r in records
      ensures SyncModel.Valid(old(View())) && View() == Apply(old(View()), Start(r, at))
    {
      ViewValid();
      if r !in records {
        return false;
      }
      var record := records[r];
      record.StartSync(at);
      found := true;
    }

    method CountRecordsByStatus(sid: string, status: RecordStatus) returns (n: nat)
      ensures n == |WithStatus(View(), sid, status)|
    {
      var rows := set r | r in records && records[r].sid == sid && records[r].status == status;
      assert rows == WithStatus(View(), sid, status);
      n := |rows|;
    }

    method StoreStatistics(sid: string, succeeded: int, failed: int, at: int)
      requires Valid() && sid in sessions
      modifies sessions[sid]
      ensures View() == old(View()).(sessions :=
        old(View()).sessions[sid := Counted(old(View()).sessions[sid], succeeded, failed, at)])
    {
      sessions[sid].UpdateStatistics(succeeded, failed, at);
    }

    method UpdateSessionStatistics(sid: string, at: int)
      requires Valid() && sid in sessions
      modifies sessions[sid]
      ensures View() == Recounted(old(View()), sid, at)
    {
      var succeeded := CountRecordsByStatus(sid, Completed);
      var failed := CountRecordsByStatus(sid, Failed);
      StoreStatistics(sid, succeeded, failed, at);
    }

    method CompleteInstanceSync(r: nat, stats: Stats, at: int) returns (found: bool)
      requires Valid()
      modifies records.Values, sessions.Values
      ensures found <==> r in records
      ensures SyncModel.Valid(old(View())) && View() == Apply(old(View()), Complete(r, stats, at))
    {
      ViewValid();
      if r !in records {
        return false;
      }
      var record := records[r];
      record.CompleteSync(stats, at);
      assert View() == old(View()).(records := old(View()).records[r := AfterComplete(old(View()).records[r], stats, at)]);
      UpdateSessionStatistics(record.sid, at);
      found := true;
    }

    method FailInstanceSync(r: nat, message: string, at: int) returns (found: bool)
      requires Valid()
      modifies records.Values, sessions.Values
      ensures found <==> r in records
      ensures SyncModel.Valid(old(View())) && View() == Apply(old(View()), Fail(r, message, at))
    {
      ViewValid();
      if r !in records {
        return false;
      }
      var record := records[r];
      record.FailSync(message, at);
      assert View() == old(View()).(records := old(View()).records[r := AfterFail(old(View()).records[r], message, at)]);
      UpdateSessionStatistics(record.sid, at);
      found := true;
    }

    method CancelSession(sid: string, at: int) returns (cancelled: bool)
      requires Valid()
      modifies sessions.Values
      ensures cancelled <==> Cancels(old(View()), sid)
      ensures cancelled <==> sid in sessions && old(sid in sessions && sessions[sid].status == SessionRunning)
      ensures cancelled ==>
        sid in old(View()).sessions &&
        sessions[sid].Value() == old(View()).sessions[sid].(status := SessionCancelled, completedAt := Some(at))
      ensures SyncModel.Valid(old(View())) && View() == Apply(old(View()), Cancel(sid, at))
    {
      ViewValid();
      if sid !in sessions || sessions[sid].status != SessionRunning {
        return false;
      }
      var session := sessions[sid];
      session.status := SessionCancelled;
      session.completedAt := Some(at);
      cancelled := true;
    }
  }
}

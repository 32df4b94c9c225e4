/** Sync sessions and their instance records as values, and what every service call does to them. */
module SyncModel {
  import opened Common

  datatype SessionStatus = SessionRunning | SessionCompleted | SessionFailed | SessionCancelled

  datatype RecordStatus = Pending | Running | Completed | Failed

  datatype Stats = Stats(synced: int, created: int, updated: int, deleted: int)

  const NO_STATS := Stats(0, 0, 0, 0)

  datatype Session = Session(status: SessionStatus, total: int, succeeded: int, failed: int, completedAt: Option<int>)

  datatype InstanceRecord = InstanceRecord(
    session: string, instanceId: int, status: RecordStatus, stats: Stats,
    startedAt: Option<int>, completedAt: Option<int>, errorMessage: Option<string>)

  /** Both tables; every record belongs to a session that exists. */
  datatype Store = Store(sessions: map<string, Session>, records: map<nat, InstanceRecord>)

  ghost predicate Valid(s: Store) {
    forall r :: r in s.records ==> s.records[r].session in s.sessions
  }

  predicate Terminal(status: SessionStatus) {
    status != SessionRunning
  }

  predicate Finished(status: RecordStatus) {
    status == Completed || status == Failed
  }

  function WithStatus(s: Store, sid: string, status: RecordStatus): set<nat> {
    set r | r in s.records && s.records[r].session == sid && s.records[r].status == status
  }

  function RecordsOf(s: Store, sid: string): set<nat> {
    set r | r in s.records && s.records[r].session == sid
  }

  /** Stores the counts; a session still running ends once they add up to its total. */
  function Counted(x: Session, succeeded: int, failed: int, at: int): Session {
    var y := x.(succeeded := succeeded, failed := failed);
    if Terminal(x.status) || succeeded + failed != x.total then y
    else y.(status := if failed > 0 then SessionFailed else SessionCompleted, completedAt := Some(at))
  }

  /** Recounts the session from the statuses of its records. */
  function Recounted(s: Store, sid: string, at: int): Store
    requires sid in s.sessions
  {
    s.(sessions := s.sessions[sid := Counted(s.sessions[sid], |WithStatus(s, sid, Completed)|, |WithStatus(s, sid, Failed)|, at)])
  }

  datatype Op =
    | Start(record: nat, at: int)
    | Complete(record: nat, stats: Stats, at: int)
    | Fail(record: nat, message: string, at: int)
    | Cancel(sid: string, at: int)

  function AfterStart(r: InstanceRecord, at: int): InstanceRecord {
    r.(status := Running, startedAt := Some(at))
  }

  function AfterComplete(r: InstanceRecord, stats: Stats, at: int): InstanceRecord {
    r.(status := Completed, completedAt := Some(at), stats := stats)
  }

  /** The item counters of an earlier completion stay. */
  function AfterFail(r: InstanceRecord, message: string, at: int): InstanceRecord {
    r.(status := Failed, completedAt := Some(at), errorMessage := Some(message))
  }

  /** A call on a record or session that does not exist changes nothing; it raises, or returns False. */
  function Apply(s: Store, op: Op): Store
    requires Valid(s)
  {
    match op
    case Start(r, at) =>
      if r in s.records then s.(records := s.records[r := AfterStart(s.records[r], at)]) else s
    case Complete(r, stats, at) =>
      if r in s.records then
        Recounted(s.(records := s.records[r := AfterComplete(s.records[r], stats, at)]), s.records[r].session, at)
      else s
    case Fail(r, message, at) =>
      if r in s.records then
        Recounted(s.(records := s.records[r := AfterFail(s.records[r], message, at)]), s.records[r].session, at)
      else s
    case Cancel(sid, at) =>
      if Cancels(s, sid) then
        s.(sessions := s.sessions[sid := s.sessions[sid].(status := SessionCancelled, completedAt := Some(at))])
      else s
  }

  predicate Cancels(s: Store, sid: string) {
    sid in s.sessions && s.sessions[sid].status == SessionRunning
  }

  lemma ApplyKeepsValid(s: Store, op: Op)
    requires Valid(s)
    ensures Valid(Apply(s, op)) && Apply(s, op).sessions.Keys == s.sessions.Keys && Apply(s, op).records.Keys == s.records.Keys
    ensures forall r :: r in s.records ==> Apply(s, op).records[r].session == s.records[r].session
  {
  }

  ghost function Run(s: Store, ops: seq<Op>): (t: Store)
    requires Valid(s)
    ensures Valid(t) && t.sessions.Keys == s.sessions.Keys && t.records.Keys == s.records.Keys
    ensures forall r :: r in s.records ==> t.records[r].session == s.records[r].session
  {
    if ops == [] then s
    else
      var before := Run(s, ops[..|ops| - 1]);
      ApplyKeepsValid(before, ops[|ops| - 1]);
      Apply(before, ops[|ops| - 1])
  }

  /** Finishing a record of the session. */
  predicate Finishes(s: Store, op: Op, sid: string) {
    (op.Complete? || op.Fail?) && op.record in s.records && s.records[op.record].session == sid
  }

  /** The session an operation is about. */
  function Target(s: Store, op: Op): Option<string> {
    match op
    case Cancel(sid, _) => Some(sid)
    case _ => if op.record in s.records then Some(s.records[op.record].session) else None
  }
}

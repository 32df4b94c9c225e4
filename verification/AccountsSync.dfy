/** The account sync loop over a session's records, its totals, and the verdict written at the end. */
module AccountsSync {
  import opened Common
  import opened SyncModel
  import opened SyncRuns

  /**
   * What syncing one instance comes to: refused before completion with the error recorded, completed,
   * completed and then failed by an error raised while recording alerts, or an error that escapes before
   * the record has ended.
   */
  datatype Outcome = Refused(message: string) | Synced(stats: Stats) | SyncedThenRaised(stats: Stats, message: string) | Escapes

  /** How a round goes on once the record's calls are over: task items, alerts and commits may raise, caught by the task or not. */
  datatype Raise = Nothing | Caught | Uncaught

  datatype Totals = Totals(synced: int, failed: int, accounts: Stats)

  const ZERO := Totals(0, 0, NO_STATS)

  function Plus(a: Stats, b: Stats): Stats {
    Stats(a.synced + b.synced, a.created + b.created, a.updated + b.updated, a.deleted + b.deleted)
  }

  /** The calls made for a record that was started. */
  function Worked(s: Store, r: nat, outcome: Outcome, at: int): (t: Store)
    requires Valid(s)
    ensures Valid(t) && t.sessions.Keys == s.sessions.Keys && t.records.Keys == s.records.Keys
  {
    match outcome
    case Refused(message) =>
      ApplyKeepsValid(s, Fail(r, message, at));
      Apply(s, Fail(r, message, at))
    case Synced(stats) =>
      ApplyKeepsValid(s, Complete(r, stats, at));
      Apply(s, Complete(r, stats, at))
    case SyncedThenRaised(stats, message) =>
      ApplyKeepsValid(s, Complete(r, stats, at));
      var mid := Apply(s, Complete(r, stats, at));
      ApplyKeepsValid(mid, Fail(r, message, at));
      Apply(mid, Fail(r, message, at))
    case Escapes => s
  }

  function Processed(s: Store, r: nat, outcome: Outcome, at: int): (t: Store)
    requires Valid(s)
    ensures Valid(t) && t.sessions.Keys == s.sessions.Keys && t.records.Keys == s.records.Keys
  {
    ApplyKeepsValid(s, Start(r, at));
    Worked(Apply(s, Start(r, at)), r, outcome, at)
  }

  /** A loop's successive stores: the j-th record takes the j-th store to the next. */
  ghost predicate Loop(states: seq<Store>, records: seq<nat>, outcomes: seq<Outcome>, at: int) {
    && 1 <= |states| <= |records| + 1 && |states| <= |outcomes| + 1
    && (forall j | 0 <= j < |states| :: Valid(states[j]))
    && (forall j | 0 <= j < |states| - 1 :: LoopsAt(states, records, outcomes, at, j))
  }

  ghost predicate LoopsAt(states: seq<Store>, records: seq<nat>, outcomes: seq<Outcome>, at: int, j: nat)
    requires j + 1 < |states| && j < |records| && j < |outcomes|
  {
    Valid(states[j]) && states[j + 1] == Processed(states[j], records[j], outcomes[j], at)
  }

  function FinalStatus(outcome: Outcome): RecordStatus {
    match outcome
    case Synced(_) => Completed
    case Refused(_) => Failed
    case SyncedThenRaised(_, _) => Failed
    case Escapes => Running
  }

  /** The items a record reports afterwards: a completion's, also when it failed later. */
  function ItemsOf(outcome: Outcome): Stats {
    match outcome
    case Synced(stats) => stats
    case SyncedThenRaised(stats, _) => stats
    case _ => NO_STATS
  }

  /** From s to t only record r changed, and it ended with the outcome. */
  ghost predicate Ended(s: Store, t: Store, r: nat, outcome: Outcome) {
    && t.records.Keys == s.records.Keys && r in s.records
    && t.records[r].session == s.records[r].session
    && t.records[r].status == FinalStatus(outcome)
    && (s.records[r].stats == NO_STATS ==> t.records[r].stats == ItemsOf(outcome))
    && (forall o :: o in s.records && o != r ==> t.records[o] == s.records[o])
  }

  lemma ProcessedRecord(s: Store, r: nat, outcome: Outcome, at: int)
    requires Valid(s) && r in s.records
    ensures Ended(s, Processed(s, r, outcome, at), r, outcome)
  {
  }

  /** From s to t the first n records ended each with its own outcome, and no other record changed. */
  ghost predicate AllEnded(s: Store, t: Store, records: seq<nat>, outcomes: seq<Outcome>, n: nat)
    requires n <= |records| && n <= |outcomes|
  {
    && t.records.Keys == s.records.Keys
    && (forall j | 0 <= j < n :: records[j] in t.records && t.records[records[j]].status == FinalStatus(outcomes[j])
                                 && t.records[records[j]].stats == ItemsOf(outcomes[j]))
    && (forall r | r in s.records :: t.records[r].session == s.records[r].session)
    && (forall r | r in s.records && r !in records[..n] :: t.records[r] == s.records[r])
  }

  lemma AllEndedStep(s: Store, before: Store, t: Store, records: seq<nat>, outcomes: seq<Outcome>, n: nat)
    requires 0 < n <= |records| && n <= |outcomes| && Distinct(records)
    requires AllEnded(s, before, records, outcomes, n - 1) && Ended(before, t, records[n - 1], outcomes[n - 1])
    requires forall r :: r in records ==> r in s.records && s.records[r].stats == NO_STATS
    ensures AllEnded(s, t, records, outcomes, n)
  {
  }

  /** Successive stores, each record's end taking one to the next. */
  ghost predicate Trace(states: seq<Store>, records: seq<nat>, outcomes: seq<Outcome>) {
    && 1 <= |states| <= |records| + 1 && |states| <= |outcomes| + 1
    && forall j | 0 <= j < |states| - 1 :: EndsAt(states, records, outcomes, j)
  }

  ghost predicate EndsAt(states: seq<Store>, records: seq<nat>, outcomes: seq<Outcome>, j: nat)
    requires j + 1 < |states| && j < |records| && j < |outcomes|
  {
    Ended(states[j], states[j + 1], records[j], outcomes[j])
  }

  lemma {:induction false} LoopKeepsKeys(states: seq<Store>, records: seq<nat>, outcomes: seq<Outcome>, at: int, n: nat)
    requires Loop(states, records, outcomes, at) && n < |states|
    ensures states[n].records.Keys == states[0].records.Keys && states[n].sessions.Keys == states[0].sessions.Keys
  {
    if n == 0 {
    } else {
      LoopKeepsKeys(states, records, outcomes, at, n - 1);
      assert LoopsAt(states, records, outcomes, at, n - 1);
    }
  }

  lemma LoopIsTrace(states: seq<Store>, records: seq<nat>, outcomes: seq<Outcome>, at: int)
    requires Loop(states, records, outcomes, at) && forall r :: r in records ==> r in states[0].records
    ensures Trace(states, records, outcomes)
  {
    forall j | 0 <= j < |states| - 1 ensures EndsAt(states, records, outcomes, j) {
      assert LoopsAt(states, records, outcomes, at, j);
      LoopKeepsKeys(states, records, outcomes, at, j);
      ProcessedRecord(states[j], records[j], outcomes[j], at);
    }
  }

  /** Every processed record ends with its own outcome, and no other record changes. */
  lemma {:induction false} TraceEnds(states: seq<Store>, records: seq<nat>, outcomes: seq<Outcome>, n: nat)
    requires Trace(states, records, outcomes) && n < |states| && Distinct(records)
    requires forall r :: r in records ==> r in states[0].records && states[0].records[r].stats == NO_STATS
    ensures AllEnded(states[0], states[n], records, outcomes, n)
  {
    if n == 0 {
    } else {
      TraceEnds(states, records, outcomes, n - 1);
      assert EndsAt(states, records, outcomes, n - 1);
      AllEndedStep(states[0], states[n - 1], states[n], records, outcomes, n);
    }
  }

  // ---- Totals ----

  function TotalsOf(outcomes: seq<Outcome>): Totals {
    if outcomes == [] then ZERO
    else
      var n := |outcomes| - 1;
      var t := TotalsOf(outcomes[..n]);
      Tally(t, outcomes[n])
  }

  function Tally(t: Totals, outcome: Outcome): Totals {
    Totals(t.synced + (if outcome.Synced? then 1 else 0), t.failed + (if FinalStatus(outcome) == Failed then 1 else 0),
           Plus(t.accounts, ItemsOf(outcome)))
  }

  /** The totals count a record as synced only for a synced outcome, and every record that ended. */
  lemma {:induction false} TotalsCount(outcomes: seq<Outcome>)
    ensures 0 <= TotalsOf(outcomes).synced && 0 <= TotalsOf(outcomes).failed
    ensures TotalsOf(outcomes).synced == 0 <==> forall o :: o in outcomes ==> !o.Synced?
    ensures TotalsOf(outcomes).synced + TotalsOf(outcomes).failed <= |outcomes|
    ensures TotalsOf(outcomes).synced + TotalsOf(outcomes).failed == |outcomes| <==> forall o :: o in outcomes ==> !o.Escapes?
  {
    if outcomes == [] {
    } else {
      var n := |outcomes| - 1;
      TotalsCount(outcomes[..n]);
      assert outcomes == outcomes[..n] + [outcomes[n]];
    }
  }

  /** The records are all of the session's, each once, and none has finished. */
  ghost predicate Untouched(s: Store, sid: string, records: seq<nat>) {
    && Distinct(records)
    && (forall r :: r in records <==> r in RecordsOf(s, sid))
    && (forall r :: r in records ==> !Finished(s.records[r].status) && s.records[r].stats == NO_STATS)
  }

  ghost predicate Tallied(t: Store, sid: string, totals: Totals) {
    |WithStatus(t, sid, Completed)| == totals.synced && |WithStatus(t, sid, Failed)| == totals.failed
  }

  /** The totals are the numbers of completed and failed records, one by one, after every round of the loop. */
  lemma {:induction false} TotalsMatchRecords(states: seq<Store>, sid: string, records: seq<nat>, outcomes: seq<Outcome>, n: nat)
    requires Trace(states, records, outcomes) && n < |states| && Untouched(states[0], sid, records)
    ensures Tallied(states[n], sid, TotalsOf(outcomes[..n]))
  {
    if n == 0 {
      NoneFinished(states[0], sid, records);
    } else {
      assert outcomes[..n][..n - 1] == outcomes[..n - 1];
      TotalsMatchRecords(states, sid, records, outcomes, n - 1);
      TraceEnds(states, records, outcomes, n - 1);
      NextUnfinished(states[0], states[n - 1], sid, records, outcomes, n);
      assert EndsAt(states, records, outcomes, n - 1);
      OneMoreFinished(states[n - 1], states[n], sid, records[n - 1], outcomes[n - 1]);
    }
  }

  lemma NoneFinished(s: Store, sid: string, records: seq<nat>)
    requires Untouched(s, sid, records)
    ensures WithStatus(s, sid, Completed) == {} && WithStatus(s, sid, Failed) == {}
  {
  }

  lemma NextUnfinished(s: Store, before: Store, sid: string, records: seq<nat>, outcomes: seq<Outcome>, n: nat)
    requires 0 < n <= |records| && n <= |outcomes| && AllEnded(s, before, records, outcomes, n - 1)
    requires Untouched(s, sid, records)
    ensures records[n - 1] in RecordsOf(before, sid) && !Finished(before.records[records[n - 1]].status)
  {
    var r := records[n - 1];
    assert r in records;
    assert r in RecordsOf(s, sid) && !Finished(s.records[r].status);
    assert r !in records[..n - 1];
    assert before.records[r] == s.records[r];
  }

  lemma OneMoreFinished(s: Store, t: Store, sid: string, r: nat, outcome: Outcome)
    requires Ended(s, t, r, outcome) && r in RecordsOf(s, sid) && !Finished(s.records[r].status)
    ensures |WithStatus(t, sid, Completed)| == |WithStatus(s, sid, Completed)| + (if outcome.Synced? then 1 else 0)
    ensures |WithStatus(t, sid, Failed)| == |WithStatus(s, sid, Failed)| + (if FinalStatus(outcome) == Failed then 1 else 0)
  {
    OneMoreWith(s, t, sid, r, outcome, Completed);
    OneMoreWith(s, t, sid, r, outcome, Failed);
  }

  lemma OneMoreWith(s: Store, t: Store, sid: string, r: nat, outcome: Outcome, status: RecordStatus)
    requires Ended(s, t, r, outcome) && r in RecordsOf(s, sid) && s.records[r].status != status
    ensures |WithStatus(t, sid, status)| == |WithStatus(s, sid, status)| + (if FinalStatus(outcome) == status then 1 else 0)
  {
    if FinalStatus(outcome) == status {
      assert WithStatus(t, sid, status) == WithStatus(s, sid, status) + {r};
    } else {
      assert WithStatus(t, sid, status) == WithStatus(s, sid, status);
    }
  }

  /** A column of the items that the first n records report, added up. */
  function ColumnSum(t: Store, records: seq<nat>, n: nat, column: Stats -> int): int
    requires n <= |records| && forall r :: r in records ==> r in t.records
  {
    if n == 0 then 0 else ColumnSum(t, records, n - 1, column) + column(t.records[records[n - 1]].stats)
  }

  lemma {:induction false} ColumnOfItems(t: Store, records: seq<nat>, outcomes: seq<Outcome>, n: nat, column: Stats -> int)
    requires n <= |records| && n <= |outcomes| && forall r :: r in records ==> r in t.records
    requires forall j | 0 <= j < n :: t.records[records[j]].stats == ItemsOf(outcomes[j])
    requires column(NO_STATS) == 0 && forall a, b :: column(Plus(a, b)) == column(a) + column(b)
    ensures column(TotalsOf(outcomes[..n]).accounts) == ColumnSum(t, records, n, column)
  {
    if n == 0 {
    } else {
      ColumnOfItems(t, records, outcomes, n - 1, column);
      assert outcomes[..n][..n - 1] == outcomes[..n - 1];
    }
  }

  /** The account totals of a run are, column by column, the sums of what its processed records report. */
  lemma AccountTotalsMatchRecords(states: seq<Store>, sid: string, records: seq<nat>, outcomes: seq<Outcome>, n: nat)
    requires Trace(states, records, outcomes) && n < |states| && Untouched(states[0], sid, records)
    ensures forall r :: r in records ==> r in states[n].records
    ensures var a := TotalsOf(outcomes[..n]).accounts;
      && a.synced == ColumnSum(states[n], records, n, (x: Stats) => x.synced)
      && a.created == ColumnSum(states[n], records, n, (x: Stats) => x.created)
      && a.updated == ColumnSum(states[n], records, n, (x: Stats) => x.updated)
      && a.deleted == ColumnSum(states[n], records, n, (x: Stats) => x.deleted)
  {
    TraceEnds(states, records, outcomes, n);
    ColumnOfItems(states[n], records, outcomes, n, (x: Stats) => x.synced);
    ColumnOfItems(states[n], records, outcomes, n, (x: Stats) => x.created);
    ColumnOfItems(states[n], records, outcomes, n, (x: Stats) => x.updated);
    ColumnOfItems(states[n], records, outcomes, n, (x: Stats) => x.deleted);
  }

  // ---- The session's own counters ----

  lemma ProcessedKeepsInStep(s: Store, r: nat, outcome: Outcome, at: int, sid: string)
    requires Valid(s) && sid in s.sessions && InStep(s, sid) && r in s.records && !Finished(s.records[r].status)
    ensures InStep(Processed(s, r, outcome, at), sid)
  {
    var started := Apply(s, Start(r, at));
    ApplyKeepsValid(s, Start(r, at));
    InStepIff(s, Start(r, at), sid);
    match outcome
    case Refused(message) => InStepIff(started, Fail(r, message, at), sid);
    case Synced(stats) => InStepIff(started, Complete(r, stats, at), sid);
    case SyncedThenRaised(stats, message) =>
      ApplyKeepsValid(started, Complete(r, stats, at));
      InStepIff(started, Complete(r, stats, at), sid);
      InStepIff(Apply(started, Complete(r, stats, at)), Fail(r, message, at), sid);
    case Escapes =>
  }

  lemma ProcessedKeepsTotal(s: Store, r: nat, outcome: Outcome, at: int, sid: string)
    requires Valid(s) && sid in s.sessions
    ensures Processed(s, r, outcome, at).sessions[sid].total == s.sessions[sid].total
  {
  }

  /** In a loop over untouched records the session's counters stay those of its records. */
  lemma {:induction false} LoopInStep(states: seq<Store>, sid: string, records: seq<nat>, outcomes: seq<Outcome>, at: int, n: nat)
    requires Loop(states, records, outcomes, at) && n < |states|
    requires sid in states[0].sessions && Untouched(states[0], sid, records) && InStep(states[0], sid)
    ensures sid in states[n].sessions && InStep(states[n], sid) && states[n].sessions[sid].total == states[0].sessions[sid].total
  {
    if n == 0 {
    } else {
      LoopInStep(states, sid, records, outcomes, at, n - 1);
      LoopIsTrace(states, records, outcomes, at);
      TraceEnds(states, records, outcomes, n - 1);
      NextUnfinished(states[0], states[n - 1], sid, records, outcomes, n);
      assert LoopsAt(states, records, outcomes, at, n - 1);
      ProcessedKeepsInStep(states[n - 1], records[n - 1], outcomes[n - 1], at, sid);
      ProcessedKeepsTotal(states[n - 1], records[n - 1], outcomes[n - 1], at, sid);
    }
  }

  // ---- The final verdict ----

  /** What the successful end writes, whatever the session's status was. */
  function Finalized(x: Session, totals: Totals, at: int): Session {
    x.(succeeded := totals.synced, failed := totals.failed, completedAt := Some(at),
       status := if totals.failed == 0 then SessionCompleted else SessionFailed)
  }

  function FinalizedFailure(x: Session, instances: nat, at: int): Session {
    x.(status := SessionFailed, completedAt := Some(at), failed := instances)
  }

  /** The session row says what the records say: their counts and, once all have finished, their verdict. */
  ghost predicate Agrees(s: Store, sid: string, x: Session) {
    && x.succeeded == |WithStatus(s, sid, Completed)| && x.failed == |WithStatus(s, sid, Failed)|
    && x.status == if AllFinished(s, sid) then Verdict(s, sid) else SessionRunning
  }

  /**
   * A loop over the first n records ends with the counts of the records in any case, and with their verdict
   * exactly when it was not cut short: a cancelled run is closed although records are still pending.
   */
  lemma FinalizedAgreesIff(states: seq<Store>, sid: string, records: seq<nat>, outcomes: seq<Outcome>, x: Session, at: int)
    requires Trace(states, records, outcomes) && Untouched(states[0], sid, records)
    requires forall o :: o in outcomes[..|states| - 1] ==> !o.Escapes?
    ensures var n := |states| - 1;
      var t, y := states[n], Finalized(x, TotalsOf(outcomes[..n]), at);
      && Tallied(t, sid, TotalsOf(outcomes[..n]))
      && (y.status == SessionFailed <==> Verdict(t, sid) == SessionFailed)
      && (Agrees(t, sid, y) <==> n == |records|)
  {
    var n := |states| - 1;
    var t := states[n];
    TotalsMatchRecords(states, sid, records, outcomes, n);
    TotalsCount(outcomes[..n]);
    TraceEnds(states, records, outcomes, n);
    SameRecords(states[0], t, sid);
    DistinctSize(records, RecordsOf(states[0], sid));
    VerdictOfCounts(t, sid, Finalized(x, TotalsOf(outcomes[..n]), at));
  }

  lemma SameRecords(s: Store, t: Store, sid: string)
    requires t.records.Keys == s.records.Keys && forall r | r in s.records :: t.records[r].session == s.records[r].session
    ensures RecordsOf(t, sid) == RecordsOf(s, sid)
  {
  }

  /** A row with the records' counts, closed as failed exactly when it counts a failure, agrees once all records have finished. */
  lemma VerdictOfCounts(t: Store, sid: string, x: Session)
    requires x.succeeded == |WithStatus(t, sid, Completed)| && x.failed == |WithStatus(t, sid, Failed)|
    requires x.status == if x.failed == 0 then SessionCompleted else SessionFailed
    ensures x.status == SessionFailed <==> Verdict(t, sid) == SessionFailed
    ensures Agrees(t, sid, x) <==> x.succeeded + x.failed == |RecordsOf(t, sid)|
  {
    CountsAddUpIff(t, sid);
  }

  /** Cancelling the session meanwhile leaves no trace after the successful end. */
  lemma FinalizeOverwritesCancel(s: Store, sid: string, totals: Totals, at: int, cancelledAt: int)
    requires Valid(s) && Cancels(s, sid)
    ensures sid in Apply(s, Cancel(sid, cancelledAt)).sessions
    ensures Apply(s, Cancel(sid, cancelledAt)).sessions[sid].status == SessionCancelled
    ensures Finalized(Apply(s, Cancel(sid, cancelledAt)).sessions[sid], totals, at) == Finalized(s.sessions[sid], totals, at)
  {
  }

  /**
   * The failing end, wherever the loop broke off: the session keeps the number of records completed by then
   * and counts every instance as failed, so the counts stay within the total exactly when none had completed.
   */
  lemma FailureCountsWithinTotalIff(states: seq<Store>, sid: string, records: seq<nat>, outcomes: seq<Outcome>, at: int, end: int)
    requires Loop(states, records, outcomes, at)
    requires sid in states[0].sessions && Untouched(states[0], sid, records) && InStep(states[0], sid)
    requires states[0].sessions[sid].total == |records|
    ensures var n := |states| - 1;
      && sid in states[n].sessions
      && var x := FinalizedFailure(states[n].sessions[sid], |records|, end);
      && x.succeeded == |WithStatus(states[n], sid, Completed)| && x.failed == x.total
      && (x.succeeded + x.failed <= x.total <==> forall o :: o in outcomes[..n] ==> !o.Synced?)
  {
    var n := |states| - 1;
    LoopInStep(states, sid, records, outcomes, at, n);
    LoopIsTrace(states, records, outcomes, at);
    TotalsMatchRecords(states, sid, records, outcomes, n);
    TotalsCount(outcomes[..n]);
  }

  /** Two instances, the first synced and an error escaping from the second: one succeeded and two failed, of two. */
  lemma SyncedThenEscapes(states: seq<Store>, sid: string, records: seq<nat>, outcomes: seq<Outcome>, at: int, end: int)
    requires Loop(states, records, outcomes, at) && |states| == 3 && |records| == |outcomes| == 2
    requires sid in states[0].sessions && Untouched(states[0], sid, records) && InStep(states[0], sid)
    requires states[0].sessions[sid].total == 2 && outcomes[0].Synced? && outcomes[1] == Escapes
    ensures sid in states[2].sessions
    ensures var x := FinalizedFailure(states[2].sessions[sid], 2, end); x.succeeded == 1 && x.failed == 2 && x.total == 2
  {
    FailureCountsWithinTotalIff(states, sid, records, outcomes, at, end);
    LoopIsTrace(states, records, outcomes, at);
    TotalsMatchRecords(states, sid, records, outcomes, 2);
    assert outcomes[..2] == [outcomes[0], outcomes[1]] && outcomes[..2][..1] == [outcomes[0]] && [outcomes[0]][..0] == [];
    assert TotalsOf([]) == ZERO;
    assert TotalsOf([outcomes[0]]).synced == 1;
  }
}

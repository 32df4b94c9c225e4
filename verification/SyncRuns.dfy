/** Whole runs of the sync session service: counters, the verdict, cancellation and isolation. */
module SyncRuns {
  import opened Common
  import opened SyncModel

  // ---- One session at a time ----

  /** An operation leaves every other session, and the records of every other session, alone. */
  lemma OtherSessionsUntouched(s: Store, op: Op, sid: string)
    requires Valid(s) && sid in s.sessions && Target(s, op) != Some(sid)
    ensures Apply(s, op).sessions[sid] == s.sessions[sid]
    ensures forall r :: r in RecordsOf(s, sid) ==> Apply(s, op).records[r] == s.records[r]
    ensures RecordsOf(Apply(s, op), sid) == RecordsOf(s, sid)
  {
  }

  /** A finish recounts its session from the new statuses. */
  lemma FinishRecounts(s: Store, op: Op, sid: string)
    requires Valid(s) && Finishes(s, op, sid)
    ensures var t := Apply(s, op);
      t.sessions[sid] == Counted(s.sessions[sid], |WithStatus(t, sid, Completed)|, |WithStatus(t, sid, Failed)|, op.at)
  {
  }

  /** Anything but a finish or an effective cancel leaves the session row as it was. */
  lemma SessionRowStays(s: Store, op: Op, sid: string)
    requires Valid(s) && sid in s.sessions && !Finishes(s, op, sid)
    requires op.Cancel? && op.sid == sid ==> !Cancels(s, sid)
    ensures Apply(s, op).sessions[sid] == s.sessions[sid]
  {
  }

  // ---- Terminal states are absorbing ----

  lemma TerminalStays(s: Store, op: Op, sid: string)
    requires Valid(s) && sid in s.sessions && Terminal(s.sessions[sid].status)
    ensures sid in Apply(s, op).sessions
    ensures Apply(s, op).sessions[sid].status == s.sessions[sid].status
    ensures Apply(s, op).sessions[sid].completedAt == s.sessions[sid].completedAt
  {
  }

  /** Once a session has ended, no sequence of calls changes its status or its end time. */
  lemma {:induction false} TerminalAbsorbing(s: Store, ops: seq<Op>, sid: string)
    requires Valid(s) && sid in s.sessions && Terminal(s.sessions[sid].status)
    ensures Run(s, ops).sessions[sid].status == s.sessions[sid].status
    ensures Run(s, ops).sessions[sid].completedAt == s.sessions[sid].completedAt
  {
    if ops == [] {
    } else {
      TerminalAbsorbing(s, ops[..|ops| - 1], sid);
      TerminalStays(Run(s, ops[..|ops| - 1]), ops[|ops| - 1], sid);
    }
  }

  // ---- Counters equal record statuses ----

  ghost predicate InStep(s: Store, sid: string)
    requires sid in s.sessions
  {
    s.sessions[sid].succeeded == |WithStatus(s, sid, Completed)| && s.sessions[sid].failed == |WithStatus(s, sid, Failed)|
  }

  predicate Restarts(s: Store, op: Op, sid: string) {
    op.Start? && op.record in s.records && s.records[op.record].session == sid && Finished(s.records[op.record].status)
  }

  /** Restarting a finished record is the one call after which the counters no longer equal the statuses. */
  lemma InStepIff(s: Store, op: Op, sid: string)
    requires Valid(s) && sid in s.sessions && InStep(s, sid)
    ensures sid in Apply(s, op).sessions
    ensures InStep(Apply(s, op), sid) <==> !Restarts(s, op, sid)
  {
    var t := Apply(s, op);
    if Finishes(s, op, sid) {
      FinishRecounts(s, op, sid);
    } else {
      assert t.sessions[sid].succeeded == s.sessions[sid].succeeded && t.sessions[sid].failed == s.sessions[sid].failed;
      if Restarts(s, op, sid) {
        RestartCounts(s, op, sid);
      } else {
        assert WithStatus(t, sid, Completed) == WithStatus(s, sid, Completed);
        assert WithStatus(t, sid, Failed) == WithStatus(s, sid, Failed);
      }
    }
  }

  lemma RestartCounts(s: Store, op: Op, sid: string)
    requires Valid(s) && Restarts(s, op, sid)
    ensures var t := Apply(s, op);
      |WithStatus(t, sid, Completed)| + |WithStatus(t, sid, Failed)|
        == |WithStatus(s, sid, Completed)| + |WithStatus(s, sid, Failed)| - 1
  {
    var t := Apply(s, op);
    var r := op.record;
    if s.records[r].status == Completed {
      assert WithStatus(t, sid, Completed) == WithStatus(s, sid, Completed) - {r};
      assert WithStatus(t, sid, Failed) == WithStatus(s, sid, Failed);
    } else {
      assert WithStatus(t, sid, Failed) == WithStatus(s, sid, Failed) - {r};
      assert WithStatus(t, sid, Completed) == WithStatus(s, sid, Completed);
    }
  }

  ghost predicate NeverRestarts(s: Store, ops: seq<Op>, sid: string)
    requires Valid(s)
  {
    ops == [] || (NeverRestarts(s, ops[..|ops| - 1], sid) && !Restarts(Run(s, ops[..|ops| - 1]), ops[|ops| - 1], sid))
  }

  /** A session just set up: running, nothing finished, the total being the number of its records. */
  ghost predicate Fresh(s: Store, sid: string) {
    && sid in s.sessions
    && s.sessions[sid].status == SessionRunning && s.sessions[sid].succeeded == 0 && s.sessions[sid].failed == 0
    && s.sessions[sid].total == |RecordsOf(s, sid)| > 0
    && forall r | r in RecordsOf(s, sid) :: !Finished(s.records[r].status)
  }

  lemma {:induction false} TotalStays(s: Store, ops: seq<Op>, sid: string)
    requires Valid(s) && sid in s.sessions
    ensures Run(s, ops).sessions[sid].total == s.sessions[sid].total
    ensures RecordsOf(Run(s, ops), sid) == RecordsOf(s, sid)
  {
    if ops == [] {
    } else {
      var before := Run(s, ops[..|ops| - 1]);
      var op := ops[|ops| - 1];
      TotalStays(s, ops[..|ops| - 1], sid);
      ApplyKeepsValid(before, op);
      if Finishes(before, op, sid) {
        FinishRecounts(before, op, sid);
      }
    }
  }

  /** Over every run without restarts, the stored counts are the numbers of completed and failed records. */
  lemma {:induction false} CountsMatchRecords(s: Store, ops: seq<Op>, sid: string)
    requires Valid(s) && Fresh(s, sid) && NeverRestarts(s, ops, sid)
    ensures InStep(Run(s, ops), sid)
  {
    if ops == [] {
      assert WithStatus(s, sid, Completed) == {};
      assert WithStatus(s, sid, Failed) == {};
    } else {
      CountsMatchRecords(s, ops[..|ops| - 1], sid);
      InStepIff(Run(s, ops[..|ops| - 1]), ops[|ops| - 1], sid);
    }
  }

  // ---- The verdict ----

  ghost predicate AllFinished(s: Store, sid: string) {
    forall r | r in RecordsOf(s, sid) :: Finished(s.records[r].status)
  }

  /** What the records say the outcome is. */
  ghost function Verdict(s: Store, sid: string): SessionStatus {
    if exists r :: r in RecordsOf(s, sid) && s.records[r].status == Failed then SessionFailed else SessionCompleted
  }

  /** The counts add up to the number of records exactly when every record has finished. */
  lemma CountsAddUpIff(s: Store, sid: string)
    ensures |WithStatus(s, sid, Completed)| + |WithStatus(s, sid, Failed)| <= |RecordsOf(s, sid)|
    ensures |WithStatus(s, sid, Completed)| + |WithStatus(s, sid, Failed)| == |RecordsOf(s, sid)| <==> AllFinished(s, sid)
    ensures |WithStatus(s, sid, Failed)| > 0 <==> Verdict(s, sid) == SessionFailed
  {
    var done, bad, all := WithStatus(s, sid, Completed), WithStatus(s, sid, Failed), RecordsOf(s, sid);
    var rest := all - done - bad;
    assert all == done + bad + rest && done !! bad;
    assert |all| == |done| + |bad| + |rest|;
    if AllFinished(s, sid) {
      assert forall r :: r !in rest;
      assert rest == {};
    } else {
      var r :| r in all && !Finished(s.records[r].status);
      assert r in rest;
    }
    if bad != {} {
      var r :| r in bad;
      assert r in all && s.records[r].status == Failed;
    }
    assert forall r :: r in all && s.records[r].status == Failed <==> r in bad;
  }

  /** A session that is still running settles with the records' verdict at the moment the last of them finishes. */
  lemma FinishSettles(s: Store, op: Op, sid: string)
    requires Valid(s) && Finishes(s, op, sid) && s.sessions[sid].total == |RecordsOf(s, sid)|
    requires s.sessions[sid].status == SessionRunning
    ensures var t := Apply(s, op);
      && sid in t.sessions
      && t.sessions[sid].status == if AllFinished(t, sid) then Verdict(t, sid) else SessionRunning
  {
    var t := Apply(s, op);
    FinishRecounts(s, op, sid);
    assert RecordsOf(t, sid) == RecordsOf(s, sid);
    CountsAddUpIff(t, sid);
  }

  /** Whether a cancel of this session takes effect somewhere along the run. */
  ghost predicate Cancelled(s: Store, ops: seq<Op>, sid: string)
    requires Valid(s)
  {
    ops != [] && (Cancelled(s, ops[..|ops| - 1], sid) || CancelsNow(Run(s, ops[..|ops| - 1]), ops[|ops| - 1], sid))
  }

  predicate CancelsNow(s: Store, op: Op, sid: string) {
    op.Cancel? && op.sid == sid && Cancels(s, sid)
  }

  /** A session is cancelled at the end exactly when some cancel found it running. */
  lemma {:induction false} CancelledIff(s: Store, ops: seq<Op>, sid: string)
    requires Valid(s) && Fresh(s, sid)
    ensures Run(s, ops).sessions[sid].status == SessionCancelled <==> Cancelled(s, ops, sid)
  {
    if ops == [] {
    } else {
      var before := Run(s, ops[..|ops| - 1]);
      var op := ops[|ops| - 1];
      CancelledIff(s, ops[..|ops| - 1], sid);
      if Terminal(before.sessions[sid].status) {
        TerminalStays(before, op, sid);
      } else if Finishes(before, op, sid) {
        FinishRecounts(before, op, sid);
      } else if !CancelsNow(before, op, sid) {
        SessionRowStays(before, op, sid);
      }
    }
  }

  /** The store at the first moment along the run at which every record of the session had finished. */
  ghost function FirstSettled(s: Store, ops: seq<Op>, sid: string): Option<Store>
    requires Valid(s)
  {
    var earlier := if ops == [] then None else FirstSettled(s, ops[..|ops| - 1], sid);
    if earlier.Some? then earlier else if AllFinished(Run(s, ops), sid) then Some(Run(s, ops)) else None
  }

  /** Whether every record had finished after the first j calls. */
  ghost predicate SettledAt(s: Store, ops: seq<Op>, sid: string, j: nat)
    requires Valid(s) && j <= |ops|
  {
    AllFinished(Run(s, ops[..j]), sid)
  }

  lemma SettledAtPrefix(s: Store, ops: seq<Op>, sid: string, n: nat, j: nat)
    requires Valid(s) && j <= n <= |ops|
    ensures SettledAt(s, ops[..n], sid, j) == SettledAt(s, ops, sid, j)
  {
    assert ops[..n][..j] == ops[..j];
  }

  lemma SettledNow(s: Store, ops: seq<Op>, sid: string)
    requires Valid(s)
    ensures SettledAt(s, ops, sid, |ops|) == AllFinished(Run(s, ops), sid)
  {
    assert ops[..|ops|] == ops;
  }

  lemma {:induction false} NeverSettled(s: Store, ops: seq<Op>, sid: string)
    requires Valid(s) && forall j | 0 <= j <= |ops| :: !SettledAt(s, ops, sid, j)
    ensures FirstSettled(s, ops, sid) == None
  {
    SettledNow(s, ops, sid);
    if ops == [] {
    } else {
      var n := |ops| - 1;
      forall j | 0 <= j <= n ensures !SettledAt(s, ops[..n], sid, j) {
        SettledAtPrefix(s, ops, sid, n, j);
      }
      NeverSettled(s, ops[..n], sid);
    }
  }

  /** It is the first such moment. */
  lemma {:induction false} FirstSettledIsFirst(s: Store, ops: seq<Op>, sid: string, k: nat)
    requires Valid(s) && k <= |ops| && SettledAt(s, ops, sid, k)
    requires forall j | 0 <= j < k :: !SettledAt(s, ops, sid, j)
    ensures FirstSettled(s, ops, sid) == Some(Run(s, ops[..k]))
  {
    if k == |ops| {
      assert ops[..|ops|] == ops;
      if ops != [] {
        var n := |ops| - 1;
        forall j | 0 <= j <= n ensures !SettledAt(s, ops[..n], sid, j) {
          SettledAtPrefix(s, ops, sid, n, j);
        }
        NeverSettled(s, ops[..n], sid);
      }
    } else {
      var n := |ops| - 1;
      forall j | 0 <= j <= k ensures SettledAt(s, ops[..n], sid, j) == SettledAt(s, ops, sid, j) {
        SettledAtPrefix(s, ops, sid, n, j);
      }
      assert ops[..n][..k] == ops[..k];
      FirstSettledIsFirst(s, ops[..n], sid, k);
    }
  }

  /** Only a finish can bring a session's last record to an end. */
  lemma StaysUnfinished(s: Store, op: Op, sid: string)
    requires Valid(s) && !AllFinished(s, sid) && !Finishes(s, op, sid)
    ensures !AllFinished(Apply(s, op), sid)
  {
    var r :| r in RecordsOf(s, sid) && !Finished(s.records[r].status);
    ApplyKeepsValid(s, op);
    assert r in RecordsOf(Apply(s, op), sid) && !Finished(Apply(s, op).records[r].status);
  }

  lemma StartsUnfinished(s: Store, sid: string)
    requires Fresh(s, sid)
    ensures !AllFinished(s, sid)
  {
  }

  /**
   * Over every run without an effective cancel, the session runs until all its records have finished,
   * and from then on has the verdict the records had at that first moment, whatever happens to them later.
   */
  lemma {:induction false} StatusIsFirstVerdict(s: Store, ops: seq<Op>, sid: string)
    requires Valid(s) && Fresh(s, sid) && !Cancelled(s, ops, sid)
    ensures Run(s, ops).sessions[sid].status ==
      match FirstSettled(s, ops, sid)
      case None => SessionRunning
      case Some(settled) => Verdict(settled, sid)
  {
    if ops == [] {
      StartsUnfinished(s, sid);
    } else {
      var shorter := ops[..|ops| - 1];
      StatusIsFirstVerdict(s, shorter, sid);
      if FirstSettled(s, shorter, sid).Some? {
        TerminalStays(Run(s, shorter), ops[|ops| - 1], sid);
      } else {
        UnsettledMeansUnfinished(s, shorter, sid);
        UnsettledStep(s, ops, sid);
      }
    }
  }

  lemma UnsettledMeansUnfinished(s: Store, ops: seq<Op>, sid: string)
    requires Valid(s) && FirstSettled(s, ops, sid) == None
    ensures !AllFinished(Run(s, ops), sid)
  {
  }

  lemma UnsettledStep(s: Store, ops: seq<Op>, sid: string)
    requires Valid(s) && Fresh(s, sid) && !Cancelled(s, ops, sid) && ops != []
    requires Run(s, ops[..|ops| - 1]).sessions[sid].status == SessionRunning
    requires !AllFinished(Run(s, ops[..|ops| - 1]), sid)
    ensures Run(s, ops).sessions[sid].status == if AllFinished(Run(s, ops), sid) then Verdict(Run(s, ops), sid) else SessionRunning
  {
    var before, op := Run(s, ops[..|ops| - 1]), ops[|ops| - 1];
    if Finishes(before, op, sid) {
      TotalStays(s, ops[..|ops| - 1], sid);
      FinishSettles(before, op, sid);
    } else {
      SessionRowStays(before, op, sid);
      StaysUnfinished(before, op, sid);
    }
  }

  // ---- Each record finishing once ----

  /** No finished record of the session is started or finished again. */
  ghost predicate FinishesOnce(s: Store, ops: seq<Op>, sid: string)
    requires Valid(s)
  {
    ops == [] || (FinishesOnce(s, ops[..|ops| - 1], sid) && !Reopens(Run(s, ops[..|ops| - 1]), ops[|ops| - 1], sid))
  }

  predicate Reopens(s: Store, op: Op, sid: string) {
    !op.Cancel? && op.record in s.records && s.records[op.record].session == sid && Finished(s.records[op.record].status)
  }

  lemma {:induction false} FinishingOnceNeverRestarts(s: Store, ops: seq<Op>, sid: string)
    requires Valid(s) && FinishesOnce(s, ops, sid)
    ensures NeverRestarts(s, ops, sid)
  {
    if ops == [] {
    } else {
      FinishingOnceNeverRestarts(s, ops[..|ops| - 1], sid);
    }
  }

  lemma SettledRecordsStay(s: Store, op: Op, sid: string)
    requires Valid(s) && AllFinished(s, sid) && !Reopens(s, op, sid)
    ensures AllFinished(Apply(s, op), sid) && Verdict(Apply(s, op), sid) == Verdict(s, sid)
  {
    ApplyKeepsValid(s, op);
    var t := Apply(s, op);
    assert RecordsOf(t, sid) == RecordsOf(s, sid);
    assert forall r | r in RecordsOf(s, sid) :: t.records[r] == s.records[r];
  }

  /**
   * When every record finishes once, a session that was not cancelled is running until the last of its
   * records finishes and then failed exactly when one of them failed; its counts are theirs.
   */
  lemma {:induction false} StatusIsVerdict(s: Store, ops: seq<Op>, sid: string)
    requires Valid(s) && Fresh(s, sid) && FinishesOnce(s, ops, sid) && !Cancelled(s, ops, sid)
    ensures var t := Run(s, ops);
      && t.sessions[sid].status == (if AllFinished(t, sid) then Verdict(t, sid) else SessionRunning)
      && InStep(t, sid)
  {
    FinishingOnceNeverRestarts(s, ops, sid);
    CountsMatchRecords(s, ops, sid);
    if ops == [] {
      StartsUnfinished(s, sid);
    } else {
      var before, op := Run(s, ops[..|ops| - 1]), ops[|ops| - 1];
      StatusIsVerdict(s, ops[..|ops| - 1], sid);
      if AllFinished(before, sid) {
        SettledRecordsStay(before, op, sid);
        TerminalStays(before, op, sid);
      } else {
        UnsettledStep(s, ops, sid);
      }
    }
  }

  /**
   * Finishing a record twice is what breaks it: if the last record completes while the others have completed,
   * and then fails, the session stays completed although a failure is counted and the records say failed.
   */
  lemma CompletedThenFailed(s: Store, sid: string, r: nat, stats: Stats, message: string, at: int)
    requires Valid(s) && sid in s.sessions && s.sessions[sid].status == SessionRunning
    requires s.sessions[sid].total == |RecordsOf(s, sid)| && r in RecordsOf(s, sid)
    requires forall o | o in RecordsOf(s, sid) && o != r :: s.records[o].status == Completed
    ensures var t := Apply(Apply(s, Complete(r, stats, at)), Fail(r, message, at));
      && sid in t.sessions
      && t.sessions[sid].status == SessionCompleted && t.sessions[sid].failed == 1
      && Verdict(t, sid) == SessionFailed
  {
    var one := Apply(s, Complete(r, stats, at));
    var two := Apply(one, Fail(r, message, at));
    ApplyKeepsValid(s, Complete(r, stats, at));
    ApplyKeepsValid(one, Fail(r, message, at));
    FinishSettles(s, Complete(r, stats, at), sid);
    assert RecordsOf(one, sid) == RecordsOf(s, sid);
    assert AllFinished(one, sid) && Verdict(one, sid) == SessionCompleted;
    TerminalStays(one, Fail(r, message, at), sid);
    FinishRecounts(one, Fail(r, message, at), sid);
    assert WithStatus(two, sid, Failed) == {r};
    assert r in RecordsOf(two, sid);
  }

  // ---- When the verdict stays right ----

  /** Every record has finished and the session says what they say. */
  ghost predicate Settled(s: Store, sid: string) {
    sid in s.sessions && AllFinished(s, sid) && s.sessions[sid].status == Verdict(s, sid)
  }

  ghost predicate SomeFailed(s: Store, sid: string) {
    exists r :: r in RecordsOf(s, sid) && s.records[r].status == Failed
  }

  ghost predicate OnlyFailed(s: Store, sid: string, r: nat) {
    r in s.records && s.records[r].status == Failed &&
    forall o | o in RecordsOf(s, sid) && s.records[o].status == Failed :: o == r
  }

  /** Starting one of the records, failing one while none has failed, or completing the only failed one. */
  ghost predicate Spoils(s: Store, op: Op, sid: string) {
    && !op.Cancel? && op.record in RecordsOf(s, sid)
    && (op.Start? || (op.Fail? && !SomeFailed(s, sid)) || (op.Complete? && OnlyFailed(s, sid, op.record)))
  }

  lemma AfterFailing(s: Store, op: Op, sid: string)
    requires Valid(s) && AllFinished(s, sid) && op.Fail? && op.record in RecordsOf(s, sid)
    ensures AllFinished(Apply(s, op), sid) && Verdict(Apply(s, op), sid) == SessionFailed
  {
    var t := Apply(s, op);
    assert RecordsOf(t, sid) == RecordsOf(s, sid);
    assert op.record in RecordsOf(t, sid) && t.records[op.record].status == Failed;
  }

  lemma AfterCompleting(s: Store, op: Op, sid: string)
    requires Valid(s) && AllFinished(s, sid) && op.Complete? && op.record in RecordsOf(s, sid)
    ensures AllFinished(Apply(s, op), sid)
    ensures Verdict(Apply(s, op), sid) == SessionFailed <==> SomeFailed(s, sid) && !OnlyFailed(s, sid, op.record)
  {
    var t := Apply(s, op);
    assert RecordsOf(t, sid) == RecordsOf(s, sid);
    assert t.records[op.record].status == Completed;
    assert forall r | r in RecordsOf(s, sid) && r != op.record :: t.records[r] == s.records[r];
    if SomeFailed(s, sid) && !OnlyFailed(s, sid, op.record) {
      var r :| r in RecordsOf(s, sid) && s.records[r].status == Failed && r != op.record;
      assert r in RecordsOf(t, sid) && t.records[r].status == Failed;
    }
  }

  lemma AfterStarting(s: Store, op: Op, sid: string)
    requires Valid(s) && op.Start? && op.record in RecordsOf(s, sid)
    ensures !AllFinished(Apply(s, op), sid)
  {
    assert op.record in RecordsOf(Apply(s, op), sid) && !Finished(Apply(s, op).records[op.record].status);
  }

  lemma AfterOther(s: Store, op: Op, sid: string)
    requires Valid(s) && sid in s.sessions && AllFinished(s, sid)
    requires op.Cancel? || op.record !in RecordsOf(s, sid)
    ensures AllFinished(Apply(s, op), sid) && Verdict(Apply(s, op), sid) == Verdict(s, sid)
  {
    var t := Apply(s, op);
    ApplyKeepsValid(s, op);
    assert RecordsOf(t, sid) == RecordsOf(s, sid);
    assert forall r | r in RecordsOf(s, sid) :: t.records[r] == s.records[r];
  }

  /** One call on a settled session leaves it right exactly when it is none of the three that spoil it. */
  lemma SettledSurvivesIff(s: Store, op: Op, sid: string)
    requires Valid(s) && Settled(s, sid)
    ensures Settled(Apply(s, op), sid) <==> !Spoils(s, op, sid)
  {
    TerminalStays(s, op, sid);
    if op.Cancel? || op.record !in RecordsOf(s, sid) {
      AfterOther(s, op, sid);
    } else if op.Start? {
      AfterStarting(s, op, sid);
    } else if op.Fail? {
      AfterFailing(s, op, sid);
    } else {
      AfterCompleting(s, op, sid);
    }
  }

  ghost predicate NeverSpoils(s: Store, ops: seq<Op>, sid: string)
    requires Valid(s)
  {
    ops == [] || (NeverSpoils(s, ops[..|ops| - 1], sid) && !Spoils(Run(s, ops[..|ops| - 1]), ops[|ops| - 1], sid))
  }

  ghost predicate SettledThroughout(s: Store, ops: seq<Op>, sid: string)
    requires Valid(s)
  {
    Settled(Run(s, ops), sid) && (ops == [] || SettledThroughout(s, ops[..|ops| - 1], sid))
  }

  /** Over a run: the session is right after every call exactly when no call spoils it. */
  lemma {:induction false} SettledThroughoutIff(s: Store, ops: seq<Op>, sid: string)
    requires Valid(s) && Settled(s, sid)
    ensures SettledThroughout(s, ops, sid) <==> NeverSpoils(s, ops, sid)
  {
    if ops == [] {
    } else {
      var shorter := ops[..|ops| - 1];
      SettledThroughoutIff(s, shorter, sid);
      if NeverSpoils(s, shorter, sid) {
        SettledNowOf(s, shorter, sid);
        SettledSurvivesIff(Run(s, shorter), ops[|ops| - 1], sid);
      }
    }
  }

  lemma SettledNowOf(s: Store, ops: seq<Op>, sid: string)
    requires Valid(s) && SettledThroughout(s, ops, sid)
    ensures Settled(Run(s, ops), sid)
  {
  }

  // ---- The same, from the calls alone ----

  /** What a call makes of a record's status; cancels and calls on other records leave it. */
  function StatusAfter(status: RecordStatus, op: Op, r: nat): RecordStatus {
    if op.Cancel? || op.record != r then status
    else if op.Start? then Running else if op.Complete? then Completed else Failed
  }

  /** The status the last call on the record gave it. */
  function LastStatus(start: RecordStatus, ops: seq<Op>, r: nat): RecordStatus {
    if ops == [] then start else StatusAfter(LastStatus(start, ops[..|ops| - 1], r), ops[|ops| - 1], r)
  }

  lemma ApplyStatus(s: Store, op: Op, r: nat)
    requires Valid(s) && r in s.records
    ensures r in Apply(s, op).records
    ensures Apply(s, op).records[r].status == StatusAfter(s.records[r].status, op, r)
  {
  }

  lemma {:induction false} RecordStatusIsLastCall(s: Store, ops: seq<Op>, r: nat)
    requires Valid(s) && r in s.records
    ensures Run(s, ops).records[r].status == LastStatus(s.records[r].status, ops, r)
  {
    if ops == [] {
    } else {
      var shorter := ops[..|ops| - 1];
      RecordStatusIsLastCall(s, shorter, r);
      ApplyStatus(Run(s, shorter), ops[|ops| - 1], r);
    }
  }

  ghost predicate DoneBy(s: Store, ops: seq<Op>, sid: string) {
    forall r | r in RecordsOf(s, sid) :: Finished(LastStatus(s.records[r].status, ops, r))
  }

  ghost predicate FailedBy(s: Store, ops: seq<Op>, sid: string) {
    exists r :: r in RecordsOf(s, sid) && LastStatus(s.records[r].status, ops, r) == Failed
  }

  /** The calls decide whether all records have finished and whether one of them failed. */
  lemma CallsDecide(s: Store, ops: seq<Op>, sid: string)
    requires Valid(s) && sid in s.sessions
    ensures AllFinished(Run(s, ops), sid) <==> DoneBy(s, ops, sid)
    ensures Verdict(Run(s, ops), sid) == if FailedBy(s, ops, sid) then SessionFailed else SessionCompleted
  {
    TotalStays(s, ops, sid);
    forall r | r in RecordsOf(s, sid) ensures Run(s, ops).records[r].status == LastStatus(s.records[r].status, ops, r) {
      RecordStatusIsLastCall(s, ops, r);
    }
    StatusesDecide(s, Run(s, ops), ops, sid);
  }

  lemma StatusesDecide(s: Store, t: Store, ops: seq<Op>, sid: string)
    requires RecordsOf(t, sid) == RecordsOf(s, sid)
    requires forall r | r in RecordsOf(s, sid) :: t.records[r].status == LastStatus(s.records[r].status, ops, r)
    ensures AllFinished(t, sid) <==> DoneBy(s, ops, sid)
    ensures Verdict(t, sid) == if FailedBy(s, ops, sid) then SessionFailed else SessionCompleted
  {
  }

  /** The calls up to the first moment at which every record's last call finished it. */
  ghost function FirstDone(s: Store, ops: seq<Op>, sid: string): Option<seq<Op>> {
    var earlier := if ops == [] then None else FirstDone(s, ops[..|ops| - 1], sid);
    if earlier.Some? then earlier else if DoneBy(s, ops, sid) then Some(ops) else None
  }

  lemma {:induction false} FirstDoneSettles(s: Store, ops: seq<Op>, sid: string)
    requires Valid(s) && sid in s.sessions
    ensures FirstSettled(s, ops, sid) ==
      match FirstDone(s, ops, sid)
      case None => None
      case Some(first) => Some(Run(s, first))
  {
    CallsDecide(s, ops, sid);
    if ops == [] {
    } else {
      FirstDoneSettles(s, ops[..|ops| - 1], sid);
    }
  }

  lemma {:induction false} NoCancelCalls(s: Store, ops: seq<Op>, sid: string)
    requires Valid(s) && forall op :: op in ops ==> !(op.Cancel? && op.sid == sid)
    ensures !Cancelled(s, ops, sid)
  {
    if ops == [] {
    } else {
      NoCancelCalls(s, ops[..|ops| - 1], sid);
      assert ops[|ops| - 1] in ops;
    }
  }

  /**
   * Over every run without cancels from a session just set up, decided by the calls: the session is right at
   * the end exactly when its records never all finished, or when the last calls finish them all and some of
   * them fails if and only if some of them had failed at the first moment they had all finished.
   */
  lemma RightAtEndIff(s: Store, ops: seq<Op>, sid: string)
    requires Valid(s) && Fresh(s, sid) && forall op :: op in ops ==> !(op.Cancel? && op.sid == sid)
    ensures var t := Run(s, ops);
      t.sessions[sid].status == (if AllFinished(t, sid) then Verdict(t, sid) else SessionRunning) <==>
      match FirstDone(s, ops, sid)
      case None => true
      case Some(first) => DoneBy(s, ops, sid) && (FailedBy(s, first, sid) <==> FailedBy(s, ops, sid))
  {
    NoCancelCalls(s, ops, sid);
    StatusIsFirstVerdict(s, ops, sid);
    FirstDoneSettles(s, ops, sid);
    CallsDecide(s, ops, sid);
    var first := FirstDone(s, ops, sid);
    if first.Some? {
      CallsDecide(s, first.value, sid);
    } else {
      UnsettledMeansUnfinished(s, ops, sid);
    }
  }
}

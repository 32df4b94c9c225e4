/** The account sync task: session, records, the loop, and one of the two ends. */
module AccountsSyncTask {
  import opened Common
  import opened SyncModel
  import opened SyncRuns
  import opened SyncService
  import opened AccountsSync

  /** An escaping error ends the task in its failing end, or, if the task does not catch its type, in no end at all. */
  datatype TaskEnd = CancelledBefore | NoInstances | NoSuchSession | RecordsRefused | Escaped | Aborted | Ran(totals: Totals)

  /** Whether an error leaves the loop in the round of a record. */
  predicate Breaks(outcome: Outcome, raise: Raise) {
    outcome.Escapes? || raise != Nothing
  }

  /** Records as they were created: each once, existing, unfinished and without items. */
  ghost predicate Created(s: Store, records: seq<nat>) {
    && Distinct(records)
    && forall r :: r in records ==> r in s.records && !Finished(s.records[r].status) && s.records[r].stats == NO_STATS
  }

  lemma LoopStart(s: Store, records: seq<nat>, outcomes: seq<Outcome>, at: int)
    requires SyncModel.Valid(s)
    ensures Loop([s], records, outcomes, at)
  {
  }

  lemma RecordPresent(states: seq<Store>, records: seq<nat>, outcomes: seq<Outcome>, at: int, n: nat)
    requires Loop(states, records, outcomes, at) && Created(states[0], records) && n < |states| && n < |records|
    ensures records[n] in states[n].records
  {
    LoopKeepsKeys(states, records, outcomes, at, n);
    assert records[n] in records;
  }

  /** One more round: the loop's states grow, and the record read back has its outcome's items. */
  lemma LoopRound(states: seq<Store>, records: seq<nat>, outcomes: seq<Outcome>, at: int, t: Store)
    requires Loop(states, records, outcomes, at) && Created(states[0], records)
    requires |states| <= |records| && |states| <= |outcomes|
    requires t == Processed(states[|states| - 1], records[|states| - 1], outcomes[|states| - 1], at)
    ensures Loop(states + [t], records, outcomes, at)
    ensures records[|states| - 1] in t.records
    ensures t.records[records[|states| - 1]].stats == ItemsOf(outcomes[|states| - 1])
    ensures (t.records[records[|states| - 1]].status == Completed) == outcomes[|states| - 1].Synced?
  {
    var longer := states + [t];
    var n := |states| - 1;
    forall j | 0 <= j < |longer| - 1 ensures LoopsAt(longer, records, outcomes, at, j) {
      if j < n {
        assert LoopsAt(states, records, outcomes, at, j);
        assert longer[j + 1] == states[j + 1] && longer[j] == states[j];
      }
    }
    LoopIsTrace(longer, records, outcomes, at);
    TraceEnds(longer, records, outcomes, n + 1);
    assert longer[n + 1] == t;
  }

  lemma TotalsOneMore(outcomes: seq<Outcome>, n: nat)
    requires n < |outcomes|
    ensures TotalsOf(outcomes[..n + 1]) == Tally(TotalsOf(outcomes[..n]), outcomes[n])
  {
    assert outcomes[..n + 1][..n] == outcomes[..n];
  }

  /** No error left the loop in the first n rounds. */
  ghost predicate Unbroken(outcomes: seq<Outcome>, raises: nat -> Raise, n: int) {
    n <= |outcomes| && forall i | 0 <= i < n :: !Breaks(outcomes[i], raises(i))
  }

  /** The first error to leave the loop came in round n. */
  ghost predicate BreaksFirst(outcomes: seq<Outcome>, raises: nat -> Raise, n: int) {
    0 <= n < |outcomes| && Breaks(outcomes[n], raises(n)) && Unbroken(outcomes, raises, n)
  }

  predicate Uncancelled(cancelled: nat -> bool, n: int) {
    forall i | 0 <= i < n :: !cancelled(i)
  }

  /** The loop looks at the cancellation flag before every instance and goes through the first `stop` of them. */
  predicate StopsAt(cancelled: nat -> bool, instances: nat, stop: nat) {
    stop <= instances && Uncancelled(cancelled, stop) && (stop == instances || cancelled(stop))
  }

  /** No error left the first `stop` rounds, and they make up the totals. */
  ghost predicate RanTo(outcomes: seq<Outcome>, raises: nat -> Raise, cancelled: nat -> bool, totals: Totals, stop: nat) {
    StopsAt(cancelled, |outcomes|, stop) && Unbroken(outcomes, raises, stop) && totals == TotalsOf(outcomes[..stop])
  }

  /** The first error to leave the loop left it in round n, before any cancellation. */
  ghost predicate BrokenAt(outcomes: seq<Outcome>, raises: nat -> Raise, cancelled: nat -> bool, n: int) {
    BreaksFirst(outcomes, raises, n) && Uncancelled(cancelled, n + 1)
  }

  function EndOf(totals: Totals, escape: Raise): TaskEnd {
    if escape == Nothing then Ran(totals) else if escape == Caught then Escaped else Aborted
  }

  /** How the task ends, from what its instances come to: the totals up to the cancellation, or the first error, caught or not. */
  ghost predicate EndsAsCalled(outcomes: seq<Outcome>, raises: nat -> Raise, cancelled: nat -> bool, end: TaskEnd) {
    match end
    case Ran(totals) => exists stop: nat :: RanTo(outcomes, raises, cancelled, totals, stop)
    case Escaped => exists n :: BrokenAt(outcomes, raises, cancelled, n) && raises(n) != Uncaught
    case Aborted => exists n :: BrokenAt(outcomes, raises, cancelled, n) && raises(n) == Uncaught
    case _ => true
  }

  lemma LoopEnds(outcomes: seq<Outcome>, raises: nat -> Raise, cancelled: nat -> bool, totals: Totals, escape: Raise, rounds: int, stop: nat)
    requires escape == Nothing ==> RanTo(outcomes, raises, cancelled, totals, stop)
    requires escape != Nothing ==> BrokenAt(outcomes, raises, cancelled, rounds) && escape == EscapeOf(raises(rounds))
    ensures EndsAsCalled(outcomes, raises, cancelled, EndOf(totals, escape))
  {
  }

  lemma UnbrokenStep(outcomes: seq<Outcome>, raises: nat -> Raise, n: nat)
    requires Unbroken(outcomes, raises, n) && n < |outcomes|
    ensures if Breaks(outcomes[n], raises(n)) then BreaksFirst(outcomes, raises, n) else Unbroken(outcomes, raises, n + 1)
  {
  }

  lemma UnbrokenEnds(outcomes: seq<Outcome>, raises: nat -> Raise, n: nat)
    requires Unbroken(outcomes, raises, n)
    ensures forall o :: o in outcomes[..n] ==> !o.Escapes?
  {
  }

  /** The records added for a session without any are all its records. */
  lemma AddedUntouched(s: Store, sid: string, next: nat, instanceIds: seq<int>)
    requires forall r :: r in s.records ==> r < next
    ensures var t, records := Added(s, sid, next, instanceIds), seq(|instanceIds|, i => next + i);
      && Created(t, records) && t.sessions == s.sessions
      && (RecordsOf(s, sid) == {} ==> Untouched(t, sid, records))
  {
    var t, records := Added(s, sid, next, instanceIds), seq(|instanceIds|, i => next + i);
    AddedRows(s, sid, next, instanceIds);
    KeySeq(next, |instanceIds|);
    forall r | next <= r < next + |instanceIds| ensures t.records[r] == NewRecord(sid, instanceIds[r - next]) {
      assert next + (r - next) == r;
    }
    if RecordsOf(s, sid) == {} {
      forall r ensures r in records <==> r in RecordsOf(t, sid) {
        assert r in s.records ==> r !in RecordsOf(s, sid);
      }
    }
  }

  /** What a finished task says about its session, given how many instances it was started for. */
  ghost predicate Reported(s: Store, sid: string, totals: Totals, instances: nat, complete: bool) {
    && sid in s.sessions
    && Tallied(s, sid, totals)
    && s.sessions[sid].succeeded == totals.synced && s.sessions[sid].failed == totals.failed
    && (s.sessions[sid].status == SessionFailed <==> Verdict(s, sid) == SessionFailed)
    && (complete ==> Agrees(s, sid, s.sessions[sid]) && totals.synced + totals.failed == instances)
  }

  /** A session given up on: failed, every instance counted as failed. */
  predicate GivenUp(s: Store, sid: string, instances: nat) {
    sid in s.sessions && s.sessions[sid].status == SessionFailed && s.sessions[sid].failed == instances
  }

  /** The session counts as succeeded the records that are completed. */
  ghost predicate CountsCompleted(s: Store, sid: string) {
    sid in s.sessions && s.sessions[sid].succeeded == |WithStatus(s, sid, Completed)|
  }

  /** The session row carries the totals and the verdict they give. */
  ghost predicate Closed(s: Store, sid: string, totals: Totals) {
    && sid in s.sessions
    && s.sessions[sid].succeeded == totals.synced && s.sessions[sid].failed == totals.failed
    && s.sessions[sid].status == if totals.failed == 0 then SessionCompleted else SessionFailed
  }

  /** How a task leaves the session it worked on, whichever session that is. */
  ghost predicate EndsRight(t: Store, sid: string, instances: nat, end: TaskEnd) {
    && (end.Ran? ==> Closed(t, sid, end.totals))
    && (end.Escaped? || end.RecordsRefused? ==> GivenUp(t, sid, instances))
  }

  /** How it leaves a session of its own: reported, or, after an error, counting what its records say. */
  ghost predicate OwnEndsRight(t: Store, sid: string, instances: nat, end: TaskEnd, complete: bool) {
    && (end.Ran? ==> Reported(t, sid, end.totals, instances, complete))
    && (end.Escaped? ==> CountsCompleted(t, sid))
    && (end.Aborted? ==> sid in t.sessions && InStep(t, sid))
  }

  lemma ReportedAtEnd(states: seq<Store>, sid: string, records: seq<nat>, outcomes: seq<Outcome>, at: int, t: Store)
    requires Loop(states, records, outcomes, at) && Untouched(states[0], sid, records)
    requires sid in states[|states| - 1].sessions
    requires forall o :: o in outcomes[..|states| - 1] ==> !o.Escapes?
    requires var s := states[|states| - 1];
      t == s.(sessions := s.sessions[sid := Finalized(s.sessions[sid], TotalsOf(outcomes[..|states| - 1]), at)])
    ensures Reported(t, sid, TotalsOf(outcomes[..|states| - 1]), |records|, |states| - 1 == |records|)
  {
    var n := |states| - 1;
    LoopIsTrace(states, records, outcomes, at);
    FinalizedAgreesIff(states, sid, records, outcomes, states[n].sessions[sid], at);
    TotalsCount(outcomes[..n]);
    SameStatuses(states[n], t, sid);
  }

  lemma SameStatuses(s: Store, t: Store, sid: string)
    requires t.records == s.records
    ensures WithStatus(t, sid, Completed) == WithStatus(s, sid, Completed)
    ensures WithStatus(t, sid, Failed) == WithStatus(s, sid, Failed)
    ensures RecordsOf(t, sid) == RecordsOf(s, sid)
  {
  }

  /** After the failing end the session still counts as succeeded the records completed before the error. */
  lemma GivenUpAtEnd(states: seq<Store>, sid: string, records: seq<nat>, outcomes: seq<Outcome>, at: int, t: Store)
    requires Loop(states, records, outcomes, at)
    requires sid in states[0].sessions && Untouched(states[0], sid, records) && InStep(states[0], sid)
    requires var s := states[|states| - 1];
      sid in s.sessions && t == s.(sessions := s.sessions[sid := FinalizedFailure(s.sessions[sid], |records|, at)])
    ensures GivenUp(t, sid, |records|) && CountsCompleted(t, sid)
  {
    LoopInStep(states, sid, records, outcomes, at, |states| - 1);
    SameStatuses(states[|states| - 1], t, sid);
  }

  /** What kind of error left the loop: one the task catches, unless it was raised as another. */
  function EscapeOf(raise: Raise): Raise {
    if raise == Uncaught then Uncaught else Caught
  }

  class AccountsSyncTask {
    const service: SyncSessionService

    constructor (service: SyncSessionService)
      ensures this.service == service
    {
      this.service := service;
    }

    /** (1, 0) for a record that completed and stayed so, (0, 1) otherwise; an error may escape. */
    method SyncSingleInstance(r: nat, outcome: Outcome, at: int) returns (synced: int, failed: int, escaped: bool)
      requires service.Valid() && r in service.records
      modifies service.records.Values, service.sessions.Values
      ensures SyncModel.Valid(old(service.View())) && service.View() == Worked(old(service.View()), r, outcome, at)
      ensures escaped <==> outcome.Escapes?
      ensures !escaped ==> (synced, failed) == if outcome.Synced? then (1, 0) else (0, 1)
    {
      synced, failed, escaped := 0, 1, false;
      service.ViewValid();
      match outcome
      case Refused(message) =>
        var found := service.FailInstanceSync(r, message, at);
      case Synced(stats) =>
        var found := service.CompleteInstanceSync(r, stats, at);
        synced, failed := 1, 0;
      case SyncedThenRaised(stats, message) =>
        var found := service.CompleteInstanceSync(r, stats, at);
        found := service.FailInstanceSync(r, message, at);
      case Escapes =>
        escaped := true;
    }

    /** One round for a record. */
    method SyncRecord(r: nat, outcome: Outcome, at: int) returns (synced: int, failed: int, items: Stats, escaped: bool)
      requires service.Valid() && r in service.records
      modifies service.records.Values, service.sessions.Values
      ensures SyncModel.Valid(old(service.View())) && service.View() == Processed(old(service.View()), r, outcome, at)
      ensures escaped <==> outcome.Escapes?
      ensures !escaped ==> (synced, failed) == if outcome.Synced? then (1, 0) else (0, 1)
      ensures items == service.View().records[r].stats
    {
      service.ViewValid();
      var found := service.StartInstanceSync(r, at);
      synced, failed, escaped := SyncSingleInstance(r, outcome, at);
      items := service.records[r].stats;
    }

    /** One round of the loop, with what it adds to the totals. */
    method Round(records: seq<nat>, outcomes: seq<Outcome>, at: int, ghost states: seq<Store>, totals: Totals, n: nat)
      returns (after: Totals, escaped: bool, ghost more: seq<Store>)
      requires service.Valid() && n == |states| - 1 < |records| && n < |outcomes|
      requires Loop(states, records, outcomes, at) && Created(states[0], records) && states[n] == service.View()
      requires totals == TotalsOf(outcomes[..n])
      modifies service.records.Values, service.sessions.Values
      ensures |more| == n + 2 && more[0] == states[0] && more[n + 1] == service.View() && Loop(more, records, outcomes, at)
      ensures escaped <==> outcomes[n].Escapes?
      ensures !escaped ==> after == TotalsOf(outcomes[..n + 1])
    {
      RecordPresent(states, records, outcomes, at, n);
      var synced, failed, items, raised := SyncRecord(records[n], outcomes[n], at);
      LoopRound(states, records, outcomes, at, service.View());
      TotalsOneMore(outcomes, n);
      more := states + [service.View()];
      escaped := raised;
      after := if escaped then totals else Totals(totals.synced + synced, totals.failed + failed, Plus(totals.accounts, items));
    }

    /** Works through the instances in order until the run is cancelled or an error leaves the loop. */
    method SyncInstances(instances: nat, records: seq<nat>, outcomes: seq<Outcome>, raises: nat -> Raise,
                         cancelled: nat -> bool, at: int)
      returns (totals: Totals, escape: Raise, ghost states: seq<Store>, ghost stop: nat)
      requires service.Valid() && |outcomes| == instances && Created(service.View(), records)
      modifies service.records.Values, service.sessions.Values
      ensures Loop(states, records, outcomes, at) && |states| <= instances + 1
      ensures states[0] == old(service.View()) && states[|states| - 1] == service.View()
      ensures escape == Nothing ==> totals == TotalsOf(outcomes[..|states| - 1]) && Unbroken(outcomes, raises, |states| - 1)
      ensures escape != Nothing ==> BreaksFirst(outcomes, raises, |states| - 2) && escape == EscapeOf(raises(|states| - 2))
      ensures escape == Nothing ==> StopsAt(cancelled, instances, stop) && |states| - 1 == if |records| < stop then |records| else stop
      ensures escape != Nothing ==> Uncancelled(cancelled, |states| - 1)
    {
      totals, escape := ZERO, Nothing;
      states := [service.View()];
      service.ViewValid();
      LoopStart(states[0], records, outcomes, at);
      var n := 0;
      stop := 0;
      for i := 0 to instances
        invariant stop == i && Uncancelled(cancelled, i)
        invariant service.Valid() && escape == Nothing
        invariant n == |states| - 1 == if |records| < i then |records| else i
        invariant Loop(states, records, outcomes, at) && states[0] == old(service.View()) && states[n] == service.View()
        invariant totals == TotalsOf(outcomes[..n])
        invariant Unbroken(outcomes, raises, n)
      {
        if cancelled(i) {
          return;
        }
        stop := i + 1;
        if i >= |records| {
          continue;
        }
        var escaped;
        totals, escaped, states := Round(records, outcomes, at, states, totals, n);
        UnbrokenStep(outcomes, raises, n);
        n := n + 1;
        if escaped || raises(i) != Nothing {
          escape := EscapeOf(raises(i));
          return;
        }
      }
    }

    method FinalizeSuccess(sid: string, totals: Totals, at: int)
      requires service.Valid() && sid in service.sessions
      modifies service.sessions[sid]
      ensures service.View() == old(service.View()).(sessions :=
        old(service.View()).sessions[sid := Finalized(old(service.View()).sessions[sid], totals, at)])
      ensures var x := service.sessions[sid];
        && x.succeeded == totals.synced && x.failed == totals.failed && x.total == old(x.total) && x.completedAt == Some(at)
        && x.status == if totals.failed == 0 then SessionCompleted else SessionFailed
    {
      service.sessions[sid].Close(totals.synced, totals.failed, if totals.failed == 0 then SessionCompleted else SessionFailed, at);
    }

    method FinalizeFailure(sid: string, instances: nat, at: int)
      requires service.Valid() && sid in service.sessions
      modifies service.sessions[sid]
      ensures service.View() == old(service.View()).(sessions :=
        old(service.View()).sessions[sid := FinalizedFailure(old(service.View()).sessions[sid], instances, at)])
      ensures var x := service.sessions[sid];
        && x.succeeded == old(x.succeeded) && x.failed == instances && x.total == old(x.total) && x.completedAt == Some(at)
        && x.status == SessionFailed
    {
      var session := service.sessions[sid];
      session.Close(session.succeeded, instances, SessionFailed, at);
    }

    method SetTotal(sid: string, total: int)
      requires service.Valid() && sid in service.sessions
      modifies service.sessions[sid]
      ensures service.View() == old(service.View()).(sessions :=
        old(service.View()).sessions[sid := old(service.View()).sessions[sid].(total := total)])
    {
      service.sessions[sid].total := total;
    }

    /** Records for all instances, and the total set to their number. */
    method CreateRecords(sid: string, instanceIds: seq<int>, known: set<int>) returns (created: Result<seq<nat>, CallError>)
      requires service.Valid() && sid in service.sessions
      modifies service`records, service`nextRecord, service.sessions[sid]
      ensures service.Valid() && fresh(service.records.Values - old(service.records.Values))
      ensures created.Ok? <==> Named(instanceIds) <= known
      ensures created.Err? ==> service.View() == old(service.View())
      ensures created.Ok? ==> |created.value| == |instanceIds| && Created(service.View(), created.value)
      ensures var before := old(service.View()).sessions;
        created.Ok? ==> service.View().sessions == before[sid := before[sid].(total := |instanceIds|)]
      ensures created.Ok? && RecordsOf(old(service.View()), sid) == {} ==> Untouched(service.View(), sid, created.value)
    {
      AddedUntouched(service.View(), sid, service.nextRecord, instanceIds);
      created := service.AddInstanceRecords(sid, instanceIds, known);
      if created.Ok? {
        ghost var s := service.View();
        SetTotal(sid, |instanceIds|);
        ghost var t := service.View();
        assert t.records == s.records && RecordsOf(t, sid) == RecordsOf(s, sid);
      }
    }

    /** The end that a loop leads to: failing, none, or successful. */
    method Conclude(sid: string, records: seq<nat>, ghost outcomes: seq<Outcome>, at: int, totals: Totals, escape: Raise,
                    ghost states: seq<Store>)
      returns (end: TaskEnd)
      requires service.Valid() && sid in service.sessions
      requires Loop(states, records, outcomes, at) && states[|states| - 1] == service.View()
      requires escape == Nothing ==>
        totals == TotalsOf(outcomes[..|states| - 1]) && forall o :: o in outcomes[..|states| - 1] ==> !o.Escapes?
      modifies service.sessions[sid]
      ensures end == EndOf(totals, escape)
      ensures EndsRight(service.View(), sid, |records|, end)
      ensures sid in states[0].sessions && Untouched(states[0], sid, records) && InStep(states[0], sid) ==>
        OwnEndsRight(service.View(), sid, |records|, end, |states| - 1 == |records|)
    {
      ghost var own := sid in states[0].sessions && Untouched(states[0], sid, records) && InStep(states[0], sid);
      if escape == Caught {
        FinalizeFailure(sid, |records|, at);
        if own {
          GivenUpAtEnd(states, sid, records, outcomes, at, service.View());
        }
        return Escaped;
      }
      if escape == Uncaught {
        if own {
          LoopInStep(states, sid, records, outcomes, at, |states| - 1);
        }
        return Aborted;
      }
      FinalizeSuccess(sid, totals, at);
      if own {
        ReportedAtEnd(states, sid, records, outcomes, at, service.View());
      }
      end := Ran(totals);
    }

    /** The loop and the end it leads to. */
    method Work(sid: string, records: seq<nat>, outcomes: seq<Outcome>, raises: nat -> Raise, cancelled: nat -> bool, at: int)
      returns (end: TaskEnd)
      requires service.Valid() && sid in service.sessions && |outcomes| == |records| && Created(service.View(), records)
      modifies service.records.Values, service.sessions.Values
      ensures end.Ran? || end.Escaped? || end.Aborted?
      ensures EndsAsCalled(outcomes, raises, cancelled, end)
      ensures EndsRight(service.View(), sid, |records|, end)
      ensures Untouched(old(service.View()), sid, records) && InStep(old(service.View()), sid) ==>
        OwnEndsRight(service.View(), sid, |records|, end, forall i | 0 <= i < |records| :: !cancelled(i))
    {
      var totals, escape, states, stop := SyncInstances(|records|, records, outcomes, raises, cancelled, at);
      if escape == Nothing {
        UnbrokenEnds(outcomes, raises, |states| - 1);
      }
      LoopEnds(outcomes, raises, cancelled, totals, escape, |states| - 2, stop);
      end := Conclude(sid, records, outcomes, at, totals, escape, states);
      assert |states| - 1 == |records| ==> outcomes[..|states| - 1] == outcomes;
    }

    /** The given session, or a new one without records. */
    method ResolveSession(newSid: string, given: Option<string>) returns (sid: string)
      requires service.Valid() && newSid !in service.sessions && (given.Some? ==> given.value in service.sessions)
      modifies service`sessions
      ensures service.Valid() && sid in service.sessions && fresh(service.sessions.Values - old(service.sessions.Values))
      ensures sid == if given.Some? then given.value else newSid
      ensures given.None? ==> RecordsOf(service.View(), sid) == {}
      ensures given.None? ==> service.View().sessions[sid] == Session(SessionRunning, 0, 0, 0, None)
    {
      if given.Some? {
        return given.value;
      }
      NoRecordsYet(newSid);
      var session := service.CreateSession(newSid);
      sid := newSid;
    }

    /** The session with a record for each instance; a session of its own is ready for the loop. */
    method SetUp(newSid: string, given: Option<string>, instanceIds: seq<int>, known: set<int>)
      returns (sid: string, created: Result<seq<nat>, CallError>)
      requires service.Valid() && newSid !in service.sessions && (given.Some? ==> given.value in service.sessions)
      modifies service, service.sessions.Values
      ensures service.Valid() && sid in service.sessions && sid == if given.Some? then given.value else newSid
      ensures fresh(service.sessions.Values - old(service.sessions.Values))
      ensures fresh(service.records.Values - old(service.records.Values))
      ensures created.Ok? <==> Named(instanceIds) <= known
      ensures created.Ok? ==> |created.value| == |instanceIds| && Created(service.View(), created.value)
      ensures created.Ok? && given.None? ==>
        Untouched(service.View(), sid, created.value) && InStep(service.View(), sid)
    {
      sid := ResolveSession(newSid, given);
      created := CreateRecords(sid, instanceIds, known);
      if created.Ok? && given.None? {
        NoneFinished(service.View(), sid, created.value);
      }
    }

    /**
     * The whole task. Whatever session it works on, it ends with the totals and their verdict, or given up on;
     * with a session of its own and no cancellation the session agrees with its records one by one, and when
     * an error ends it the session still counts the records completed before.
     */
    method SyncAccounts(newSid: string, given: Option<string>, instanceIds: seq<int>, known: set<int>, cancelledBefore: bool,
                        cancelled: nat -> bool, outcomes: seq<Outcome>, raises: nat -> Raise, at: int)
      returns (end: TaskEnd)
      requires service.Valid() && newSid !in service.sessions && |outcomes| == |instanceIds|
      modifies service, service.records.Values, service.sessions.Values
      ensures service.Valid()
      ensures end.CancelledBefore? <==> cancelledBefore
      ensures end.NoInstances? <==> !cancelledBefore && instanceIds == []
      ensures end.CancelledBefore? || end.NoInstances? || end.NoSuchSession? ==> service.View() == old(service.View())
      ensures EndsRight(service.View(), if given.Some? then given.value else newSid, |instanceIds|, end)
      ensures end.NoSuchSession? <==> !cancelledBefore && instanceIds != [] && given.Some? && given.value !in old(service.sessions)
      ensures end.RecordsRefused? ==> !(Named(instanceIds) <= known)
      ensures end.Ran? || end.Escaped? || end.Aborted? ==> Named(instanceIds) <= known
      ensures EndsAsCalled(outcomes, raises, cancelled, end)
      ensures given.None? ==>
        OwnEndsRight(service.View(), newSid, |instanceIds|, end, forall i | 0 <= i < |instanceIds| :: !cancelled(i))
    {
      if cancelledBefore {
        return CancelledBefore;
      }
      if instanceIds == [] {
        return NoInstances;
      }
      if given.Some? && given.value !in service.sessions {
        return NoSuchSession;
      }
      var sid, created := SetUp(newSid, given, instanceIds, known);
      if created.Err? {
        FinalizeFailure(sid, |instanceIds|, at);
        return RecordsRefused;
      }
      end := Work(sid, created.value, outcomes, raises, cancelled, at);
    }

    lemma NoRecordsYet(sid: string)
      requires service.Valid() && sid !in service.sessions
      ensures RecordsOf(service.View(), sid) == {}
    {
    }
  }
}

/** The digest: lists what each enabled channel still owes, sends, and records the outcome per channel. */
module AlertDigest {
  import opened Common
  import opened AlertEvents
  import opened AlertRuns
  import opened AlertRepository

  const FEISHU := "feishu"
  const FAILED := "failed"

  /** What a sender does: not configured or raising, with the message that is recorded, or delivering. */
  datatype Outcome = Failure(message: string) | Delivered

  datatype Step = SkippedDisabled | SkippedNoEvent | SkippedNoRecipients | StepFailed | StepSent

  /** The digest result: whether something went out, whether nothing was attempted, whether all attempts failed. */
  datatype Digest = Digest(sent: bool, skipped: bool, failed: bool, email: Step, feishu: Step)

  function AttemptOf(channel: string, ids: seq<nat>, now: int, outcome: Outcome): Op {
    match outcome
    case Failure(message) => Record(channel, ids, now, FAILED, Some(message))
    case Delivered => Record(channel, ids, now, SENT, None)
  }

  /** An attempt is recorded for the channel's whole list: as sent, or as failed with the sender's message. */
  lemma AttemptRecords(channel: string, ids: seq<nat>, now: int, outcome: Outcome)
    ensures var op := AttemptOf(channel, ids, now, outcome);
      && op.Record? && op.channel == channel && op.ids == ids && op.at == now
      && (outcome.Delivered? ==> op.status == "sent" && op.error == None)
      && (outcome.Failure? ==> op.status == "failed" && op.error == Some(outcome.message))
  {
  }

  /** A step attempts its channel when it is enabled, owes something, and mail has someone to go to. */
  function StepOf(enabled: bool, ids: seq<nat>, hasRecipients: bool, outcome: Outcome): Step {
    if !enabled then SkippedDisabled
    else if ids == [] then SkippedNoEvent
    else if !hasRecipients then SkippedNoRecipients
    else if outcome.Delivered? then StepSent else StepFailed
  }

  /** Something went out; nothing was attempted; or something was attempted and nothing went out. */
  function Summary(email: Step, feishu: Step): Digest {
    var sent := email.StepSent? || feishu.StepSent?;
    var failed := email.StepFailed? || feishu.StepFailed?;
    Digest(sent, !sent && !failed, failed && !sent, email, feishu)
  }

  predicate Attempted(step: Step) {
    step.StepSent? || step.StepFailed?
  }

  ghost predicate Lists(s: State, ids: seq<nat>, channel: string, bucketDate: int) {
    Distinct(ids) && forall id :: id in ids <==> id in PendingIds(s, channel, Some(bucketDate))
  }

  /** An attempt on listed events is one the run theorems allow, and it can be stored. */
  lemma ListedAttemptAllowed(s: State, ids: seq<nat>, channel: string, bucketDate: int, now: int, outcome: Outcome)
    requires Lists(s, ids, channel, bucketDate) && channel != ""
    ensures Allowed(s, AttemptOf(channel, ids, now, outcome)) && Recordable(s, channel, ids)
  {
  }

  /** Recording on one channel leaves the list another channel read beforehand accurate. */
  lemma OtherListStillRight(s: State, op: Op, other: string, ids: seq<nat>, bucketDate: int)
    requires Valid(s) && Allowed(s, op) && op.Record? && op.channel != other && other != ""
    requires Lists(s, ids, other, bucketDate)
    ensures Lists(Apply(s, op), ids, other, bucketDate)
  {
  }

  /** After a delivered attempt on everything a channel owed for the day, it owes nothing for that day. */
  lemma DeliveredClearsList(s: State, ids: seq<nat>, channel: string, bucketDate: int, now: int)
    requires Valid(s) && Lists(s, ids, channel, bucketDate) && channel != ""
    ensures PendingIds(Apply(s, AttemptOf(channel, ids, now, Delivered)), channel, Some(bucketDate)) == {}
  {
  }

  ghost function AttemptsOf(emailStep: Step, email: Op, feishuStep: Step, feishu: Op): seq<Op> {
    (if Attempted(emailStep) then [email] else []) + (if Attempted(feishuStep) then [feishu] else [])
  }

  ghost function After(s: State, step: Step, op: Op): State {
    if Attempted(step) then Apply(s, op) else s
  }

  /** A step adds at most its one attempt to a run. */
  lemma RunStep(s: State, ops: seq<Op>, step: Step, op: Op)
    ensures var more := ops + if Attempted(step) then [op] else [];
      && Run(s, more) == After(Run(s, ops), step, op)
      && (AllowedRun(s, more) <==> AllowedRun(s, ops) && (Attempted(step) ==> Allowed(Run(s, ops), op)))
  {
    if Attempted(step) {
      RunAppend(s, ops, op);
    } else {
      assert ops + [] == ops;
    }
  }

  /** What the mail step leaves behind: a valid table, nothing owed by mail if it delivered, the other list still right. */
  lemma FirstStep(s: State, bucketDate: int, now: int, step: Step, ids: seq<nat>, outcome: Outcome, others: bool, otherIds: seq<nat>)
    requires Valid(s) && (Attempted(step) ==> Lists(s, ids, EMAIL, bucketDate)) && (step.StepSent? ==> outcome.Delivered?)
    requires others ==> Lists(s, otherIds, FEISHU, bucketDate)
    ensures var op := AttemptOf(EMAIL, ids, now, outcome);
      var t := After(s, step, op);
      && (Attempted(step) ==> Allowed(s, op)) && Valid(t)
      && (step.StepSent? ==> PendingIds(t, EMAIL, Some(bucketDate)) == {})
      && (others ==> Lists(t, otherIds, FEISHU, bucketDate))
  {
    if Attempted(step) {
      var op := AttemptOf(EMAIL, ids, now, outcome);
      ListedAttemptAllowed(s, ids, EMAIL, bucketDate, now, outcome);
      ApplyKeepsValid(s, op);
      if others {
        OtherListStillRight(s, op, FEISHU, otherIds, bucketDate);
      }
      if step.StepSent? {
        DeliveredClearsList(s, ids, EMAIL, bucketDate, now);
      }
    }
  }

  lemma SecondStep(s: State, bucketDate: int, now: int, step: Step, ids: seq<nat>, outcome: Outcome, mailed: bool)
    requires Valid(s) && Lists(s, ids, FEISHU, bucketDate) && (step.StepSent? ==> outcome.Delivered?)
    requires mailed ==> PendingIds(s, EMAIL, Some(bucketDate)) == {}
    ensures var op := AttemptOf(FEISHU, ids, now, outcome);
      && Allowed(s, op)
      && (step.StepSent? ==> PendingIds(Apply(s, op), FEISHU, Some(bucketDate)) == {})
      && (mailed ==> PendingIds(Apply(s, op), EMAIL, Some(bucketDate)) == {})
  {
  }

  /** The two steps make an allowed run. */
  lemma DigestRun(s: State, emailStep: Step, email: Op, feishuStep: Step, feishu: Op)
    requires Valid(s)
    requires Attempted(emailStep) ==> Allowed(s, email)
    requires Attempted(feishuStep) ==> Allowed(After(s, emailStep, email), feishu)
    ensures var ops := AttemptsOf(emailStep, email, feishuStep, feishu);
      AllowedRun(s, ops) && Run(s, ops) == After(After(s, emailStep, email), feishuStep, feishu)
  {
    var first := if Attempted(emailStep) then [email] else [];
    RunStep(s, [], emailStep, email);
    assert [] + first == first;
    RunStep(s, first, feishuStep, feishu);
  }

  // ---- What the text carries ----

  /** The events of a list in order of first occurrence. */
  function Unique(ids: seq<nat>): seq<nat> {
    if ids == [] then []
    else
      var before := Unique(ids[..|ids| - 1]);
      if ids[|ids| - 1] in before then before else before + [ids[|ids| - 1]]
  }

  lemma {:induction false} UniqueMembers(ids: seq<nat>)
    ensures Distinct(Unique(ids)) && forall id :: id in Unique(ids) <==> id in ids
  {
    if ids == [] {
    } else {
      var n := |ids| - 1;
      UniqueMembers(ids[..n]);
      assert ids == ids[..n] + [ids[n]];
    }
  }

  /** x occurs in the list before any y does. */
  predicate OccursBefore(ids: seq<nat>, x: nat, y: nat) {
    exists k | 0 <= k < |ids| :: ids[k] == x && y !in ids[..k + 1]
  }

  lemma OccursBeforeExtends(ids: seq<nat>, id: nat, x: nat, y: nat)
    requires OccursBefore(ids, x, y)
    ensures OccursBefore(ids + [id], x, y)
  {
    var k :| 0 <= k < |ids| && ids[k] == x && y !in ids[..k + 1];
    assert (ids + [id])[k] == x && (ids + [id])[..k + 1] == ids[..k + 1];
  }

  /** The union is in the order of first occurrence. */
  lemma {:induction false} UniqueInOrder(ids: seq<nat>, i: nat, j: nat)
    requires i < j < |Unique(ids)|
    ensures OccursBefore(ids, Unique(ids)[i], Unique(ids)[j])
  {
    var n := |ids| - 1;
    var before := Unique(ids[..n]);
    assert ids == ids[..n] + [ids[n]];
    if j < |before| {
      UniqueInOrder(ids[..n], i, j);
      OccursBeforeExtends(ids[..n], ids[n], before[i], before[j]);
    } else {
      UniqueMembers(ids[..n]);
      assert before[i] in before;
      var k :| 0 <= k < n && ids[..n][k] == before[i];
      assert ids[k] == before[i];
      assert forall x :: x in ids[..k + 1] ==> x in ids[..n];
    }
  }

  /** A step that gets as far as sending sends a text with an event its channel had delivered before. */
  ghost predicate Repeats(s: State, step: Step, carried: seq<nat>, channel: string) {
    Attempted(step) && exists id :: id in carried && Sent(s, id, channel)
  }

  /** One channel's list holds an event that the other's lacks. */
  predicate HoldsMore(others: seq<nat>, own: seq<nat>) {
    exists id | id in others :: id !in own
  }

  /** An event of the day that a channel does not list has been delivered on it. */
  lemma UnlistedIsSent(s: State, ids: seq<nat>, channel: string, bucketDate: int, id: nat)
    requires Valid(s) && Lists(s, ids, channel, bucketDate) && channel != ""
    requires id in s.events && s.events[id].bucketDate == bucketDate
    ensures Sent(s, id, channel) <==> id !in ids
  {
    assert id in ids <==> id in PendingIds(s, channel, Some(bucketDate));
  }

  /**
   * Both channels send the same text, made from the union of the lists: a channel repeats an event it had
   * delivered exactly when it sends at all and the other list holds an event that its own lacks.
   */
  lemma RepeatsIff(s: State, bucketDate: int, step: Step, channel: string, own: seq<nat>, other: string, others: seq<nat>, carried: seq<nat>)
    requires Valid(s) && channel != "" && (Attempted(step) ==> Lists(s, own, channel, bucketDate))
    requires others == [] || Lists(s, others, other, bucketDate)
    requires forall id :: id in carried <==> id in own || id in others
    ensures Repeats(s, step, carried, channel) <==> Attempted(step) && HoldsMore(others, own)
  {
    if Attempted(step) {
      forall id | id in carried ensures Sent(s, id, channel) <==> id !in own {
        assert id in own ==> id in PendingIds(s, channel, Some(bucketDate));
        assert id in others ==> id in PendingIds(s, other, Some(bucketDate));
        UnlistedIsSent(s, own, channel, bucketDate, id);
      }
    }
  }

  /** Mailed while Feishu failed, then a new event: the next mail carries the mailed one again and records only the new one. */
  lemma MailRepeatsDelivered(s: State, bucketDate: int, emailIds: seq<nat>, feishuIds: seq<nat>, mailed: nat, unsent: nat)
    requires Valid(s) && Lists(s, emailIds, EMAIL, bucketDate) && Lists(s, feishuIds, FEISHU, bucketDate)
    requires mailed in s.events && s.events[mailed].bucketDate == bucketDate
    requires Sent(s, mailed, EMAIL) && !Sent(s, mailed, FEISHU)
    requires unsent in emailIds
    ensures StepOf(true, emailIds, true, Delivered) == StepSent
    ensures mailed in Unique(emailIds + feishuIds) && mailed !in emailIds
    ensures Repeats(s, StepSent, Unique(emailIds + feishuIds), EMAIL)
  {
    UniqueMembers(emailIds + feishuIds);
    UnlistedIsSent(s, emailIds, EMAIL, bucketDate, mailed);
    UnlistedIsSent(s, feishuIds, FEISHU, bucketDate, mailed);
  }

  /** The tables of that case: the first event mailed and failed on Feishu, the second just created. */
  function FeishuDown(first: Payload, second: Payload): State {
    State(map[0 := NewEvent(first).(digestSentAt := Some(1)), 1 := NewEvent(second)],
          map[(0, EMAIL) := DeliveryOf(SENT, 1, None), (0, FEISHU) := DeliveryOf(FAILED, 1, None)], 2)
  }

  const MAILED := Record(EMAIL, [0], 1, SENT, None)
  const FEISHU_FAILED := Record(FEISHU, [0], 1, FAILED, None)

  lemma OneMailed(first: Payload)
    ensures var s := Created(EMPTY, first).1;
      && s == State(map[0 := NewEvent(first)], map[], 1) && Allowed(s, MAILED)
      && Apply(s, MAILED) ==
        State(map[0 := NewEvent(first).(digestSentAt := Some(1))], map[(0, EMAIL) := DeliveryOf(SENT, 1, None)], 1)
  {
    assert WithKey(EMPTY, first.alertType, first.bucketDate, first.dedupeKey) == {};
    assert (map id | id in [0] :: (id, EMAIL) := DeliveryOf(SENT, 1, None)) == map[(0, EMAIL) := DeliveryOf(SENT, 1, None)];
  }

  lemma ThenFeishuFailed(s: State, event: Event)
    requires s == State(map[0 := event], map[(0, EMAIL) := DeliveryOf(SENT, 1, None)], 1)
    ensures Allowed(s, FEISHU_FAILED)
    ensures Apply(s, FEISHU_FAILED) ==
      State(map[0 := event], map[(0, EMAIL) := DeliveryOf(SENT, 1, None), (0, FEISHU) := DeliveryOf(FAILED, 1, None)], 1)
  {
    assert (0, FEISHU) !in s.deliveries by {
      assert EMAIL[0] != FEISHU[0];
    }
    assert (map id | id in [0] :: (id, FEISHU) := DeliveryOf(FAILED, 1, None)) == map[(0, FEISHU) := DeliveryOf(FAILED, 1, None)];
  }

  /** The case arises: a run leads to it, and there the mail list holds the second event, Feishu's both. */
  lemma FeishuDownArises(first: Payload, second: Payload)
    requires first.bucketDate == second.bucketDate && first.dedupeKey != second.dedupeKey
    ensures var ops := [Create(first), MAILED, FEISHU_FAILED, Create(second)];
      AllowedRun(EMPTY, ops) && Run(EMPTY, ops) == FeishuDown(first, second)
    ensures var s := FeishuDown(first, second);
      && Valid(s) && Sent(s, 0, EMAIL) && !Sent(s, 0, FEISHU)
      && Lists(s, [1], EMAIL, first.bucketDate) && Lists(s, [0, 1], FEISHU, first.bucketDate)
  {
    var s1 := Apply(EMPTY, Create(first));
    OneMailed(first);
    var s2 := Apply(s1, MAILED);
    ThenFeishuFailed(s2, s2.events[0]);
    var s3 := Apply(s2, FEISHU_FAILED);
    ThenCreated(s3, first, second);
    RunAppend(EMPTY, [], Create(first));
    RunAppend(EMPTY, [Create(first)], MAILED);
    RunAppend(EMPTY, [Create(first), MAILED], FEISHU_FAILED);
    RunAppend(EMPTY, [Create(first), MAILED, FEISHU_FAILED], Create(second));
    assert [] + [Create(first)] == [Create(first)];
    assert [Create(first)] + [MAILED] == [Create(first), MAILED];
    assert [Create(first), MAILED] + [FEISHU_FAILED] == [Create(first), MAILED, FEISHU_FAILED];
    assert [Create(first), MAILED, FEISHU_FAILED] + [Create(second)] == [Create(first), MAILED, FEISHU_FAILED, Create(second)];
    RunKeepsValid(EMPTY, [Create(first), MAILED, FEISHU_FAILED, Create(second)]);
    FeishuDownLists(first, second);
  }

  lemma ThenCreated(s: State, first: Payload, second: Payload)
    requires first.dedupeKey != second.dedupeKey
    requires s == State(map[0 := NewEvent(first).(digestSentAt := Some(1))],
                        map[(0, EMAIL) := DeliveryOf(SENT, 1, None), (0, FEISHU) := DeliveryOf(FAILED, 1, None)], 1)
    ensures Apply(s, Create(second)) == FeishuDown(first, second)
  {
    assert WithKey(s, second.alertType, second.bucketDate, second.dedupeKey) == {};
  }

  lemma FeishuDownLists(first: Payload, second: Payload)
    requires first.bucketDate == second.bucketDate
    ensures var s := FeishuDown(first, second);
      && Sent(s, 0, EMAIL) && !Sent(s, 0, FEISHU)
      && Lists(s, [1], EMAIL, first.bucketDate) && Lists(s, [0, 1], FEISHU, first.bucketDate)
  {
    assert EMAIL[0] != FEISHU[0];
    assert SENT[0] != FAILED[0];
    var s := FeishuDown(first, second);
    assert forall id :: id in PendingIds(s, EMAIL, Some(first.bucketDate)) <==> id == 1;
    assert forall id :: id in PendingIds(s, FEISHU, Some(first.bucketDate)) <==> id == 0 || id == 1;
  }

  // ---- The service ----

  /** What both steps do to the tables: an allowed run, after which a channel that delivered owes nothing for the day. */
  ghost predicate Performed(s: State, t: State, bucketDate: int, emailStep: Step, email: Op, feishuStep: Step, feishu: Op) {
    && AllowedRun(s, AttemptsOf(emailStep, email, feishuStep, feishu))
    && t == Run(s, AttemptsOf(emailStep, email, feishuStep, feishu))
    && (emailStep.StepSent? ==> PendingIds(t, EMAIL, Some(bucketDate)) == {})
    && (feishuStep.StepSent? ==> PendingIds(t, FEISHU, Some(bucketDate)) == {})
  }

  /** The two steps, the second on the tables the first left. */
  lemma StepsPerform(s: State, bucketDate: int, now: int, emailStep: Step, emailIds: seq<nat>, email: Outcome,
                     feishuStep: Step, feishuIds: seq<nat>, feishu: Outcome)
    requires Valid(s)
    requires Attempted(emailStep) ==> Lists(s, emailIds, EMAIL, bucketDate)
    requires Attempted(feishuStep) ==> Lists(s, feishuIds, FEISHU, bucketDate)
    requires (emailStep.StepSent? ==> email.Delivered?) && (feishuStep.StepSent? ==> feishu.Delivered?)
    ensures var emailOp, feishuOp := AttemptOf(EMAIL, emailIds, now, email), AttemptOf(FEISHU, feishuIds, now, feishu);
      Performed(s, After(After(s, emailStep, emailOp), feishuStep, feishuOp), bucketDate, emailStep, emailOp, feishuStep, feishuOp)
  {
    var emailOp, feishuOp := AttemptOf(EMAIL, emailIds, now, email), AttemptOf(FEISHU, feishuIds, now, feishu);
    FirstStep(s, bucketDate, now, emailStep, emailIds, email, Attempted(feishuStep), feishuIds);
    if Attempted(feishuStep) {
      SecondStep(After(s, emailStep, emailOp), bucketDate, now, feishuStep, feishuIds, feishu, emailStep.StepSent?);
    }
    DigestRun(s, emailStep, emailOp, feishuStep, feishuOp);
  }

  class AlertDigestService {
    const repository: EmailAlertsRepository

    constructor (repository: EmailAlertsRepository)
      ensures this.repository == repository
    {
      this.repository := repository;
    }

    /** What an enabled channel owes for the day. */
    method ListChannel(channel: string, enabled: bool, bucketDate: int) returns (ids: seq<nat>)
      ensures if enabled then Lists(repository.Tables(), ids, channel, bucketDate) else ids == []
    {
      ids := [];
      if enabled {
        ids := repository.ListPendingDigestEvents(channel, Some(bucketDate));
      }
    }

    method UniqueEvents(ids: seq<nat>) returns (unique: seq<nat>)
      ensures unique == Unique(ids)
    {
      unique := [];
      for i := 0 to |ids|
        invariant unique == Unique(ids[..i])
      {
        assert ids[..i + 1][..i] == ids[..i];
        if ids[i] in unique {
          continue;
        }
        unique := unique + [ids[i]];
      }
      assert ids[..|ids|] == ids;
    }

    /** One channel's step; what it records are the events of its own list. */
    method SendChannel(channel: string, enabled: bool, ids: seq<nat>, bucketDate: int, hasRecipients: bool, outcome: Outcome, now: int)
      returns (step: Step)
      requires channel != "" && (enabled ==> Lists(repository.Tables(), ids, channel, bucketDate))
      modifies repository`events, repository`deliveries
      ensures step == StepOf(enabled, ids, hasRecipients, outcome)
      ensures repository.Tables() == After(old(repository.Tables()), step, AttemptOf(channel, ids, now, outcome))
    {
      step := StepOf(enabled, ids, hasRecipients, outcome);
      if !Attempted(step) {
        return;
      }
      ListedAttemptAllowed(repository.Tables(), ids, channel, bucketDate, now, outcome);
      match outcome
      case Failure(message) =>
        var ok := repository.RecordDigestDelivery(channel, ids, now, FAILED, Some(message));
      case Delivered =>
        var ok := repository.RecordDigestDelivery(channel, ids, now, SENT, None);
    }

    /** Sends on both channels what was listed for them beforehand. */
    method Deliver(now: int, bucketDate: int, emailEnabled: bool, emailIds: seq<nat>, feishuEnabled: bool, feishuIds: seq<nat>,
                   hasRecipients: bool, email: Outcome, feishu: Outcome)
      returns (emailStep: Step, feishuStep: Step)
      requires Valid(repository.Tables())
      requires emailEnabled ==> Lists(repository.Tables(), emailIds, EMAIL, bucketDate)
      requires feishuEnabled ==> Lists(repository.Tables(), feishuIds, FEISHU, bucketDate)
      modifies repository`events, repository`deliveries
      ensures emailStep == StepOf(emailEnabled, emailIds, hasRecipients, email)
      ensures feishuStep == StepOf(feishuEnabled, feishuIds, true, feishu)
      ensures Performed(old(repository.Tables()), repository.Tables(), bucketDate, emailStep, AttemptOf(EMAIL, emailIds, now, email),
                        feishuStep, AttemptOf(FEISHU, feishuIds, now, feishu))
    {
      ghost var start := repository.Tables();
      emailStep := SendChannel(EMAIL, emailEnabled, emailIds, bucketDate, hasRecipients, email, now);
      FirstStep(start, bucketDate, now, emailStep, emailIds, email, feishuEnabled, feishuIds);
      feishuStep := SendChannel(FEISHU, feishuEnabled, feishuIds, bucketDate, true, feishu, now);
      StepsPerform(start, bucketDate, now, emailStep, emailIds, email, feishuStep, feishuIds, feishu);
    }

    /**
     * Both lists are read before either channel sends, and both channels send the text of their union. What
     * the digest does to the tables is a run of at most one attempt per enabled channel on its own list, each
     * allowed, so the run theorems cover it; what it sends repeats a delivered event exactly as stated.
     */
    method SendPendingDigest(now: int, bucketDate: int, emailEnabled: bool, feishuEnabled: bool, hasRecipients: bool,
                             email: Outcome, feishu: Outcome)
      returns (result: Digest, emailIds: seq<nat>, feishuIds: seq<nat>, carried: seq<nat>)
      requires Valid(repository.Tables())
      modifies repository`events, repository`deliveries
      ensures if emailEnabled then Lists(old(repository.Tables()), emailIds, EMAIL, bucketDate) else emailIds == []
      ensures if feishuEnabled then Lists(old(repository.Tables()), feishuIds, FEISHU, bucketDate) else feishuIds == []
      ensures carried == Unique(emailIds + feishuIds)
      ensures result.sent <==> result.email.StepSent? || result.feishu.StepSent?
      ensures result.failed <==> !result.sent && (result.email.StepFailed? || result.feishu.StepFailed?)
      ensures result.skipped <==> !result.sent && !result.failed
      ensures result.email.StepSent? <==> emailIds != [] && hasRecipients && email.Delivered?
      ensures result.email.StepFailed? <==> emailIds != [] && hasRecipients && email.Failure?
      ensures result.feishu.StepSent? <==> feishuIds != [] && feishu.Delivered?
      ensures result.feishu.StepFailed? <==> feishuIds != [] && feishu.Failure?
      ensures result == Summary(StepOf(emailEnabled, emailIds, hasRecipients, email), StepOf(feishuEnabled, feishuIds, true, feishu))
      ensures Performed(old(repository.Tables()), repository.Tables(), bucketDate, result.email, AttemptOf(EMAIL, emailIds, now, email),
                        result.feishu, AttemptOf(FEISHU, feishuIds, now, feishu))
      ensures Repeats(old(repository.Tables()), result.email, carried, EMAIL) <==>
        Attempted(result.email) && HoldsMore(feishuIds, emailIds)
      ensures Repeats(old(repository.Tables()), result.feishu, carried, FEISHU) <==>
        Attempted(result.feishu) && HoldsMore(emailIds, feishuIds)
    {
      ghost var start := repository.Tables();
      emailIds := ListChannel(EMAIL, emailEnabled, bucketDate);
      feishuIds := ListChannel(FEISHU, feishuEnabled, bucketDate);
      carried := UniqueEvents(emailIds + feishuIds);
      var emailStep, feishuStep := Deliver(now, bucketDate, emailEnabled, emailIds, feishuEnabled, feishuIds, hasRecipients, email, feishu);
      result := Summary(emailStep, feishuStep);
      UniqueMembers(emailIds + feishuIds);
      RepeatsIff(start, bucketDate, emailStep, EMAIL, emailIds, FEISHU, feishuIds, carried);
      RepeatsIff(start, bucketDate, feishuStep, FEISHU, feishuIds, EMAIL, emailIds, carried);
    }
  }
}

/** Runs of the alert calls: delivery at most once per channel, and counters that agree with the pending lists. */
module AlertRuns {
  import opened Common
  import opened AlertEvents

  datatype Op =
    | Create(payload: Payload)
    | Upsert(payload: Payload, protectSent: bool)
    | Delete(alertType: string, bucketDate: int, dedupeKey: Option<string>, keep: set<string>)
    | Record(channel: string, ids: seq<nat>, at: int, status: string, error: Option<string>)

  /** Deliveries are recorded only for a list of events pending on that channel. */
  predicate Allowed(s: State, op: Op) {
    match op
    case Record(channel, ids, _, _, _) =>
      channel != "" && Distinct(ids) && forall id | id in ids :: id in s.events && Pending(s, id, channel)
    case _ => true
  }

  ghost function Apply(s: State, op: Op): State {
    match op
    case Create(p) => Created(s, p).1
    case Upsert(p, protectSent) => Upserted(s, p, protectSent).1
    case Delete(t, b, k, keep) => Deleted(s, t, b, k, keep)
    case Record(c, ids, at, status, error) => Recorded(s, c, ids, at, status, error)
  }

  predicate SameKey(a: Event, b: Event) {
    HasKey(a, b.alertType, b.bucketDate, b.dedupeKey)
  }

  /** When the event was mailed, as its mail delivery records it. */
  function MailedAt(s: State, id: nat): Option<int> {
    if Sent(s, id, EMAIL) then s.deliveries[(id, EMAIL)].deliveredAt else None
  }

  /**
   * The dedupe constraint; deliveries only of existing events, timed exactly when they were sent; and the
   * event's own mark kept equal to the time of its mail delivery.
   */
  ghost predicate Valid(s: State) {
    && (forall id :: id in s.events ==> id < s.next)
    && UniqueKeys(s.events)
    && (forall k :: k in s.deliveries ==> k.0 in s.events)
    && (forall k :: k in s.deliveries ==> (s.deliveries[k].deliveredAt.Some? <==> s.deliveries[k].status == SENT))
    && (forall id :: id in s.events ==> s.events[id].digestSentAt == MailedAt(s, id))
  }

  const EMPTY := State(map[], map[], 0)

  lemma ApplyKeepsValid(s: State, op: Op)
    requires Valid(s) && Allowed(s, op)
    ensures Valid(Apply(s, op))
  {
    match op
    case Create(p) => CreateKeepsValid(s, p);
    case Upsert(p, protectSent) => UpsertKeepsValid(s, p, protectSent);
    case Delete(t, b, k, keep) => DeleteKeepsValid(s, t, b, k, keep);
    case Record(c, ids, at, status, error) => RecordKeepsValid(s, c, ids, at, status, error);
  }

  lemma CreateKeepsValid(s: State, p: Payload)
    requires Valid(s)
    ensures Valid(Created(s, p).1)
  {
    if WithKey(s, p.alertType, p.bucketDate, p.dedupeKey) == {} {
      var t := Created(s, p).1;
      forall id | id in s.events ensures !HasKey(s.events[id], p.alertType, p.bucketDate, p.dedupeKey) {
        assert id !in WithKey(s, p.alertType, p.bucketDate, p.dedupeKey);
      }
      assert !Sent(t, s.next, EMAIL);
    }
  }

  lemma UpsertKeepsValid(s: State, p: Payload, protectSent: bool)
    requires Valid(s)
    ensures Valid(Upserted(s, p, protectSent).1)
  {
    var found := WithKey(s, p.alertType, p.bucketDate, p.dedupeKey);
    if found == {} {
      CreateKeepsValid(s, p);
    } else {
      var id := First(found);
      assert HasKey(s.events[id], p.alertType, p.bucketDate, p.dedupeKey);
    }
  }

  lemma DeleteKeepsValid(s: State, alertType: string, bucketDate: int, dedupeKey: Option<string>, keep: set<string>)
    requires Valid(s)
    ensures Valid(Deleted(s, alertType, bucketDate, dedupeKey, keep))
  {
  }

  lemma RecordKeepsValid(s: State, channel: string, ids: seq<nat>, at: int, status: string, error: Option<string>)
    requires Valid(s) && forall id :: id in ids ==> id in s.events && Pending(s, id, channel)
    requires channel != ""
    ensures Valid(Recorded(s, channel, ids, at, status, error))
  {
    var t := Recorded(s, channel, ids, at, status, error);
    RecordedEvents(s, channel, ids, at, status, error);
    SameKeysStayUnique(s.events, t.events);
    forall id | id in t.events ensures t.events[id].digestSentAt == MailedAt(t, id) {
      RecordedMark(s, channel, ids, at, status, error, id);
    }
    forall k | k in t.deliveries
      ensures k.0 in t.events && (t.deliveries[k].deliveredAt.Some? <==> t.deliveries[k].status == SENT)
    {
      if k !in s.deliveries {
        assert k.0 in ids;
      }
    }
  }

  lemma RecordedEvents(s: State, channel: string, ids: seq<nat>, at: int, status: string, error: Option<string>)
    ensures var t := Recorded(s, channel, ids, at, status, error);
      && t.events.Keys == s.events.Keys && t.next == s.next
      && forall id | id in s.events :: SameKey(t.events[id], s.events[id])
  {
  }

  ghost predicate UniqueKeys(events: map<nat, Event>) {
    forall a, b | a in events && b in events && SameKey(events[a], events[b]) :: a == b
  }

  lemma SameKeysStayUnique(before: map<nat, Event>, after: map<nat, Event>)
    requires UniqueKeys(before) && after.Keys == before.Keys && forall id | id in before :: SameKey(after[id], before[id])
    ensures UniqueKeys(after)
  {
    forall a, b | a in after && b in after && SameKey(after[a], after[b]) ensures a == b {
      assert SameKey(before[a], before[b]);
    }
  }

  lemma RecordedMark(s: State, channel: string, ids: seq<nat>, at: int, status: string, error: Option<string>, id: nat)
    requires id in s.events && (id in ids ==> Pending(s, id, channel)) && channel != ""
    requires s.events[id].digestSentAt == MailedAt(s, id)
    ensures var t := Recorded(s, channel, ids, at, status, error); t.events[id].digestSentAt == MailedAt(t, id)
  {
  }

  // ---- What an upsert leaves ----

  /** Upserting a payload again changes nothing and creates nothing, whether the first created, overwrote or was refused. */
  lemma UpsertIdempotent(s: State, p: Payload, protectSent: bool)
    requires Valid(s)
    ensures Upserted(Upserted(s, p, protectSent).1, p, protectSent) == (false, Upserted(s, p, protectSent).1)
  {
    var t := Upserted(s, p, protectSent).1;
    UpsertKeepsValid(s, p, protectSent);
    var found := WithKey(s, p.alertType, p.bucketDate, p.dedupeKey);
    var id := if found == {} then s.next else First(found);
    var again := WithKey(t, p.alertType, p.bucketDate, p.dedupeKey);
    assert id in again;
    assert First(again) == id by {
      assert First(again) in again;
    }
    assert !SentAnywhere(s, id) ==> !SentAnywhere(t, id);
    if t.events[id] == Patched(t.events[id], p) {
      assert t.events[id := t.events[id]] == t.events;
    }
  }

  /**
   * What an upsert does to the event with the payload's key: nothing once it is marked, or with protection once
   * any channel delivered it; otherwise it overwrites that event and no other.
   */
  lemma UpsertMeaning(s: State, p: Payload, protectSent: bool, id: nat)
    requires Valid(s) && id in s.events
    requires s.events[id].alertType == p.alertType && s.events[id].bucketDate == p.bucketDate && s.events[id].dedupeKey == p.dedupeKey
    ensures Upserted(s, p, protectSent) ==
      if s.events[id].digestSentAt.Some?
         || (protectSent && exists c: string :: (id, c) in s.deliveries && s.deliveries[(id, c)].status == "sent")
      then (false, s) else (false, s.(events := s.events[id := Patched(s.events[id], p)]))
  {
    var found := WithKey(s, p.alertType, p.bucketDate, p.dedupeKey);
    assert id in found;
    assert First(found) == id by {
      assert First(found) in found;
    }
    if k :| k in s.deliveries && k.0 == id && s.deliveries[k].status == SENT {
      assert (id, k.1) in s.deliveries && s.deliveries[(id, k.1)].status == "sent";
    }
  }

  /**
   * Freezing after a send, exactly: an upsert leaves a delivered event alone when the caller asks for
   * protection or the event was mailed; otherwise it still rewrites what was sent.
   */
  lemma FrozenAfterSendIff(s: State, p: Payload, protectSent: bool, id: nat, channel: string)
    requires Valid(s) && Sent(s, id, channel)
    requires id in s.events && HasKey(s.events[id], p.alertType, p.bucketDate, p.dedupeKey)
    ensures Upserted(s, p, protectSent).1 ==
      if protectSent || s.events[id].digestSentAt.Some? then s else s.(events := s.events[id := Patched(s.events[id], p)])
  {
    var found := WithKey(s, p.alertType, p.bucketDate, p.dedupeKey);
    assert id in found;
    assert First(found) == id by {
      assert First(found) in found;
    }
    assert (id, channel) in s.deliveries;
  }

  predicate Complete(p: Payload) {
    p.instanceId.Given? && p.databaseName.Given? && p.username.Given? && p.runId.Given? && p.sessionId.Given?
  }

  /** An event overwritten with a payload that names every column is the event the payload would have created. */
  lemma OverwrittenIsFresh(s: State, p: Payload, protectSent: bool)
    requires Valid(s) && Complete(p)
    requires var found := WithKey(s, p.alertType, p.bucketDate, p.dedupeKey);
      found != {} && !Frozen(s, First(found), protectSent)
    ensures var found := WithKey(s, p.alertType, p.bucketDate, p.dedupeKey);
      Upserted(s, p, protectSent).1.events == s.events[First(found) := NewEvent(p)]
  {
  }

  // ---- Delivered stays delivered ----

  /** A delivery that was sent stays sent, its event is never deleted, and a mailed event never changes again. */
  lemma SentStaysSent(s: State, op: Op, id: nat, channel: string)
    requires Valid(s) && Allowed(s, op) && Sent(s, id, channel) && channel != ""
    ensures id in s.events && id in Apply(s, op).events && Sent(Apply(s, op), id, channel)
    ensures !Pending(Apply(s, op), id, channel)
    ensures s.events[id].digestSentAt.Some? ==> Apply(s, op).events[id] == s.events[id]
  {
  }

  /** A step sends on a channel exactly the pending events it records as sent there. */
  lemma NewlySent(s: State, op: Op, id: nat, channel: string)
    requires Valid(s) && Allowed(s, op) && !Sent(s, id, channel)
    ensures Sent(Apply(s, op), id, channel) <==> Sends(op, id, channel)
  {
  }

  predicate Sends(op: Op, id: nat, channel: string) {
    op.Record? && op.channel == channel && id in op.ids && op.status == SENT
  }

  ghost function Run(s: State, ops: seq<Op>): State {
    if ops == [] then s else Apply(Run(s, ops[..|ops| - 1]), ops[|ops| - 1])
  }

  ghost predicate AllowedRun(s: State, ops: seq<Op>) {
    ops == [] || (AllowedRun(s, ops[..|ops| - 1]) && Allowed(Run(s, ops[..|ops| - 1]), ops[|ops| - 1]))
  }

  lemma RunAppend(s: State, ops: seq<Op>, op: Op)
    ensures Run(s, ops + [op]) == Apply(Run(s, ops), op)
    ensures AllowedRun(s, ops + [op]) <==> AllowedRun(s, ops) && Allowed(Run(s, ops), op)
  {
    assert (ops + [op])[..|ops|] == ops;
  }

  lemma {:induction false} RunKeepsValid(s: State, ops: seq<Op>)
    requires Valid(s) && AllowedRun(s, ops)
    ensures Valid(Run(s, ops))
  {
    if ops == [] {
    } else {
      RunKeepsValid(s, ops[..|ops| - 1]);
      ApplyKeepsValid(Run(s, ops[..|ops| - 1]), ops[|ops| - 1]);
    }
  }

  function SendCount(ops: seq<Op>, id: nat, channel: string): nat {
    if ops == [] then 0
    else SendCount(ops[..|ops| - 1], id, channel) + if Sends(ops[|ops| - 1], id, channel) then 1 else 0
  }

  function Flag(b: bool): nat {
    if b then 1 else 0
  }

  /**
   * At most once per channel: over any run, the sends recorded for an event on a channel, together with
   * the delivery it may have had before, add up to whether it is delivered at the end.
   */
  lemma {:induction false} DeliveredAtMostOnce(s: State, ops: seq<Op>, id: nat, channel: string)
    requires Valid(s) && AllowedRun(s, ops) && channel != ""
    ensures Flag(Sent(s, id, channel)) + SendCount(ops, id, channel) == Flag(Sent(Run(s, ops), id, channel)) <= 1
  {
    if ops == [] {
    } else {
      var n := |ops| - 1;
      var before := Run(s, ops[..n]);
      DeliveredAtMostOnce(s, ops[..n], id, channel);
      RunKeepsValid(s, ops[..n]);
      if Sent(before, id, channel) {
        SentStaysSent(before, ops[n], id, channel);
        assert !Sends(ops[n], id, channel);
      } else {
        NewlySent(before, ops[n], id, channel);
      }
    }
  }

  /** Once sent, an event stays in the table, delivered and off the channel's pending list, to the end of any run. */
  lemma {:induction false} NeverListedAgain(s: State, ops: seq<Op>, id: nat, channel: string, bucketDate: Option<int>)
    requires Valid(s) && AllowedRun(s, ops) && channel != "" && Sent(s, id, channel)
    ensures id in Run(s, ops).events && Sent(Run(s, ops), id, channel)
    ensures id !in PendingIds(Run(s, ops), channel, bucketDate)
  {
    if ops == [] {
      assert (id, channel) in s.deliveries;
    } else {
      var n := |ops| - 1;
      NeverListedAgain(s, ops[..n], id, channel, bucketDate);
      RunKeepsValid(s, ops[..n]);
      SentStaysSent(Run(s, ops[..n]), ops[n], id, channel);
    }
  }

  /** From the empty tables, an event is marked as mailed exactly when its mail delivery is sent, and with that time. */
  lemma MarkedIffMailed(ops: seq<Op>, id: nat)
    requires AllowedRun(EMPTY, ops) && id in Run(EMPTY, ops).events
    ensures var t := Run(EMPTY, ops);
      && (t.events[id].digestSentAt.Some? <==> Sent(t, id, EMAIL))
      && (Sent(t, id, EMAIL) ==> t.deliveries[(id, EMAIL)].deliveredAt == t.events[id].digestSentAt)
  {
    RunKeepsValid(EMPTY, ops);
  }

  /** A digest sends both lists it read at the start: recording one channel leaves the other's list as it was. */
  lemma OtherChannelStillPending(s: State, channel: string, ids: seq<nat>, at: int, status: string, error: Option<string>,
                                 other: string, bucketDate: Option<int>)
    requires Valid(s) && Allowed(s, Record(channel, ids, at, status, error)) && other != channel && other != ""
    ensures PendingIds(Recorded(s, channel, ids, at, status, error), other, bucketDate) == PendingIds(s, other, bucketDate)
  {
  }

  // ---- Counters and lists ----

  /** An event counts as sent exactly when none of the required channels lists it as pending. */
  lemma SentIffPendingNowhere(s: State, id: nat, channels: set<string>)
    requires id in s.events && channels != {} && "" !in channels
    ensures CountsAsSent(s, id, channels) <==> forall c :: c in channels ==> !Pending(s, id, c)
  {
  }

  /** The sent count of a type is the number of bucket events pending nowhere, and the counts add up to the bucket. */
  lemma CountsAgreeWithLists(s: State, bucketDate: int, alertType: string, channels: set<string>)
    requires channels != {} && "" !in channels
    ensures SentIds(s, bucketDate, alertType, channels) ==
      set id | id in BucketIds(s, bucketDate, alertType) && forall c | c in channels :: id !in PendingIds(s, c, Some(bucketDate))
    ensures |SentIds(s, bucketDate, alertType, channels)| + |UnsentIds(s, bucketDate, alertType, channels)|
      == |BucketIds(s, bucketDate, alertType)|
  {
    forall id | id in BucketIds(s, bucketDate, alertType)
      ensures CountsAsSent(s, id, channels) <==> forall c | c in channels :: id !in PendingIds(s, c, Some(bucketDate))
    {
      SentIffPendingNowhere(s, id, channels);
      assert forall c :: c in channels ==> (id in PendingIds(s, c, Some(bucketDate)) <==> Pending(s, id, c));
    }
    var sent, unsent := SentIds(s, bucketDate, alertType, channels), UnsentIds(s, bucketDate, alertType, channels);
    assert BucketIds(s, bucketDate, alertType) == sent + unsent && sent !! unsent;
  }

  /** A step never takes an event out of the sent ones: not by deleting, re-typing, or un-sending it. */
  lemma SentIdsGrow(s: State, op: Op, bucketDate: int, alertType: string, channels: set<string>)
    requires Valid(s) && Allowed(s, op) && channels != {} && "" !in channels
    ensures SentIds(s, bucketDate, alertType, channels) <= SentIds(Apply(s, op), bucketDate, alertType, channels)
  {
    var t := Apply(s, op);
    forall id | id in SentIds(s, bucketDate, alertType, channels) ensures id in SentIds(t, bucketDate, alertType, channels) {
      var some :| some in channels;
      assert Sent(s, id, some);
      SentStaysSent(s, op, id, some);
      KeyStays(s, op, id);
      forall c | c in channels ensures Sent(t, id, c) {
        assert Sent(s, id, c);
        SentStaysSent(s, op, id, c);
      }
    }
  }

  lemma KeyStays(s: State, op: Op, id: nat)
    requires Valid(s) && id in s.events && id in Apply(s, op).events
    ensures HasKey(Apply(s, op).events[id], s.events[id].alertType, s.events[id].bucketDate, s.events[id].dedupeKey)
  {
    match op
    case Create(p) =>
    case Upsert(p, protectSent) =>
    case Delete(t, b, k, keep) =>
    case Record(c, ids, at, status, error) =>
  }

  /** Sent counts never decrease along a run. */
  lemma {:induction false} SentCountsNeverDecrease(s: State, ops: seq<Op>, bucketDate: int, alertType: string, channels: set<string>)
    requires Valid(s) && AllowedRun(s, ops) && channels != {} && "" !in channels
    ensures |SentIds(s, bucketDate, alertType, channels)| <= |SentIds(Run(s, ops), bucketDate, alertType, channels)|
  {
    if ops == [] {
    } else {
      var n := |ops| - 1;
      SentCountsNeverDecrease(s, ops[..n], bucketDate, alertType, channels);
      RunKeepsValid(s, ops[..n]);
      SentIdsGrow(Run(s, ops[..n]), ops[n], bucketDate, alertType, channels);
      SubsetSize(SentIds(Run(s, ops[..n]), bucketDate, alertType, channels), SentIds(Run(s, ops), bucketDate, alertType, channels));
    }
  }
}

/** Alert events, their per-channel deliveries, and what each repository call does to them. */
module AlertEvents {
  import opened Common

  /** A nullable column in a payload: not supplied, or supplied with a value, which may be NULL. */
  datatype Column<+T> = Absent | Given(value: Option<T>)

  datatype Payload = Payload(
    alertType: string, occurredAt: int, bucketDate: int, dedupeKey: string, payloadJson: string,
    instanceId: Column<int>, databaseName: Column<string>, username: Column<string>,
    runId: Column<string>, sessionId: Column<string>)

  datatype Event = Event(
    alertType: string, occurredAt: int, bucketDate: int, dedupeKey: string, payloadJson: string,
    instanceId: Option<int>, databaseName: Option<string>, username: Option<string>,
    runId: Option<string>, sessionId: Option<string>, digestSentAt: Option<int>)

  datatype Delivery = Delivery(status: string, deliveredAt: Option<int>, errorMessage: Option<string>)

  const EMAIL := "email"
  const SENT := "sent"

  /** Both tables, events by primary key and deliveries by (event, channel), and the next event key. */
  datatype State = State(events: map<nat, Event>, deliveries: map<(nat, string), Delivery>, next: nat)

  /** What a column holds after the payload is written over it. */
  function Written<T>(column: Column<T>, present: Option<T>): Option<T> {
    if column.Given? then column.value else present
  }

  function NewEvent(p: Payload): Event {
    Event(p.alertType, p.occurredAt, p.bucketDate, p.dedupeKey, p.payloadJson,
          Written(p.instanceId, None), Written(p.databaseName, None), Written(p.username, None),
          Written(p.runId, None), Written(p.sessionId, None), None)
  }

  /** Every supplied column is overwritten. */
  function Patched(e: Event, p: Payload): Event {
    Event(p.alertType, p.occurredAt, p.bucketDate, p.dedupeKey, p.payloadJson,
          Written(p.instanceId, e.instanceId), Written(p.databaseName, e.databaseName), Written(p.username, e.username),
          Written(p.runId, e.runId), Written(p.sessionId, e.sessionId), e.digestSentAt)
  }

  /** A new event carries the payload, NULL where a nullable column was not supplied, and no mark. */
  lemma NewEventColumns(p: Payload)
    ensures var e := NewEvent(p);
      && e.alertType == p.alertType && e.occurredAt == p.occurredAt && e.bucketDate == p.bucketDate
      && e.dedupeKey == p.dedupeKey && e.payloadJson == p.payloadJson && e.digestSentAt == None
      && e.instanceId == (match p.instanceId case Given(v) => v case Absent => None)
      && e.databaseName == (match p.databaseName case Given(v) => v case Absent => None)
      && e.username == (match p.username case Given(v) => v case Absent => None)
      && e.runId == (match p.runId case Given(v) => v case Absent => None)
      && e.sessionId == (match p.sessionId case Given(v) => v case Absent => None)
  {
  }

  /** An overwritten event carries the payload, its own value where a nullable column was not supplied, and its own mark. */
  lemma PatchedColumns(present: Event, p: Payload)
    ensures var e := Patched(present, p);
      && e.alertType == p.alertType && e.occurredAt == p.occurredAt && e.bucketDate == p.bucketDate
      && e.dedupeKey == p.dedupeKey && e.payloadJson == p.payloadJson && e.digestSentAt == present.digestSentAt
      && e.instanceId == (match p.instanceId case Given(v) => v case Absent => present.instanceId)
      && e.databaseName == (match p.databaseName case Given(v) => v case Absent => present.databaseName)
      && e.username == (match p.username case Given(v) => v case Absent => present.username)
      && e.runId == (match p.runId case Given(v) => v case Absent => present.runId)
      && e.sessionId == (match p.sessionId case Given(v) => v case Absent => present.sessionId)
  {
  }

  predicate HasKey(e: Event, alertType: string, bucketDate: int, dedupeKey: string) {
    e.alertType == alertType && e.bucketDate == bucketDate && e.dedupeKey == dedupeKey
  }

  predicate Sent(s: State, id: nat, channel: string) {
    (id, channel) in s.deliveries && s.deliveries[(id, channel)].status == SENT
  }

  predicate SentAnywhere(s: State, id: nat) {
    exists k | k in s.deliveries :: k.0 == id && s.deliveries[k].status == SENT
  }

  /** The events with a key; the dedupe constraint allows at most one. */
  function WithKey(s: State, alertType: string, bucketDate: int, dedupeKey: string): set<nat> {
    set id | id in s.events && HasKey(s.events[id], alertType, bucketDate, dedupeKey)
  }

  // ---- The calls ----

  datatype CreateError = IntegrityError

  function Created(s: State, p: Payload): (Result<nat, CreateError>, State) {
    if WithKey(s, p.alertType, p.bucketDate, p.dedupeKey) != {} then (Err(IntegrityError), s)
    else (Ok(s.next), s.(events := s.events[s.next := NewEvent(p)], next := s.next + 1))
  }

  /** An event is frozen once it was mailed, or, if asked for, once any channel delivered it. */
  predicate Frozen(s: State, id: nat, protectSent: bool)
    requires id in s.events
  {
    s.events[id].digestSentAt.Some? || (protectSent && SentAnywhere(s, id))
  }

  /** Creates the event or overwrites the pending one; true when it was created. */
  ghost function Upserted(s: State, p: Payload, protectSent: bool): (bool, State) {
    var found := WithKey(s, p.alertType, p.bucketDate, p.dedupeKey);
    if found == {} then (true, Created(s, p).1)
    else
      var id := First(found);
      if Frozen(s, id, protectSent) then (false, s)
      else (false, s.(events := s.events[id := Patched(s.events[id], p)]))
  }

  predicate IsFirst(id: nat, ids: set<nat>) {
    id in ids && forall other | other in ids :: id <= other
  }

  /** The smallest key. */
  ghost function First(ids: set<nat>): (id: nat)
    requires ids != {}
    ensures IsFirst(id, ids)
  {
    SomeFirst(ids);
    var id :| IsFirst(id, ids);
    id
  }

  lemma {:induction false} SomeFirst(ids: set<nat>)
    requires ids != {}
    ensures exists id :: IsFirst(id, ids)
  {
    var x :| x in ids;
    var rest := ids - {x};
    if rest == {} {
      assert ids == {x};
      assert IsFirst(x, ids);
    } else {
      SomeFirst(rest);
      var y :| IsFirst(y, rest);
      FirstOfMore(x, y, rest);
      assert ids == rest + {x};
    }
  }

  lemma FirstOfMore(x: nat, y: nat, rest: set<nat>)
    requires IsFirst(y, rest)
    ensures IsFirst(if x <= y then x else y, rest + {x})
  {
  }

  /** An empty set of keys to keep means no such filter. */
  predicate Deletable(s: State, id: nat, alertType: string, bucketDate: int, dedupeKey: Option<string>, keep: set<string>)
    requires id in s.events
  {
    var e := s.events[id];
    && e.alertType == alertType && e.bucketDate == bucketDate
    && e.digestSentAt.None? && !SentAnywhere(s, id)
    && (dedupeKey.Some? ==> e.dedupeKey == dedupeKey.value)
    && (keep != {} ==> e.dedupeKey !in keep)
  }

  function DeletableIds(s: State, alertType: string, bucketDate: int, dedupeKey: Option<string>, keep: set<string>): set<nat> {
    set id | id in s.events && Deletable(s, id, alertType, bucketDate, dedupeKey, keep)
  }

  /** Deleting an event deletes its deliveries. */
  function Without(s: State, ids: set<nat>): State {
    s.(events := s.events - ids, deliveries := map k | k in s.deliveries && k.0 !in ids :: s.deliveries[k])
  }

  function Deleted(s: State, alertType: string, bucketDate: int, dedupeKey: Option<string>, keep: set<string>): State {
    Without(s, DeletableIds(s, alertType, bucketDate, dedupeKey, keep))
  }

  /**
   * An event goes exactly when it has the type and day, is neither mailed nor sent anywhere, has the dedupe
   * key if one is named, and none of the keys to keep if there are any.
   */
  lemma DeletedEvents(s: State, alertType: string, bucketDate: int, dedupeKey: Option<string>, keep: set<string>, id: nat)
    requires id in s.events
    ensures var e, t := s.events[id], Deleted(s, alertType, bucketDate, dedupeKey, keep);
      && (id !in t.events <==>
            && e.alertType == alertType && e.bucketDate == bucketDate && e.digestSentAt.None?
            && (forall c: string :: (id, c) in s.deliveries ==> s.deliveries[(id, c)].status != "sent")
            && (dedupeKey.Some? ==> e.dedupeKey == dedupeKey.value) && (keep != {} ==> e.dedupeKey !in keep))
      && (id in t.events ==> t.events[id] == e)
  {
  }

  /** Deliveries go exactly with their events. */
  lemma DeletedDeliveries(s: State, alertType: string, bucketDate: int, dedupeKey: Option<string>, keep: set<string>, k: (nat, string))
    ensures var t := Deleted(s, alertType, bucketDate, dedupeKey, keep);
      && t.events.Keys <= s.events.Keys && t.next == s.next
      && Get(t.deliveries, k) == if k.0 in s.events && k.0 !in t.events then None else Get(s.deliveries, k)
  {
  }

  /** Pending on a channel: not delivered there, and for mail not marked as mailed; without a channel, not mailed. */
  predicate Pending(s: State, id: nat, channel: string)
    requires id in s.events
  {
    if channel == "" then s.events[id].digestSentAt.None?
    else !Sent(s, id, channel) && (channel == EMAIL ==> s.events[id].digestSentAt.None?)
  }

  function PendingIds(s: State, channel: string, bucketDate: Option<int>): set<nat> {
    set id | id in s.events && Pending(s, id, channel) && (bucketDate.Some? ==> s.events[id].bucketDate == bucketDate.value)
  }

  function DeliveryOf(status: string, at: int, error: Option<string>): Delivery {
    Delivery(status, if status == SENT then Some(at) else None, error)
  }

  /** Records an attempt for each event; a mail that was sent also marks the events. */
  function Recorded(s: State, channel: string, ids: seq<nat>, at: int, status: string, error: Option<string>): State {
    s.(deliveries := s.deliveries + map id | id in ids :: (id, channel) := DeliveryOf(status, at, error),
       events := if channel == EMAIL && status == SENT then Marked(s.events, ids, at) else s.events)
  }

  /**
   * The attempts can be stored: every event exists, and an event named twice already has its row,
   * since two new rows for one event and channel break the unique constraint.
   */
  predicate Recordable(s: State, channel: string, ids: seq<nat>) {
    forall i | 0 <= i < |ids| :: ids[i] in s.events && ((ids[i], channel) in s.deliveries || ids[i] !in ids[..i])
  }

  /** All listed events exist, and one listed twice has a row for the channel already. */
  lemma RecordableMeaning(s: State, channel: string, ids: seq<nat>)
    ensures Recordable(s, channel, ids) <==>
      (forall id :: id in ids ==> id in s.events) &&
      forall i, j :: 0 <= i < j < |ids| && ids[i] == ids[j] ==> (ids[j], channel) in s.deliveries
  {
    if Recordable(s, channel, ids) {
      forall i, j | 0 <= i < j < |ids| && ids[i] == ids[j] ensures (ids[j], channel) in s.deliveries {
        assert ids[..j][i] == ids[j];
      }
    }
  }

  function Marked(events: map<nat, Event>, ids: seq<nat>, at: int): map<nat, Event> {
    map id | id in events :: if id in ids then events[id].(digestSentAt := Some(at)) else events[id]
  }

  /** Each recorded attempt carries the status and message, and a time exactly when it was sent; other rows stay as they were. */
  lemma RecordedDeliveries(s: State, channel: string, ids: seq<nat>, at: int, status: string, error: Option<string>, k: (nat, string))
    ensures Get(Recorded(s, channel, ids, at, status, error).deliveries, k) ==
      if k.0 in ids && k.1 == channel then Some(Delivery(status, if status == "sent" then Some(at) else None, error))
      else Get(s.deliveries, k)
  {
  }

  /** A sent mail marks its events with the time and changes nothing else of them; any other attempt changes no event. */
  lemma RecordedEvent(s: State, channel: string, ids: seq<nat>, at: int, status: string, error: Option<string>, id: nat)
    requires id in s.events
    ensures var t := Recorded(s, channel, ids, at, status, error);
      && t.next == s.next && t.events.Keys == s.events.Keys
      && t.events[id] ==
           if channel == "email" && status == "sent" && id in ids then s.events[id].(digestSentAt := Some(at)) else s.events[id]
  {
  }

  // ---- Counting a bucket ----

  /** Counted as sent: on every required channel delivered, a marked event counting as mailed; without channels, mailed. */
  predicate CountsAsSent(s: State, id: nat, channels: set<string>) {
    && id in s.events
    && if channels == {} then s.events[id].digestSentAt.Some?
       else forall c | c in channels :: Sent(s, id, c) || (c == EMAIL && s.events[id].digestSentAt.Some?)
  }

  function BucketIds(s: State, bucketDate: int, alertType: string): set<nat> {
    set id | id in s.events && s.events[id].bucketDate == bucketDate && s.events[id].alertType == alertType
  }

  function SentIds(s: State, bucketDate: int, alertType: string, channels: set<string>): set<nat> {
    set id | id in BucketIds(s, bucketDate, alertType) && CountsAsSent(s, id, channels)
  }

  function UnsentIds(s: State, bucketDate: int, alertType: string, channels: set<string>): set<nat> {
    set id | id in BucketIds(s, bucketDate, alertType) && !CountsAsSent(s, id, channels)
  }

  /** The bucket's events of a type, counted as sent when each required channel delivered them or the mark stands for mail. */
  lemma BucketMeaning(s: State, bucketDate: int, alertType: string, channels: set<string>, id: nat)
    ensures id in SentIds(s, bucketDate, alertType, channels) || id in UnsentIds(s, bucketDate, alertType, channels) <==>
      id in s.events && s.events[id].bucketDate == bucketDate && s.events[id].alertType == alertType
    ensures id in UnsentIds(s, bucketDate, alertType, channels) ==> id !in SentIds(s, bucketDate, alertType, channels)
    ensures id in SentIds(s, bucketDate, alertType, channels) ==>
      (channels == {} ==> s.events[id].digestSentAt.Some?) &&
      forall c :: c in channels ==>
        ((id, c) in s.deliveries && s.deliveries[(id, c)].status == "sent") || (c == "email" && s.events[id].digestSentAt.Some?)
    ensures id in UnsentIds(s, bucketDate, alertType, channels) ==>
      (channels == {} ==> s.events[id].digestSentAt.None?) &&
      (channels != {} ==> exists c ::
         && c in channels && (c == "email" ==> s.events[id].digestSentAt.None?)
         && ((id, c) in s.deliveries ==> s.deliveries[(id, c)].status != "sent"))
  {
  }
}

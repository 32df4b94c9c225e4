/** The alert tables as the repository changes them in place, and the queries and counters over them. */
module AlertRepository {
  import opened Common
  import opened AlertEvents
  import opened AlertRuns
  import Ordering

  // ---- Reading rows ----

  /** All elements of a query result, each once, in no particular order. */
  method Fetch<T(==)>(rows: set<T>) returns (list: seq<T>)
    ensures Distinct(list)
    ensures forall x :: x in list <==> x in rows
  {
    list := [];
    var rest := rows;
    while rest != {}
      invariant rest <= rows && Distinct(list)
      invariant forall x :: x in list <==> x in rows - rest
      decreases |rest|
    {
      var x :| x in rest;
      assert x !in list;
      list, rest := list + [x], rest - {x};
    }
  }

  function OccurredAt(events: map<nat, Event>, id: nat): int {
    if id in events then events[id].occurredAt else 0
  }

  /** Oldest first, ties by primary key. */
  predicate DigestOrder(events: map<nat, Event>, a: nat, b: nat) {
    OccurredAt(events, a) < OccurredAt(events, b) || (OccurredAt(events, a) == OccurredAt(events, b) && a <= b)
  }

  lemma DigestOrderTotal(events: map<nat, Event>)
    ensures Ordering.TotalPreorder((a: nat, b: nat) => DigestOrder(events, a, b))
  {
  }

  /** The list is settled by the tables: there is one way to put the pending events in order. */
  lemma PendingListUnique(events: map<nat, Event>, xs: seq<nat>, ys: seq<nat>)
    requires Distinct(xs) && Distinct(ys) && forall id :: id in xs <==> id in ys
    requires Ordering.Sorted((a: nat, b: nat) => DigestOrder(events, a, b), xs)
    requires Ordering.Sorted((a: nat, b: nat) => DigestOrder(events, a, b), ys)
    ensures xs == ys
  {
    DistinctMultiset(xs);
    DistinctMultiset(ys);
    assert multiset(xs) == multiset(ys);
    Ordering.SortedUnique((a: nat, b: nat) => DigestOrder(events, a, b), xs, ys);
  }

  datatype Counts = Counts(pending: nat, sent: nat)

  /** The counters after the listed events were counted. */
  ghost predicate Counted(s: State, list: seq<nat>, channels: set<string>, stats: map<string, Counts>) {
    && (forall id :: id in list ==> id in s.events)
    && (forall t :: t in stats <==> exists id :: id in list && s.events[id].alertType == t)
    && (forall t :: t in stats ==> stats[t] == CountsOf(s, list, channels, t))
  }

  /** Events of a type that do, or do not, count as sent. */
  ghost function OfType(s: State, channels: set<string>, t: string, sent: bool): nat -> bool {
    id => id in s.events && s.events[id].alertType == t && CountsAsSent(s, id, channels) == sent
  }

  ghost function CountsOf(s: State, list: seq<nat>, channels: set<string>, t: string): Counts {
    Counts(|Where(list, OfType(s, channels, t, false))|, |Where(list, OfType(s, channels, t, true))|)
  }

  function Tally(stats: map<string, Counts>, t: string, sent: bool): map<string, Counts> {
    var bucket := if t in stats then stats[t] else Counts(0, 0);
    stats[t := if sent then bucket.(sent := bucket.sent + 1) else bucket.(pending := bucket.pending + 1)]
  }

  /** One more event changes only the counters of its own type, by one. */
  lemma CountsOfAppend(s: State, list: seq<nat>, channels: set<string>, id: nat, t: string)
    requires id in s.events && id !in list
    ensures CountsOf(s, list + [id], channels, t) ==
      var c := CountsOf(s, list, channels, t);
      if s.events[id].alertType != t then c
      else if CountsAsSent(s, id, channels) then c.(sent := c.sent + 1) else c.(pending := c.pending + 1)
  {
    WhereAppend(list, id, OfType(s, channels, t, false));
    WhereAppend(list, id, OfType(s, channels, t, true));
  }

  lemma CountsOfNone(s: State, list: seq<nat>, channels: set<string>, t: string)
    requires forall id :: id in list && id in s.events ==> s.events[id].alertType != t
    ensures CountsOf(s, list, channels, t) == Counts(0, 0)
  {
  }

  lemma CountedStep(s: State, list: seq<nat>, channels: set<string>, stats: map<string, Counts>, id: nat)
    requires Counted(s, list, channels, stats) && id in s.events && id !in list
    ensures Counted(s, list + [id], channels, Tally(stats, s.events[id].alertType, CountsAsSent(s, id, channels)))
  {
    var own := s.events[id].alertType;
    var stats' := Tally(stats, own, CountsAsSent(s, id, channels));
    if own !in stats {
      CountsOfNone(s, list, channels, own);
    }
    forall t | t in stats' ensures stats'[t] == CountsOf(s, list + [id], channels, t) {
      CountsOfAppend(s, list, channels, id, t);
    }
    forall t ensures t in stats' <==> exists i :: i in list + [id] && s.events[i].alertType == t {
      if t in stats {
        var i :| i in list && s.events[i].alertType == t;
        assert i in list + [id];
      }
      assert id in list + [id];
    }
  }

  /** Tallying the next row of a query result. */
  lemma CountedNext(s: State, list: seq<nat>, i: nat, channels: set<string>, stats: map<string, Counts>, sent: bool)
    requires Distinct(list) && i < |list| && Counted(s, list[..i], channels, stats) && list[i] in s.events
    requires sent <==> CountsAsSent(s, list[i], channels)
    ensures Counted(s, list[..i + 1], channels, Tally(stats, s.events[list[i]].alertType, sent))
  {
    CountedStep(s, list[..i], channels, stats, list[i]);
    assert list[..i + 1] == list[..i] + [list[i]];
  }

  /** The channels collected for an event, a mark counting as mailed, cover the required ones exactly when it counts as sent. */
  lemma CoveredIffCounted(s: State, id: nat, required: set<string>, sent: set<string>)
    requires id in s.events && required != {}
    requires forall c :: c in required ==>
      (c in sent <==> Sent(s, id, c) || (c == EMAIL && s.events[id].digestSentAt.Some?))
    ensures required <= sent <==> CountsAsSent(s, id, required)
  {
  }

  lemma CountedBucket(s: State, list: seq<nat>, bucketDate: int, channels: set<string>, stats: map<string, Counts>)
    requires Counted(s, list, channels, stats)
    requires forall id :: id in list <==> id in s.events && s.events[id].bucketDate == bucketDate
    ensures forall t :: t in stats <==> BucketIds(s, bucketDate, t) != {}
    ensures forall t :: t in stats ==>
      stats[t] == Counts(|UnsentIds(s, bucketDate, t, channels)|, |SentIds(s, bucketDate, t, channels)|)
  {
    forall t ensures t in stats <==> BucketIds(s, bucketDate, t) != {} {
      if t in stats {
        var id :| id in list && s.events[id].alertType == t;
        assert id in BucketIds(s, bucketDate, t);
      }
      if BucketIds(s, bucketDate, t) != {} {
        var id :| id in BucketIds(s, bucketDate, t);
        assert id in list;
      }
    }
    forall t | t in stats
      ensures stats[t] == Counts(|UnsentIds(s, bucketDate, t, channels)|, |SentIds(s, bucketDate, t, channels)|)
    {
      assert stats[t] == CountsOf(s, list, channels, t);
      CountsOfBucket(s, list, bucketDate, channels, t);
    }
  }

  lemma CountsOfBucket(s: State, list: seq<nat>, bucketDate: int, channels: set<string>, t: string)
    requires forall id :: id in list <==> id in s.events && s.events[id].bucketDate == bucketDate
    ensures CountsOf(s, list, channels, t) ==
      Counts(|UnsentIds(s, bucketDate, t, channels)|, |SentIds(s, bucketDate, t, channels)|)
  {
    assert UnsentIds(s, bucketDate, t, channels) == Where(list, OfType(s, channels, t, false));
    assert SentIds(s, bucketDate, t, channels) == Where(list, OfType(s, channels, t, true));
  }

  // ---- Recording ----

  function Attempts(channel: string, ids: seq<nat>, d: Delivery): map<(nat, string), Delivery> {
    map id | id in ids :: (id, channel) := d
  }

  lemma RecordedNone(s: State, channel: string, at: int, status: string, error: Option<string>)
    ensures Recordable(s, channel, []) && Recorded(s, channel, [], at, status, error) == s
  {
  }

  lemma RecordableStep(s: State, channel: string, ids: seq<nat>, i: nat)
    requires i < |ids|
    ensures Recordable(s, channel, ids[..i + 1]) <==>
      Recordable(s, channel, ids[..i]) && ids[i] in s.events && ((ids[i], channel) in s.deliveries || ids[i] !in ids[..i])
  {
  }

  lemma AttemptsStep(before: map<(nat, string), Delivery>, channel: string, ids: seq<nat>, i: nat, d: Delivery)
    requires i < |ids|
    ensures (before + Attempts(channel, ids[..i], d))[(ids[i], channel) := d] == before + Attempts(channel, ids[..i + 1], d)
    ensures (ids[i], channel) !in before ==>
      ((ids[i], channel) in before + Attempts(channel, ids[..i], d) <==> ids[i] in ids[..i])
  {
  }

  // ---- The repository ----

  class EmailAlertsRepository {
    var events: map<nat, Event>
    var deliveries: map<(nat, string), Delivery>
    var next: nat

    constructor ()
      ensures Tables() == EMPTY
    {
      events, deliveries, next := map[], map[], 0;
    }

    ghost function Tables(): State
      reads this
    {
      State(events, deliveries, next)
    }

    method CreateEvent(p: Payload) returns (created: Result<nat, CreateError>)
      modifies this
      ensures (created, Tables()) == Created(old(Tables()), p)
      ensures created.Err? <==> exists id ::
        && id in old(events) && old(events)[id].alertType == p.alertType
        && old(events)[id].bucketDate == p.bucketDate && old(events)[id].dedupeKey == p.dedupeKey
      ensures created.Err? ==> Tables() == old(Tables())
      ensures created.Ok? ==>
        && created.value == old(next) && next == old(next) + 1
        && events == old(events)[old(next) := NewEvent(p)] && deliveries == old(deliveries)
    {
      var clash := set id | id in events && HasKey(events[id], p.alertType, p.bucketDate, p.dedupeKey);
      assert clash == WithKey(Tables(), p.alertType, p.bucketDate, p.dedupeKey);
      if id :| id in events && events[id].alertType == p.alertType && events[id].bucketDate == p.bucketDate
               && events[id].dedupeKey == p.dedupeKey {
        assert id in clash;
      }
      if clash != {} {
        var id :| id in clash;
        assert HasKey(events[id], p.alertType, p.bucketDate, p.dedupeKey);
        return Err(IntegrityError);
      }
      created := Ok(next);
      events := events[next := NewEvent(p)];
      next := next + 1;
    }

    /** The first event with a key, by primary key. */
    method FindByKey(alertType: string, bucketDate: int, dedupeKey: string) returns (found: Option<nat>)
      ensures var ids := WithKey(Tables(), alertType, bucketDate, dedupeKey);
        found == if ids == {} then None else Some(First(ids))
    {
      ghost var ids := WithKey(Tables(), alertType, bucketDate, dedupeKey);
      var list: seq<nat> := Fetch<nat>(set id | id in events && HasKey(events[id], alertType, bucketDate, dedupeKey));
      assert forall id :: id in list <==> id in ids;
      found := None;
      for i := 0 to |list|
        invariant found.None? <==> i == 0
        invariant found.Some? ==> found.value in list[..i] && forall id :: id in list[..i] ==> found.value <= id
      {
        assert list[..i + 1] == list[..i] + [list[i]];
        if found.None? || list[i] < found.value {
          found := Some(list[i]);
        }
      }
      assert list[..|list|] == list;
      if found.Some? {
        assert found.value in ids && First(ids) in list;
      } else {
        assert ids == {};
      }
    }

    method HasSentDelivery(id: nat) returns (sent: bool)
      ensures sent <==> SentAnywhere(Tables(), id)
    {
      sent := exists k | k in deliveries :: k.0 == id && deliveries[k].status == SENT;
    }

    method UpsertPendingEvent(p: Payload, protectSent: bool) returns (created: bool)
      modifies this
      ensures (created, Tables()) == Upserted(old(Tables()), p, protectSent)
      ensures created <==> forall id :: id in old(events) ==>
        old(events)[id].alertType != p.alertType || old(events)[id].bucketDate != p.bucketDate || old(events)[id].dedupeKey != p.dedupeKey
      ensures created ==> events == old(events)[old(next) := NewEvent(p)]
      ensures deliveries == old(deliveries)
    {
      var found := FindByKey(p.alertType, p.bucketDate, p.dedupeKey);
      if found.None? {
        var r := CreateEvent(p);
        return true;
      }
      var id := found.value;
      assert id in WithKey(Tables(), p.alertType, p.bucketDate, p.dedupeKey);
      if events[id].digestSentAt.Some? {
        return false;
      }
      if protectSent {
        var sent := HasSentDelivery(id);
        if sent {
          return false;
        }
      }
      events := events[id := Patched(events[id], p)];
      return false;
    }

    /** Deletes the pending events of a type and day that the filters name; the deliveries go with them. */
    method DeletePendingEvents(alertType: string, bucketDate: int, dedupeKey: Option<string>, keep: set<string>) returns (count: nat)
      modifies this
      ensures Tables() == Deleted(old(Tables()), alertType, bucketDate, dedupeKey, keep)
      ensures count == |DeletableIds(old(Tables()), alertType, bucketDate, dedupeKey, keep)|
      ensures count == |old(events)| - |events|
    {
      var table := State(events, deliveries, next);
      var ids := DeletableIds(table, alertType, bucketDate, dedupeKey, keep);
      assert |events| == |events.Keys| && (events - ids).Keys == events.Keys - ids;
      events := events - ids;
      deliveries := map k | k in deliveries && k.0 !in ids :: deliveries[k];
      count := |ids|;
    }

    method ListPendingDigestEvents(channel: string, bucketDate: Option<int>) returns (list: seq<nat>)
      ensures Distinct(list) && forall id :: id in list <==> id in PendingIds(Tables(), channel, bucketDate)
      ensures Ordering.Sorted((a: nat, b: nat) => DigestOrder(old(events), a, b), list)
      ensures forall id :: id in list <==>
        && id in events && (bucketDate.Some? ==> events[id].bucketDate == bucketDate.value)
        && (channel in {"", "email"} ==> events[id].digestSentAt.None?)
        && (channel != "" ==> (id, channel) in deliveries ==> deliveries[(id, channel)].status != "sent")
      ensures forall i, j :: 0 <= i < j < |list| && list[i] in events && list[j] in events ==>
        events[list[i]].occurredAt < events[list[j]].occurredAt
        || (events[list[i]].occurredAt == events[list[j]].occurredAt && list[i] < list[j])
    {
      var table := State(events, deliveries, next);
      var rows := Fetch(PendingIds(table, channel, bucketDate));
      var all := events;
      var le := (a: nat, b: nat) => DigestOrder(all, a, b);
      list := Ordering.Sort(le, rows);
      DigestOrderTotal(all);
      Ordering.SortSorted(le, rows);
      Ordering.SortPermutes(le, rows);
      DistinctOfMultiset(rows, list);
      assert Ordering.Sorted((a: nat, b: nat) => DigestOrder(old(events), a, b), list) by {
        forall i, j | 0 <= i < j < |list| ensures DigestOrder(old(events), list[i], list[j]) {
          assert le(list[i], list[j]);
        }
      }
    }

    /** The channels each listed event was sent on. */
    method SentChannels(list: seq<nat>, channels: seq<string>) returns (byEvent: map<nat, set<string>>)
      ensures forall id, c :: id in byEvent && c in byEvent[id] <==> id in list && c in channels && Sent(Tables(), id, c)
    {
      var rows := Fetch(set k | k in deliveries && k.0 in list && k.1 in channels && deliveries[k].status == SENT);
      byEvent := map[];
      for i := 0 to |rows|
        invariant forall id, c :: id in byEvent && c in byEvent[id] <==> (id, c) in rows[..i]
      {
        assert rows[..i + 1] == rows[..i] + [rows[i]];
        var k := rows[i];
        byEvent := byEvent[k.0 := (if k.0 in byEvent then byEvent[k.0] else {}) + {k.1}];
      }
      assert rows[..|rows|] == rows;
      forall id, c ensures (id, c) in rows <==> id in list && c in channels && Sent(Tables(), id, c) {
      }
    }

    /** Per alert type of the day, the events still owed to some channel and the events done. */
    method GetBucketEventCounts(bucketDate: int, channels: seq<string>) returns (stats: map<string, Counts>)
      ensures forall t :: t in stats <==> BucketIds(Tables(), bucketDate, t) != {}
      ensures forall t :: t in stats ==>
        var required := set c | c in channels;
        stats[t] == Counts(|UnsentIds(Tables(), bucketDate, t, required)|, |SentIds(Tables(), bucketDate, t, required)|)
    {
      var list: seq<nat> := Fetch<nat>(set id | id in events && events[id].bucketDate == bucketDate);
      var required := set c | c in channels;
      stats := map[];
      if channels != [] {
        var byEvent := SentChannels(list, channels);
        for i := 0 to |list|
          invariant Counted(Tables(), list[..i], required, stats)
        {
          var id := list[i];
          assert id in list && channels[0] in required;
          var sent := if id in byEvent then byEvent[id] else {};
          if EMAIL in required && events[id].digestSentAt.Some? {
            sent := sent + {EMAIL};
          }
          CoveredIffCounted(Tables(), id, required, sent);
          CountedNext(Tables(), list, i, required, stats, required <= sent);
          stats := Tally(stats, events[id].alertType, required <= sent);
        }
      } else {
        for i := 0 to |list|
          invariant Counted(Tables(), list[..i], required, stats)
        {
          var id := list[i];
          assert id in list;
          CountedNext(Tables(), list, i, required, stats, events[id].digestSentAt.Some?);
          stats := Tally(stats, events[id].alertType, events[id].digestSentAt.Some?);
        }
      }
      assert list[..|list|] == list;
      CountedBucket(Tables(), list, bucketDate, required, stats);
    }

    method MarkEventsDigestSent(ids: seq<nat>, at: int)
      modifies this`events
      ensures events == Marked(old(events), ids, at)
    {
      if ids == [] {
        assert Marked(events, ids, at) == events;
        return;
      }
      events := Marked(events, ids, at);
    }

    /** Stores one attempt per listed event; a broken constraint rolls the transaction back. */
    method RecordDigestDelivery(channel: string, ids: seq<nat>, at: int, status: string, error: Option<string>) returns (ok: bool)
      modifies this`events, this`deliveries
      ensures ok <==> Recordable(old(Tables()), channel, ids)
      ensures Tables() == if ok then Recorded(old(Tables()), channel, ids, at, status, error) else old(Tables())
    {
      ok := true;
      if ids == [] {
        RecordedNone(Tables(), channel, at, status, error);
        return;
      }
      var before := deliveries;
      for i := 0 to |ids|
        invariant events == old(events) && before == old(deliveries)
        invariant deliveries == before + Attempts(channel, ids[..i], DeliveryOf(status, at, error))
        invariant ok <==> Recordable(old(Tables()), channel, ids[..i])
      {
        RecordableStep(old(Tables()), channel, ids, i);
        AttemptsStep(before, channel, ids, i, DeliveryOf(status, at, error));
        if (ids[i], channel) !in before {
          ok := ok && ids[i] in events && (ids[i], channel) !in deliveries;
        } else {
          ok := ok && ids[i] in events;
        }
        deliveries := deliveries[(ids[i], channel) := DeliveryOf(status, at, error)];
      }
      assert ids[..|ids|] == ids;
      if !ok {
        deliveries := before;
        return;
      }
      if channel == EMAIL && status == SENT {
        MarkEventsDigestSent(ids, at);
      }
    }
  }
}

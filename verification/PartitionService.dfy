/** Creating a month's partitions and cleaning up old ones: all four tables or none. */
module PartitionService {
  import opened Common
  import opened Calendar
  import opened PartitionNames

  datatype Status = Created | Exists

  datatype ServiceError = DatabaseError | DateError

  /** Which statements of a call fail: existence checks, name queries, creations, drops, and the final flush. */
  datatype Faults = Faults(
    check: string -> bool, query: Table -> bool, create: string -> bool, drop: string -> bool, flush: bool)

  // ---- What the calls do ----

  /** The partition names of a month, table by table. */
  function MonthNames(m: nat): (names: seq<string>)
    ensures |names| == |TABLES|
    ensures forall i :: 0 <= i < |TABLES| ==> names[i] == PartitionName(TABLES[i], m)
  {
    seq(|TABLES|, i requires 0 <= i < |TABLES| => PartitionName(TABLES[i], m))
  }

  function Members(xs: seq<string>): set<string> {
    set x | x in xs
  }

  /** Whether creating the partitions goes through: no check fails, and every missing one can be created. */
  predicate Creatable(names: set<string>, wanted: seq<string>, f: Faults) {
    forall name | name in wanted :: !f.check(name) && (name in names || !f.create(name))
  }

  function Statuses(names: set<string>, wanted: seq<string>): seq<(string, Status)> {
    seq(|wanted|, i requires 0 <= i < |wanted| => (wanted[i], if wanted[i] in names then Exists else Created))
  }

  /** A name the clean-up of a table picks up: it matches the pattern and reads as a month before the cutoff. */
  predicate Expired(t: Table, name: string, cutoff: int) {
    LikePrefix(name, Prefix(t)) && PartitionMonth(name, Prefix(t)).Some? && PartitionMonth(name, Prefix(t)).value < cutoff
  }

  type Expiry = (Table, string) -> bool

  function ExpiredOf(t: Table, names: set<string>, expired: Expiry): set<string> {
    set name | name in names && expired(t, name)
  }

  /** The names that the clean-up of the given tables picks up. */
  function ExpiredOfAll(ts: seq<Table>, names: set<string>, expired: Expiry): set<string> {
    if ts == [] then {}
    else ExpiredOfAll(ts[..|ts| - 1], names, expired) + ExpiredOf(ts[|ts| - 1], names, expired)
  }

  predicate DropsCleanly(names: set<string>, f: Faults) {
    forall name | name in names :: !f.drop(name)
  }

  predicate Queryable(ts: seq<Table>, f: Faults) {
    forall t | t in ts :: !f.query(t)
  }

  /** No name expires in two tables. */
  ghost predicate Disjoint(expired: Expiry) {
    forall t, u, name :: expired(t, name) && expired(u, name) ==> t == u
  }

  function ExpiryAt(cutoff: int): Expiry {
    (t: Table, name: string) => Expired(t, name, cutoff)
  }

  // ---- The service ----

  class PartitionService {
    /** The names of the tables in the database. */
    var names: set<string>

    constructor (names: set<string>)
      ensures this.names == names
    {
      this.names := names;
    }

    /** One creation in its own savepoint. */
    method CreateInSavepoint(name: string, create: string -> bool) returns (ok: bool)
      modifies this
      ensures ok == !create(name)
      ensures names == if ok then old(names) + {name} else old(names)
    {
      var savepoint := names;
      names := names + {name};
      ok := !create(name);
      if !ok {
        names := savepoint;
      }
    }

    /** Goes through the wanted partitions; a failed check raises at once, failed creations are collected. */
    method CreateMissing(wanted: seq<string>, f: Faults) returns (ok: bool, actions: seq<(string, Status)>)
      requires forall i, j :: 0 <= i < j < |wanted| ==> wanted[i] != wanted[j]
      modifies this
      ensures ok <==> Creatable(old(names), wanted, f)
      ensures ok ==> names == old(names) + Members(wanted) && actions == Statuses(old(names), wanted)
    {
      actions := [];
      var failures := 0;
      for i := 0 to |wanted|
        invariant forall j :: i <= j < |wanted| ==> (wanted[j] in names <==> wanted[j] in old(names))
        invariant failures == 0 <==> Creatable(old(names), wanted[..i], f)
        invariant failures == 0 ==> names == old(names) + Members(wanted[..i]) && actions == Statuses(old(names), wanted[..i])
        invariant forall j :: 0 <= j < i ==> !f.check(wanted[j])
      {
        var name := wanted[i];
        assert wanted[..i + 1] == wanted[..i] + [name];
        if f.check(name) {
          assert name in wanted;
          return false, [];
        }
        if name in names {
          actions := actions + [(name, Exists)];
          continue;
        }
        var ok' := CreateInSavepoint(name, f.create);
        if !ok' {
          failures := failures + 1;
          continue;
        }
        actions := actions + [(name, Created)];
      }
      assert wanted[..|wanted|] == wanted;
      ok := failures == 0;
    }

    /**
     * Creates the month's partition of each table that lacks it, all inside one outer savepoint; one
     * failure anywhere rolls everything back.
     */
    method CreatePartition(date: Date, f: Faults) returns (r: Result<seq<(string, Status)>, ServiceError>)
      requires Valid(date)
      modifies this
      ensures (r, names) == CreatedMonth(old(names), date, f)
      ensures r.Err? ==> names == old(names)
    {
      if MonthWindow(date).None? {
        return Err(DateError);
      }
      MonthIndexOf(date);
      var wanted := MonthNames(MonthIndex(date));
      NamesDistinct(MonthIndex(date));
      var outer := names;
      var ok, actions := CreateMissing(wanted, f);
      if !ok || f.flush {
        names := outer;
        return Err(DatabaseError);
      }
      r := Ok(actions);
    }

    /** The table's partitions that are older than the cutoff. */
    method GetPartitionsToCleanup(t: Table, cutoff: int) returns (expired: set<string>)
      ensures expired == ExpiredOf(t, names, ExpiryAt(cutoff))
    {
      var candidates := set name | name in names && LikePrefix(name, Prefix(t));
      expired := {};
      var todo := candidates;
      while todo != {}
        invariant todo <= candidates
        invariant expired == set name | name in candidates - todo && Expired(t, name, cutoff)
      {
        var name :| name in todo;
        var month := PartitionMonth(name, Prefix(t));
        if month.Some? && month.value < cutoff {
          expired := expired + {name};
        }
        todo := todo - {name};
      }
    }

    /** Drops partitions one by one, each in its own savepoint; failures are collected. */
    method DropEach(expired: set<string>, drop: string -> bool) returns (dropped: set<string>, failures: set<string>)
      modifies this
      ensures failures == set name | name in expired && drop(name)
      ensures dropped == expired - failures && names == old(names) - dropped
    {
      dropped, failures := {}, {};
      var todo := expired;
      while todo != {}
        invariant todo <= expired
        invariant forall name :: name in failures <==> name in expired - todo && drop(name)
        invariant forall name :: name in dropped <==> name in expired - todo && !drop(name)
        invariant names == old(names) - dropped
      {
        var name :| name in todo;
        var savepoint := names;
        names := names - {name};
        if drop(name) {
          names := savepoint;
          failures := failures + {name};
        } else {
          dropped := dropped + {name};
        }
        todo := todo - {name};
      }
    }

    /** Table by table; a failed query raises at once. */
    method DropExpired(ts: seq<Table>, cutoff: int, f: Faults) returns (ok: bool, dropped: set<string>)
      requires Disjoint(ExpiryAt(cutoff)) && forall i, j :: 0 <= i < j < |ts| ==> ts[i] != ts[j]
      modifies this
      ensures ok <==> Queryable(ts, f) && DropsCleanly(ExpiredOfAll(ts, old(names), ExpiryAt(cutoff)), f)
      ensures ok ==> dropped == ExpiredOfAll(ts, old(names), ExpiryAt(cutoff)) && names == old(names) - dropped
    {
      var e := ExpiryAt(cutoff);
      dropped := {};
      var clean := true;
      for i := 0 to |ts|
        invariant Queryable(ts[..i], f)
        invariant clean <==> DropsCleanly(ExpiredOfAll(ts[..i], old(names), e), f)
        invariant dropped <= ExpiredOfAll(ts[..i], old(names), e) && names == old(names) - dropped
        invariant clean ==> dropped == ExpiredOfAll(ts[..i], old(names), e)
      {
        if f.query(ts[i]) {
          assert ts[i] in ts;
          return false, {};
        }
        StillThere(ts, i, old(names), dropped, e);
        var expired := GetPartitionsToCleanup(ts[i], cutoff);
        var gone, failures := DropEach(expired, f.drop);
        OneTableMore(ts, i, old(names), e, f);
        CleanSoFar(ExpiredOfAll(ts[..i], old(names), e), expired, failures, f);
        dropped := dropped + gone;
        clean := clean && failures == {};
      }
      assert ts[..|ts|] == ts;
      ok := clean;
    }

    /** Drops every partition older than the retention period; one failure anywhere rolls everything back. */
    method CleanupOldPartitions(today: Date, retentionMonths: nat, f: Faults) returns (r: Result<set<string>, ServiceError>)
      requires Valid(today)
      modifies this
      ensures (r, names) == CleanedUp(old(names), today, retentionMonths, f)
      ensures r.Err? ==> names == old(names)
    {
      var cutoff := CutoffMonth(today, retentionMonths);
      if cutoff.None? {
        return Err(DateError);
      }
      ExpiryDisjoint(cutoff.value);
      var outer := names;
      var ok, dropped := DropExpired(TABLES, cutoff.value, f);
      if !ok || f.flush {
        names := outer;
        return Err(DatabaseError);
      }
      r := Ok(dropped);
    }
  }

  /** The result of a creation and the tables it leaves. */
  function CreatedMonth(names: set<string>, date: Date, f: Faults): (Result<seq<(string, Status)>, ServiceError>, set<string>)
    requires Valid(date)
  {
    if MonthWindow(date).None? then (Err(DateError), names)
    else
      MonthIndexOf(date);
      var wanted := MonthNames(MonthIndex(date));
      if Creatable(names, wanted, f) && !f.flush
      then (Ok(Statuses(names, wanted)), names + Members(wanted))
      else (Err(DatabaseError), names)
  }

  /** The result of a clean-up and the tables it leaves. */
  function CleanedUp(names: set<string>, today: Date, n: nat, f: Faults): (Result<set<string>, ServiceError>, set<string>)
    requires Valid(today)
  {
    var cutoff := CutoffMonth(today, n);
    if cutoff.None? then (Err(DateError), names)
    else
      var gone := ExpiredOfAll(TABLES, names, ExpiryAt(cutoff.value));
      if Queryable(TABLES, f) && DropsCleanly(gone, f) && !f.flush then (Ok(gone), names - gone)
      else (Err(DatabaseError), names)
  }

  lemma NameOfOneTable(t: Table, u: Table, m: nat)
    requires t != u
    ensures PartitionName(t, m) != PartitionName(u, m)
  {
    PatternsDisjoint(t, t, m);
    PatternsDisjoint(u, t, m);
  }

  lemma NamesDistinct(m: nat)
    ensures forall i, j :: 0 <= i < j < |MonthNames(m)| ==> MonthNames(m)[i] != MonthNames(m)[j]
  {
    forall i, j | 0 <= i < j < |MonthNames(m)| ensures MonthNames(m)[i] != MonthNames(m)[j] {
      NameOfOneTable(TABLES[i], TABLES[j], m);
    }
  }

  /** No name matches the patterns of two tables. */
  lemma NoNameMatchesTwo(name: string, t: Table, u: Table)
    requires LikePrefix(name, Prefix(t)) && LikePrefix(name, Prefix(u))
    ensures t == u
  {
    TellingCharacters(t);
    TellingCharacters(u);
    assert name[0] == Prefix(t)[0] && name[0] == Prefix(u)[0];
    assert name[14] == Prefix(t)[14] && name[14] == Prefix(u)[14];
  }

  lemma ExpiryDisjoint(cutoff: int)
    ensures Disjoint(ExpiryAt(cutoff))
  {
    var e := ExpiryAt(cutoff);
    forall t, u, name | e(t, name) && e(u, name) ensures t == u {
      NoNameMatchesTwo(name, t, u);
    }
  }

  lemma {:induction false} ExpiredOfAllMeaning(ts: seq<Table>, names: set<string>, e: Expiry, name: string)
    ensures name in ExpiredOfAll(ts, names, e) <==> name in names && exists t :: t in ts && e(t, name)
  {
    if ts == [] {
    } else {
      ExpiredOfAllMeaning(ts[..|ts| - 1], names, e, name);
      assert ts == ts[..|ts| - 1] + [ts[|ts| - 1]];
    }
  }

  /** Dropping earlier tables' partitions takes none of a later table's. */
  lemma StillThere(ts: seq<Table>, i: nat, names: set<string>, dropped: set<string>, e: Expiry)
    requires i < |ts| && Disjoint(e) && forall i, j :: 0 <= i < j < |ts| ==> ts[i] != ts[j]
    requires dropped <= ExpiredOfAll(ts[..i], names, e)
    ensures ExpiredOf(ts[i], names - dropped, e) == ExpiredOf(ts[i], names, e)
  {
    forall name | name in ExpiredOf(ts[i], names, e) ensures name !in dropped {
      ExpiredOfAllMeaning(ts[..i], names, e, name);
    }
  }

  lemma OneTableMore(ts: seq<Table>, i: nat, names: set<string>, e: Expiry, f: Faults)
    requires i < |ts|
    ensures ExpiredOfAll(ts[..i + 1], names, e) == ExpiredOfAll(ts[..i], names, e) + ExpiredOf(ts[i], names, e)
    ensures Queryable(ts[..i + 1], f) <==> Queryable(ts[..i], f) && !f.query(ts[i])
  {
    assert ts[..i + 1] == ts[..i] + [ts[i]] && ts[..i + 1][..i] == ts[..i];
  }

  /** Drops go through for more names when they did before and none of the new ones fails. */
  lemma CleanSoFar(before: set<string>, expired: set<string>, failures: set<string>, f: Faults)
    requires failures == set name | name in expired && f.drop(name)
    ensures DropsCleanly(before + expired, f) <==> DropsCleanly(before, f) && failures == {}
  {
    if failures == {} {
      assert forall name :: name in expired ==> name !in failures;
    } else {
      var name :| name in failures;
      assert name in before + expired;
    }
  }

  // ---- What a history of calls keeps ----

  predicate Has(names: set<string>, t: Table, m: nat) {
    PartitionName(t, m) in names
  }

  /** The four tables have the same months of the calendar. */
  ghost predicate Lockstep(names: set<string>) {
    forall t, u, m: nat :: m < 12 * MAX_YEAR && Has(names, t, m) ==> Has(names, u, m)
  }

  lemma SamePrefix(p: string, a: string, b: string)
    ensures p + a == p + b ==> a == b
  {
    assert (p + a)[|p|..] == a && (p + b)[|p|..] == b;
  }

  lemma SameName(t: Table, u: Table, k: nat, m: nat)
    ensures PartitionName(t, k) == PartitionName(u, m) <==> t == u && DatePart(k) == DatePart(m)
  {
    PatternsDisjoint(t, t, k);
    PatternsDisjoint(u, t, m);
    if t == u {
      SamePrefix(Prefix(t), DatePart(k), DatePart(m));
    }
  }

  lemma AllTables(t: Table)
    ensures t in TABLES
  {
  }

  /** A month's partition of any table is wanted for the same months. */
  lemma WantedMonths(t: Table, k: nat, m: nat)
    ensures PartitionName(t, k) in Members(MonthNames(m)) <==> DatePart(k) == DatePart(m)
  {
    forall i | 0 <= i < |TABLES| ensures PartitionName(t, k) == MonthNames(m)[i] <==> t == TABLES[i] && DatePart(k) == DatePart(m) {
      SameName(t, TABLES[i], k, m);
    }
    AllTables(t);
  }

  /** A generated name expires in its own table exactly when its four-digit month is before the cutoff. */
  lemma ExpiredMonths(names: set<string>, t: Table, m: nat, cutoff: int)
    requires m < 12 * MAX_YEAR
    ensures PartitionName(t, m) in ExpiredOfAll(TABLES, names, ExpiryAt(cutoff)) <==>
      Has(names, t, m) && m / 12 + 1 >= 1000 && m < cutoff
  {
    ExpiredOfAllMeaning(TABLES, names, ExpiryAt(cutoff), PartitionName(t, m));
    NameRoundTrip(t, m);
    PatternsDisjoint(t, t, m);
    forall u | u != t ensures !Expired(u, PartitionName(t, m), cutoff) {
      PatternsDisjoint(t, u, m);
    }
    var e := ExpiryAt(cutoff);
    assert forall u :: e(u, PartitionName(t, m)) <==> Expired(u, PartitionName(t, m), cutoff);
    AllTables(t);
  }

  /**
   * A creation succeeds exactly when the month has a next one, no check and no flush fails, and each of the
   * four partitions exists or can be created; it then adds those four names and reports which are new.
   */
  lemma CreatedIff(names: set<string>, date: Date, f: Faults)
    requires Valid(date)
    ensures var m := MonthIndex(date);
      var (r, after) := CreatedMonth(names, date, f);
      && (r.Ok? <==>
          (date.year, date.month) != (9999, 12) && !f.flush &&
          forall t: Table :: !f.check(PartitionName(t, m)) && (PartitionName(t, m) in names || !f.create(PartitionName(t, m))))
      && (r.Ok? ==> after == names + set t: Table :: PartitionName(t, m))
      && (r.Ok? ==> |r.value| == 4 && forall i :: 0 <= i < 4 ==>
            r.value[i] == (PartitionName(TABLES[i], m), if PartitionName(TABLES[i], m) in names then Exists else Created))
      && (r == Err(DateError) <==> (date.year, date.month) == (9999, 12))
  {
    MonthIndexOf(date);
    var m := MonthIndex(date);
    WantedNames(m, MonthNames(m));
    assert Members(MonthNames(m)) == set t: Table :: PartitionName(t, m);
  }

  lemma WantedNames(m: nat, wanted: seq<string>)
    requires wanted == MonthNames(m)
    ensures forall t: Table :: PartitionName(t, m) in wanted
    ensures forall name :: name in wanted ==> exists t: Table :: name == PartitionName(t, m)
  {
    forall t: Table ensures PartitionName(t, m) in wanted {
      AllTables(t);
      var i :| 0 <= i < |TABLES| && TABLES[i] == t;
      assert wanted[i] == PartitionName(t, m);
    }
  }

  /** A name is gone after a clean-up when some table's pattern takes it and it reads as a month before the cutoff. */
  predicate Outdated(name: string, cutoff: int) {
    exists t: Table ::
      LikePrefix(name, Prefix(t)) && PartitionMonth(name, Prefix(t)).Some? && PartitionMonth(name, Prefix(t)).value < cutoff
  }

  /** A clean-up succeeds exactly when the cutoff exists and no query, no drop it needs and no flush fails; it then drops the outdated names. */
  lemma CleanedUpIff(names: set<string>, today: Date, n: nat, f: Faults)
    requires Valid(today)
    ensures var cutoff := CutoffMonth(today, n);
      var (r, after) := CleanedUp(names, today, n, f);
      && (r == Err(DateError) <==> cutoff.None?)
      && (r.Ok? <==>
          cutoff.Some? && !f.flush && (forall t: Table :: !f.query(t)) &&
          forall name :: name in names && Outdated(name, cutoff.value) ==> !f.drop(name))
      && (r.Ok? ==> after == set name | name in names && !Outdated(name, cutoff.value))
      && (r.Ok? ==> r.value == names - after)
  {
    var cutoff := CutoffMonth(today, n);
    if cutoff.Some? {
      var e := ExpiryAt(cutoff.value);
      var gone := ExpiredOfAll(TABLES, names, e);
      forall name ensures name in gone <==> name in names && Outdated(name, cutoff.value) {
        ExpiredOfAllMeaning(TABLES, names, e, name);
        OutdatedIff(name, cutoff.value);
      }
      assert names - gone == set name | name in names && !Outdated(name, cutoff.value);
      assert names - (names - gone) == gone;
      AllQueryable(f);
    }
  }

  lemma OutdatedIff(name: string, cutoff: int)
    ensures Outdated(name, cutoff) <==> exists t :: t in TABLES && ExpiryAt(cutoff)(t, name)
  {
    if t :| LikePrefix(name, Prefix(t)) && PartitionMonth(name, Prefix(t)).Some? && PartitionMonth(name, Prefix(t)).value < cutoff {
      AllTables(t);
      assert ExpiryAt(cutoff)(t, name);
    }
  }

  lemma AllQueryable(f: Faults)
    ensures Queryable(TABLES, f) <==> forall t: Table :: !f.query(t)
  {
    forall t: Table ensures t in TABLES {
      AllTables(t);
    }
  }

  /** Success means the month exists in all four tables, and doing it again succeeds and changes nothing. */
  lemma CreateGivesMonth(names: set<string>, date: Date, f: Faults, again: Faults)
    requires Valid(date) && CreatedMonth(names, date, f).0.Ok?
    ensures forall t :: Has(CreatedMonth(names, date, f).1, t, MonthIndex(date))
    ensures !again.flush && (forall name :: !again.check(name)) ==>
      var (r, twice) := CreatedMonth(CreatedMonth(names, date, f).1, date, again);
      && r.Ok? && twice == CreatedMonth(names, date, f).1
      && forall i :: 0 <= i < |r.value| ==> r.value[i].1 == Exists
  {
    MonthIndexOf(date);
    var m := MonthIndex(date);
    forall t ensures Has(CreatedMonth(names, date, f).1, t, m) {
      WantedMonths(t, m, m);
    }
    var wanted := MonthNames(m);
    assert forall name :: name in wanted ==> name in names + Members(wanted);
    assert names + Members(wanted) + Members(wanted) == names + Members(wanted);
  }

  datatype Op = Create(date: Date, faults: Faults) | Cleanup(today: Date, months: nat, faults: Faults)

  predicate ValidOp(op: Op) {
    match op
    case Create(date, _) => Valid(date)
    case Cleanup(today, _, _) => Valid(today)
  }

  function Apply(names: set<string>, op: Op): set<string>
    requires ValidOp(op)
  {
    match op
    case Create(date, f) => CreatedMonth(names, date, f).1
    case Cleanup(today, n, f) => CleanedUp(names, today, n, f).1
  }

  function Run(names: set<string>, ops: seq<Op>): set<string>
    requires forall op :: op in ops ==> ValidOp(op)
  {
    if ops == [] then names else Apply(Run(names, ops[..|ops| - 1]), ops[|ops| - 1])
  }

  lemma CreateKeepsLockstep(names: set<string>, date: Date, f: Faults)
    requires Valid(date) && Lockstep(names)
    ensures Lockstep(CreatedMonth(names, date, f).1)
  {
    if CreatedMonth(names, date, f).0.Ok? {
      MonthIndexOf(date);
      var after := CreatedMonth(names, date, f).1;
      forall t, u, k: nat | k < 12 * MAX_YEAR && Has(after, t, k) ensures Has(after, u, k) {
        WantedMonths(t, k, MonthIndex(date));
        WantedMonths(u, k, MonthIndex(date));
        assert Has(names, t, k) ==> Has(names, u, k);
      }
    }
  }

  lemma CleanupKeepsLockstep(names: set<string>, today: Date, n: nat, f: Faults)
    requires Valid(today) && Lockstep(names)
    ensures Lockstep(CleanedUp(names, today, n, f).1)
  {
    if CleanedUp(names, today, n, f).0.Ok? {
      var after := CleanedUp(names, today, n, f).1;
      forall t, u, k: nat | k < 12 * MAX_YEAR && Has(after, t, k) ensures Has(after, u, k) {
        ExpiredMonths(names, t, k, CutoffMonth(today, n).value);
        ExpiredMonths(names, u, k, CutoffMonth(today, n).value);
        assert Has(names, t, k) ==> Has(names, u, k);
      }
    }
  }

  lemma ApplyKeepsLockstep(names: set<string>, op: Op)
    requires Lockstep(names) && ValidOp(op)
    ensures Lockstep(Apply(names, op))
  {
    match op
    case Create(date, f) => CreateKeepsLockstep(names, date, f);
    case Cleanup(today, n, f) => CleanupKeepsLockstep(names, today, n, f);
  }

  /** Over any history of creations and clean-ups, failing or not, the four tables keep the same months. */
  lemma {:induction false} HistoryKeepsLockstep(names: set<string>, ops: seq<Op>)
    requires Lockstep(names) && forall op :: op in ops ==> ValidOp(op)
    ensures Lockstep(Run(names, ops))
  {
    if ops == [] {
    } else {
      HistoryKeepsLockstep(names, ops[..|ops| - 1]);
      ApplyKeepsLockstep(Run(names, ops[..|ops| - 1]), ops[|ops| - 1]);
    }
  }

  /**
   * What a successful clean-up keeps and drops: no month from n months ago on, this month and every later
   * one included, and every four-digit month more than one further month per started four years back.
   */
  lemma CleanupRetention(names: set<string>, today: Date, n: nat, f: Faults, t: Table, m: nat)
    requires Valid(today) && CleanedUp(names, today, n, f).0.Ok?
    requires m < 12 * MAX_YEAR && Has(names, t, m)
    ensures MonthIndex(today) - n <= m ==> Has(CleanedUp(names, today, n, f).1, t, m)
    ensures m < MonthIndex(today) - n - FourYearBlocks(n) && m / 12 + 1 >= 1000 ==> !Has(CleanedUp(names, today, n, f).1, t, m)
  {
    RetentionBounds(today, n);
    ExpiredMonths(names, t, m, CutoffMonth(today, n).value);
  }

  // ---- Status of a partition ----

  datatype PartitionStatus = Current | Past | Future | Unknown

  function GetPartitionStatus(month: Option<nat>, today: Date): PartitionStatus
    requires Valid(today)
  {
    match month
    case None => Unknown
    case Some(m) =>
      var first := FirstOf(m);
      var current := today.(day := 1);
      if first == current then Current else if DateLess(first, current) then Past else Future
  }

  /** A generated partition is current exactly when today falls in its window, past before it ends, future before it begins. */
  lemma StatusMeaning(t: Table, date: Date, today: Date)
    requires Valid(date) && Valid(today) && date.year >= 1000 && MonthWindow(date).Some?
    ensures var w := MonthWindow(date).value;
      var status := GetPartitionStatus(PartitionMonth(PartitionName(t, MonthIndex(date)), Prefix(t)), today);
      && (status == Current <==> InWindow(today, w))
      && (status == Past <==> !DateLess(today, w.1))
      && (status == Future <==> DateLess(today, w.0))
  {
    MonthIndexOf(date);
    NameRoundTrip(t, MonthIndex(date));
  }
}

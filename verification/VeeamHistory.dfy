/** The snapshot table over whole histories of replaces, upserts and clears of several bindings. */
module VeeamHistory {
  import opened Common
  import opened VeeamSelector
  import opened VeeamWriter
  import opened VeeamWriteProperties

  /** The table and the next primary key. */
  datatype Database = Database(table: Table, next: nat)

  datatype WriteError = IntegrityError

  ghost predicate Valid(db: Database) {
    UniqueConstraints(db.table) && forall r :: r in db.table ==> r < db.next
  }

  /** The table with one binding's rows replaced. */
  function Merge(t: Table, binding: int, rows: Table): Table {
    (t - Existing(t, binding).Keys) + rows
  }

  ghost function RowsFlushed(db: Database, binding: int, ws: seq<WriteRecord>, stamp: Stamp, deleteMissing: bool): Table
    requires Valid(db)
  {
    RowsAfter(Existing(db.table, binding), binding, db.next, ws, stamp, deleteMissing)
  }

  /** The table once the pass is flushed. */
  ghost function Flushed(db: Database, binding: int, ws: seq<WriteRecord>, stamp: Stamp, deleteMissing: bool): Table
    requires Valid(db)
  {
    Merge(db.table, binding, RowsFlushed(db, binding, ws, stamp, deleteMissing))
  }

  ghost function NextKey(db: Database, binding: int, ws: seq<WriteRecord>, stamp: Stamp): nat
    requires Valid(db)
  {
    After(Existing(db.table, binding), binding, db.next, ws, stamp).next
  }

  /** One write call: a flush that breaks a unique constraint fails and the transaction rolls back. */
  ghost function Write(db: Database, binding: int, ws: seq<WriteRecord>, stamp: Stamp, deleteMissing: bool)
    : (r: (Result<nat, WriteError>, Database))
    requires Valid(db)
  {
    var after := Flushed(db, binding, ws, stamp, deleteMissing);
    if UniqueConstraints(after)
    then (Ok(|ws|), Database(after, NextKey(db, binding, ws, stamp)))
    else (Err(IntegrityError), db)
  }

  lemma MergeExisting(t: Table, binding: int, rows: Table)
    requires OneBinding(rows, binding)
    requires forall r :: r in rows && r in t ==> t[r].binding == binding
    ensures Existing(Merge(t, binding, rows), binding) == rows
    ensures forall other :: other != binding ==> Existing(Merge(t, binding, rows), other) == Existing(t, other)
  {
  }

  /** The flushed table restricted to a binding: the pass's rows for its own, unchanged for any other. */
  lemma FlushedExisting(db: Database, binding: int, ws: seq<WriteRecord>, stamp: Stamp, deleteMissing: bool)
    requires Valid(db) && Selected(ws)
    ensures Existing(Flushed(db, binding, ws, stamp, deleteMissing), binding) == RowsFlushed(db, binding, ws, stamp, deleteMissing)
    ensures forall other :: other != binding ==>
      Existing(Flushed(db, binding, ws, stamp, deleteMissing), other) == Existing(db.table, other)
    ensures forall r :: r in Flushed(db, binding, ws, stamp, deleteMissing) ==>
      r < NextKey(db, binding, ws, stamp)
  {
    var existing := Existing(db.table, binding);
    var rows := RowsFlushed(db, binding, ws, stamp, deleteMissing);
    WriteKeepsKeysUnique(existing, binding, db.next, ws, stamp, deleteMissing);
    assert forall r :: r in rows ==> r in existing || db.next <= r by {
      PassFacts(existing, binding, db.next, ws, stamp);
    }
    assert forall r :: r in rows ==> r < After(existing, binding, db.next, ws, stamp).next by {
      PassFacts(existing, binding, db.next, ws, stamp);
    }
    assert db.next <= After(existing, binding, db.next, ws, stamp).next by {
      PassFacts(existing, binding, db.next, ws, stamp);
    }
    MergeExisting(db.table, binding, rows);
  }

  /** Putting rows with unique keys beside other bindings breaks a constraint only through empty names. */
  lemma MergeUnique(t: Table, binding: int, rows: Table)
    requires UniqueConstraints(t) && OneBinding(rows, binding) && UniqueKeys(rows)
    requires forall r :: r in rows && r in t ==> t[r].binding == binding
    ensures UniqueConstraints(Merge(t, binding, rows)) <==> AtMostOneEmptyName(rows)
  {
  }

  /** The only thing that can make the flush fail is the empty name, held by two live rows of the binding. */
  lemma FlushFailsOnNames(db: Database, binding: int, ws: seq<WriteRecord>, stamp: Stamp, deleteMissing: bool)
    requires Valid(db) && Selected(ws)
    ensures Write(db, binding, ws, stamp, deleteMissing).0.Ok? <==>
      AtMostOneEmptyName(RowsFlushed(db, binding, ws, stamp, deleteMissing))
  {
    var existing := Existing(db.table, binding);
    var rows := RowsFlushed(db, binding, ws, stamp, deleteMissing);
    WriteKeepsKeysUnique(existing, binding, db.next, ws, stamp, deleteMissing);
    assert forall r :: r in rows ==> r in existing || db.next <= r by {
      PassFacts(existing, binding, db.next, ws, stamp);
    }
    MergeUnique(db.table, binding, rows);
  }

  /**
   * A write commits exactly when at most one row of the binding will be left without a name: counting the
   * unnamed records that do not lose their row to a later one and, on upsert, the unnamed rows whose IP no
   * record has.
   */
  lemma WriteCommitsIff(db: Database, binding: int, ws: seq<WriteRecord>, stamp: Stamp, deleteMissing: bool)
    requires Valid(db) && Selected(ws)
    ensures Write(db, binding, ws, stamp, deleteMissing).0.Ok? <==>
      OneUnnamedAtMost(Existing(db.table, binding), ws, deleteMissing)
  {
    var existing := Existing(db.table, binding);
    FlushFailsOnNames(db, binding, ws, stamp, deleteMissing);
    if OneUnnamedAtMost(existing, ws, deleteMissing) {
      LeavesOneRow(existing, binding, db.next, ws, stamp, deleteMissing);
    }
    if AtMostOneEmptyName(RowsFlushed(db, binding, ws, stamp, deleteMissing)) {
      OneRowLeaves(existing, binding, db.next, ws, stamp, deleteMissing);
    }
  }

  /** A row without a name and another unnamed machine coming in: the upsert fails, the replace commits. */
  lemma SecondUnnamedFailsUpsert(db: Database, binding: int, ws: seq<WriteRecord>, stamp: Stamp, r: nat)
    requires Valid(db) && Selected(ws) && db.table.Keys == {r} && db.table[r].binding == binding
    requires db.table[r].name == "" && db.table[r].ip == Some("a")
    requires |ws| == 1 && ws[0].name == "" && ws[0].ip == Some("b")
    ensures Write(db, binding, ws, stamp, false) == (Err(IntegrityError), db)
    ensures Write(db, binding, ws, stamp, true).0.Ok?
  {
    var existing := Existing(db.table, binding);
    WriteCommitsIff(db, binding, ws, stamp, false);
    WriteCommitsIff(db, binding, ws, stamp, true);
    assert LeftUnnamed(existing, ws, r);
    assert StaysUnnamed(existing, ws, 0);
  }

  /**
   * After a committed write, a selected record whose row no later record claims is in the table: under the
   * binding, with its names, IP, backup time, source id and details, and the stamps of the run.
   */
  lemma StoredColumns(nz: Normalizer, db: Database, binding: int, records: seq<BackupRecord>, stamp: Stamp, deleteMissing: bool, j: nat)
    requires Valid(db) && j < |Select(nz, records)|
    requires Selected(Select(nz, records)) && Write(db, binding, Select(nz, records), stamp, deleteMissing).0.Ok?
    requires !LosesRow(Existing(db.table, binding), Select(nz, records), j)
    ensures var t := Write(db, binding, Select(nz, records), stamp, deleteMissing).1.table;
      var w := Select(nz, records)[j];
      && w.record in records
      && exists r ::
        && r in t && t[r].binding == binding
        && t[r].machineName == w.record.machineName && t[r].name == (nz.name)(w.record.machineName)
        && t[r].machineIp == w.ip && t[r].ip == w.ip
        && t[r].latestBackupAt == w.record.backupAt && t[r].sourceRecordId == w.record.sourceRecordId
        && t[r].details == w.record.details && t[r].syncRunId == stamp.runId && t[r].syncedAt == stamp.syncedAt
  {
    var ws := Select(nz, records);
    var existing := Existing(db.table, binding);
    var rows := RowsFlushed(db, binding, ws, stamp, deleteMissing);
    SelectedDescend(nz, records);
    RecordStoredIff(existing, binding, db.next, ws, stamp, deleteMissing, j);
    var r :| r in rows && Stores(rows[r], ws[j], binding, stamp);
    assert ws[j] in ws;
    PreparedKeys(nz, ws[j].record);
    assert r in Merge(db.table, binding, rows) && Merge(db.table, binding, rows)[r] == rows[r];
  }

  lemma WriteKeepsValid(db: Database, binding: int, ws: seq<WriteRecord>, stamp: Stamp, deleteMissing: bool)
    requires Valid(db) && Selected(ws)
    ensures Valid(Write(db, binding, ws, stamp, deleteMissing).1)
  {
    FlushedExisting(db, binding, ws, stamp, deleteMissing);
  }

  // ---- Convergence of replace ----

  ghost predicate AtMostOneUnnamed(ws: seq<WriteRecord>) {
    forall i, j :: 0 <= i < |ws| && 0 <= j < |ws| && ws[i].name == "" && ws[j].name == "" ==> i == j
  }

  /** The binding holds exactly one row per record, and nothing else. */
  ghost predicate OneRowPerRecord(db: Database, binding: int, ws: seq<WriteRecord>, stamp: Stamp) {
    OneRowEach(Existing(db.table, binding), ws, binding, stamp)
  }

  lemma ReplaceReflects(db: Database, binding: int, ws: seq<WriteRecord>, stamp: Stamp)
    requires Valid(db) && Selected(ws)
    ensures Reflects(RowsFlushed(db, binding, ws, stamp, true), ws, binding, stamp)
  {
    ReplaceCount(Existing(db.table, binding), binding, db.next, ws, stamp);
  }

  /** With at most one unnamed record every replace commits. */
  lemma NamedReplaceCommits(db: Database, binding: int, ws: seq<WriteRecord>, stamp: Stamp)
    requires Valid(db) && Selected(ws) && AtMostOneUnnamed(ws)
    ensures Write(db, binding, ws, stamp, true).0.Ok?
  {
    WriteCommitsIff(db, binding, ws, stamp, true);
  }

  /** A replace on top of a committed replace of the same records stores every one of them. */
  lemma SecondReplaceCovers(db: Database, binding: int, ws: seq<WriteRecord>, first: Stamp, second: Stamp)
    requires Valid(db) && Selected(ws)
    requires Write(db, binding, ws, first, true).0.Ok?
    ensures var once := Write(db, binding, ws, first, true).1;
            && Valid(once)
            && Covers(RowsFlushed(once, binding, ws, second, true), ws, binding, second)
            && |RowsFlushed(once, binding, ws, second, true)| == |ws|
  {
    var once := Write(db, binding, ws, first, true).1;
    WriteKeepsValid(db, binding, ws, first, true);
    FlushedExisting(db, binding, ws, first, true);
    ReplaceReflects(db, binding, ws, first);
    var t := Existing(once.table, binding);
    ReplaceSeparatesClaims(t, ws, binding, first);
    DisjointClaimsCover(t, binding, once.next, ws, second, true);
  }

  /** A committed replace that stored every record leaves one row per record. */
  lemma CoveringReplace(db: Database, binding: int, ws: seq<WriteRecord>, stamp: Stamp)
    requires Valid(db) && Selected(ws)
    requires Write(db, binding, ws, stamp, true).0.Ok?
    requires Covers(RowsFlushed(db, binding, ws, stamp, true), ws, binding, stamp)
    requires |RowsFlushed(db, binding, ws, stamp, true)| == |ws|
    ensures OneRowPerRecord(Write(db, binding, ws, stamp, true).1, binding, ws, stamp)
    ensures AtMostOneUnnamed(ws)
  {
    FlushedExisting(db, binding, ws, stamp, true);
    ReplaceReflects(db, binding, ws, stamp);
    FlushFailsOnNames(db, binding, ws, stamp, true);
    CoveredNames(RowsFlushed(db, binding, ws, stamp, true), binding, ws, stamp);
  }

  /** If every record has a row and only one row lacks a name, only one record does. */
  lemma CoveredNames(t: Table, binding: int, ws: seq<WriteRecord>, stamp: Stamp)
    requires Selected(ws) && Covers(t, ws, binding, stamp) && AtMostOneEmptyName(t)
    ensures AtMostOneUnnamed(ws)
  {
  }

  /**
   * Convergence, exactly: two replaces with the same records both commit, and then leave one row per
   * record, if and only if at most one selected record lacks a name.
   */
  lemma TwoReplacesConverge(db: Database, binding: int, ws: seq<WriteRecord>, first: Stamp, second: Stamp)
    requires Valid(db) && Selected(ws)
    ensures Valid(Write(db, binding, ws, first, true).1)
    ensures var (a, once) := Write(db, binding, ws, first, true);
            var (b, twice) := Write(once, binding, ws, second, true);
            && (a.Ok? && b.Ok? <==> AtMostOneUnnamed(ws))
            && (a.Ok? && b.Ok? ==> OneRowPerRecord(twice, binding, ws, second))
  {
    WriteKeepsValid(db, binding, ws, first, true);
    var once := Write(db, binding, ws, first, true).1;
    if AtMostOneUnnamed(ws) {
      NamedReplaceCommits(db, binding, ws, first);
      NamedReplaceCommits(once, binding, ws, second);
    }
    if Write(db, binding, ws, first, true).0.Ok? && Write(once, binding, ws, second, true).0.Ok? {
      SecondReplaceCovers(db, binding, ws, first, second);
      CoveringReplace(once, binding, ws, second);
    }
  }

  /** The table with the run stamps of one binding's rows renewed and nothing else changed. */
  function RestampedBinding(t: Table, binding: int, stamp: Stamp): Table {
    map r | r in t :: if t[r].binding != binding then t[r]
      else t[r].(syncRunId := stamp.runId, syncedAt := stamp.syncedAt)
  }

  lemma MergeRestamped(t: Table, binding: int, stamp: Stamp)
    ensures Merge(t, binding, Restamped(Existing(t, binding), stamp)) == RestampedBinding(t, binding, stamp)
  {
  }

  lemma SettledFlush(db: Database, binding: int, ws: seq<WriteRecord>, earlier: Stamp, stamp: Stamp)
    requires Valid(db) && Selected(ws)
    requires Reflects(Existing(db.table, binding), ws, binding, earlier)
    requires Covers(Existing(db.table, binding), ws, binding, earlier)
    ensures Flushed(db, binding, ws, stamp, true) == RestampedBinding(db.table, binding, stamp)
    ensures NextKey(db, binding, ws, stamp) == db.next
  {
    SettledReplace(Existing(db.table, binding), binding, db.next, ws, earlier, stamp);
    MergeRestamped(db.table, binding, stamp);
  }

  lemma ExistingFacts(db: Database, binding: int)
    requires Valid(db)
    ensures Before(Existing(db.table, binding), binding, db.next) && AtMostOneEmptyName(Existing(db.table, binding))
  {
  }

  /** A committed replace leaves the binding with the rows it flushed. */
  lemma CommittedRows(db: Database, binding: int, ws: seq<WriteRecord>, stamp: Stamp)
    requires Valid(db) && Selected(ws) && Write(db, binding, ws, stamp, true).0.Ok?
    ensures Write(db, binding, ws, stamp, true).0 == Ok(|ws|)
    ensures Existing(Write(db, binding, ws, stamp, true).1.table, binding) == RowsFlushed(db, binding, ws, stamp, true)
  {
    FlushedExisting(db, binding, ws, stamp, true);
  }

  lemma SettledReplaceCommits(db: Database, binding: int, ws: seq<WriteRecord>, earlier: Stamp, stamp: Stamp)
    requires Valid(db) && Selected(ws) && OneRowPerRecord(db, binding, ws, earlier)
    ensures Write(db, binding, ws, stamp, true).0 == Ok(|ws|)
    ensures OneRowPerRecord(Write(db, binding, ws, stamp, true).1, binding, ws, stamp)
  {
    ExistingFacts(db, binding);
    CoveredNames(Existing(db.table, binding), binding, ws, earlier);
    NamedReplaceCommits(db, binding, ws, stamp);
    SettledKeepsOneRowEach(Existing(db.table, binding), binding, db.next, ws, earlier, stamp);
    CommittedRows(db, binding, ws, stamp);
  }

  /** From there on a replace with the same records commits and changes nothing but the run stamps. */
  lemma FurtherReplaceOnlyRestamps(db: Database, binding: int, ws: seq<WriteRecord>, earlier: Stamp, stamp: Stamp)
    requires Valid(db) && Selected(ws) && OneRowPerRecord(db, binding, ws, earlier)
    ensures OneRowPerRecord(Write(db, binding, ws, stamp, true).1, binding, ws, stamp)
    ensures Write(db, binding, ws, stamp, true) ==
      (Ok(|ws|), Database(RestampedBinding(db.table, binding, stamp), db.next))
  {
    SettledReplaceCommits(db, binding, ws, earlier, stamp);
    SettledFlush(db, binding, ws, earlier, stamp);
  }

  // ---- Histories ----

  datatype Op =
    | Replace(binding: int, records: seq<BackupRecord>, stamp: Stamp)
    | Upsert(binding: int, records: seq<BackupRecord>, stamp: Stamp)
    | Clear(scope: Option<int>)

  /** Deletes the snapshots of one binding, or of all. */
  function ClearScope(t: Table, scope: Option<int>): Table {
    map r | r in t && scope.Some? && t[r].binding != scope.value :: t[r]
  }

  /** A clear removes exactly the rows of its binding, or all rows, and changes no other. */
  lemma Clears(t: Table, scope: Option<int>, r: nat)
    ensures r in ClearScope(t, scope) <==> r in t && scope.Some? && t[r].binding != scope.value
    ensures r in ClearScope(t, scope) ==> ClearScope(t, scope)[r] == t[r]
  {
  }

  lemma SelectSelected(nz: Normalizer, rs: seq<BackupRecord>)
    ensures Selected(Select(nz, rs))
  {
    GreedySelected(PrepareAll(nz, Ordering.Sort(NewerOrEqual, rs)));
  }

  ghost function Apply(nz: Normalizer, db: Database, op: Op): Database
    requires Valid(db)
  {
    match op
    case Replace(b, rs, stamp) => Write(db, b, Select(nz, rs), stamp, true).1
    case Upsert(b, rs, stamp) => Write(db, b, Select(nz, rs), stamp, false).1
    case Clear(scope) => Database(ClearScope(db.table, scope), db.next)
  }

  lemma ApplyKeepsValid(nz: Normalizer, db: Database, op: Op)
    requires Valid(db)
    ensures Valid(Apply(nz, db, op))
  {
    match op
    case Replace(b, rs, stamp) =>
      SelectSelected(nz, rs);
      WriteKeepsValid(db, b, Select(nz, rs), stamp, true);
    case Upsert(b, rs, stamp) =>
      SelectSelected(nz, rs);
      WriteKeepsValid(db, b, Select(nz, rs), stamp, false);
    case Clear(scope) =>
  }

  /** The database after a history of operations, run in order from any database that respects the constraints. */
  ghost function Run(nz: Normalizer, start: Database, history: seq<Op>): (db: Database)
    requires Valid(start)
    ensures Valid(db)
  {
    if history == [] then start
    else
      var before := Run(nz, start, history[..|history| - 1]);
      var op := history[|history| - 1];
      ApplyKeepsValid(nz, before, op);
      Apply(nz, before, op)
  }
}

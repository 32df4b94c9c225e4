/**
 * What one write pass does to the snapshot table: the selected records are merged, one after another,
 * into the rows of one source binding, found through two indexes taken before the first record.
 */
module VeeamWriter {
  import opened Common
  import opened VeeamSelector

  datatype Row = Row(
    binding: int, machineName: string, name: string, machineIp: Option<string>, ip: Option<string>,
    latestBackupAt: int, sourceRecordId: Option<string>, details: BackupDetails,
    syncRunId: string, syncedAt: int)

  /** The run stamps put on every row a pass writes. */
  datatype Stamp = Stamp(runId: string, syncedAt: int)

  /** Rows by primary key. */
  type Table = map<nat, Row>

  function Applied(w: WriteRecord, binding: int, stamp: Stamp): Row {
    Row(binding, w.record.machineName, w.name, w.machineIp, w.ip, w.record.backupAt,
        w.record.sourceRecordId, w.record.details, stamp.runId, stamp.syncedAt)
  }

  function Cleared(row: Row): Row {
    row.(machineIp := None, ip := None)
  }

  predicate SharesKey(a: Row, b: Row) {
    (a.name != "" && a.name == b.name) || (a.ip.Some? && a.ip == b.ip)
  }

  /** Within a binding, non-empty names and non-null IPs are pairwise distinct. */
  ghost predicate UniqueKeys(t: Table) {
    forall a, b :: a in t && b in t && a != b && t[a].binding == t[b].binding ==> !SharesKey(t[a], t[b])
  }

  /** The two unique constraints of the table: an empty name is a value like any other, a null IP is not. */
  predicate UniqueConstraints(t: Table) {
    forall a, b :: a in t && b in t && a != b && t[a].binding == t[b].binding ==>
      t[a].name != t[b].name && !(t[a].ip.Some? && t[a].ip == t[b].ip)
  }

  function Existing(t: Table, binding: int): Table {
    map r | r in t && t[r].binding == binding :: t[r]
  }

  /** The lookup dictionaries built before the loop and never refreshed. */
  datatype Index = Index(names: map<string, nat>, ips: map<string, nat>)

  ghost predicate OneBinding(t: Table, binding: int) {
    forall r :: r in t ==> t[r].binding == binding
  }

  ghost function IndexOf(existing: Table, binding: int): Index
    requires OneBinding(existing, binding) && UniqueKeys(existing)
  {
    Index(map r | r in existing && existing[r].name != "" :: existing[r].name := r,
          map r | r in existing && existing[r].ip.Some? :: existing[r].ip.value := r)
  }

  function NameRow(idx: Index, w: WriteRecord): Option<nat> {
    Get(idx.names, w.name)
  }

  function IpRow(idx: Index, w: WriteRecord): Option<nat> {
    if w.ip.Some? then Get(idx.ips, w.ip.value) else None
  }

  /** The row a record is written to: the one with its name, else the one with its IP, else a new one. */
  function TargetOf(idx: Index, w: WriteRecord): Option<nat> {
    if NameRow(idx, w).Some? then NameRow(idx, w) else IpRow(idx, w)
  }

  function TargetKey(idx: Index, w: WriteRecord, next: nat): nat {
    if TargetOf(idx, w).Some? then TargetOf(idx, w).value else next
  }

  /** The row a record removes: the one with its IP when its name belongs to a different row. */
  function DropOf(idx: Index, w: WriteRecord): Option<nat> {
    if NameRow(idx, w).Some? && IpRow(idx, w) != NameRow(idx, w) then IpRow(idx, w) else None
  }

  /**
   * The session during the pass: every loaded or new row, the rows pending deletion, and for each row
   * written so far the record it was last written from.
   */
  datatype Pass = Pass(rows: Table, doomed: set<nat>, owner: map<nat, nat>, next: nat)

  function DropRow(p: Pass, id: nat): Pass
    requires id in p.rows
  {
    p.(rows := p.rows[id := Cleared(p.rows[id])], doomed := p.doomed + {id})
  }

  function PutRow(p: Pass, id: nat, row: Row, k: nat, next: nat): Pass {
    Pass(p.rows[id := row], p.doomed - {id}, p.owner[id := k], next)
  }

  /** Finding a record's row clears and deletes the row it removes. */
  function DropStep(idx: Index, p: Pass, w: WriteRecord): Pass {
    var drop := DropOf(idx, w);
    if drop.Some? && drop.value in p.rows then DropRow(p, drop.value) else p
  }

  /** Writing record k to its target; adding a row that is pending deletion revives it. */
  function ApplyStep(idx: Index, p: Pass, k: nat, w: WriteRecord, binding: int, stamp: Stamp): Pass {
    PutRow(p, TargetKey(idx, w, p.next), Applied(w, binding, stamp), k,
           if TargetOf(idx, w).Some? then p.next else p.next + 1)
  }

  function Step(idx: Index, p: Pass, k: nat, w: WriteRecord, binding: int, stamp: Stamp): Pass {
    ApplyStep(idx, DropStep(idx, p, w), k, w, binding, stamp)
  }

  function RunPass(idx: Index, p: Pass, ws: seq<WriteRecord>, binding: int, stamp: Stamp): Pass {
    if ws == [] then p
    else
      var n := |ws| - 1;
      Step(idx, RunPass(idx, p, ws[..n], binding, stamp), n, ws[n], binding, stamp)
  }

  /** The binding's rows after the flush: deleted rows are gone, and on replace so are the untouched ones. */
  function Live(p: Pass, existing: set<nat>, deleteMissing: bool): Table {
    map r | r in p.rows && r !in p.doomed && (deleteMissing && r in existing ==> r in p.owner) :: p.rows[r]
  }

  function Start(existing: Table, next: nat): Pass {
    Pass(existing, {}, map[], next)
  }

  // ---- Where each record goes, and what may overtake it ----

  function FreshCount(idx: Index, ws: seq<WriteRecord>): nat {
    if ws == [] then 0
    else FreshCount(idx, ws[..|ws| - 1]) + if TargetOf(idx, ws[|ws| - 1]).None? then 1 else 0
  }

  /** The primary key of the row record j is written to. */
  function Home(idx: Index, ws: seq<WriteRecord>, next: nat, j: nat): nat
    requires j < |ws|
  {
    if TargetOf(idx, ws[j]).Some? then TargetOf(idx, ws[j]).value else next + FreshCount(idx, ws[..j])
  }

  predicate Hits(idx: Index, w: WriteRecord, r: nat) {
    TargetOf(idx, w) == Some(r) || DropOf(idx, w) == Some(r)
  }

  predicate HitBySome(idx: Index, ws: seq<WriteRecord>, r: nat) {
    exists j :: 0 <= j < |ws| && Hits(idx, ws[j], r)
  }

  /** A later record writes over, or deletes, the row record j is written to. */
  predicate Overtaken(idx: Index, ws: seq<WriteRecord>, j: nat)
    requires j < |ws|
  {
    TargetOf(idx, ws[j]).Some? &&
    exists k :: j < k < |ws| && Hits(idx, ws[k], TargetOf(idx, ws[j]).value)
  }

  ghost predicate IndexInto(idx: Index, existing: Table, next: nat) {
    && (forall r :: r in existing ==> r < next)
    && (forall n :: n in idx.names ==> idx.names[n] in existing)
    && (forall i :: i in idx.ips ==> idx.ips[i] in existing)
  }

  /** The shape of the session after the records ws. */
  ghost predicate Shape(idx: Index, existing: Table, next: nat, ws: seq<WriteRecord>, p: Pass) {
    && p.next == next + FreshCount(idx, ws)
    && existing.Keys <= p.rows.Keys
    && (forall r :: r in p.rows ==> r in existing || next <= r < p.next)
    && p.doomed <= existing.Keys
    && p.owner.Keys <= p.rows.Keys
    && (forall r :: r in p.rows && r !in existing ==> r in p.owner)
  }

  /** Each row written to holds the record that wrote it last, and no record wrote two rows. */
  ghost predicate Owned(idx: Index, next: nat, ws: seq<WriteRecord>, binding: int, stamp: Stamp, p: Pass) {
    && (forall r :: r in p.owner ==> p.owner[r] < |ws| && r == Home(idx, ws, next, p.owner[r]))
    && (forall r :: r in p.owner && r !in p.doomed && r in p.rows ==>
          p.rows[r] == Applied(ws[p.owner[r]], binding, stamp))
  }

  /** A row no record hits keeps its values. */
  ghost predicate Untouched(idx: Index, existing: Table, ws: seq<WriteRecord>, p: Pass) {
    forall r :: r in existing ==>
      if HitBySome(idx, ws, r)
      then r in p.owner || r in p.doomed
      else r !in p.owner && r !in p.doomed && r in p.rows && p.rows[r] == existing[r]
  }

  /** Record j is the last to have written its row, which is not deleted. */
  ghost predicate Keeps(idx: Index, next: nat, ws: seq<WriteRecord>, p: Pass, j: nat)
    requires j < |ws|
  {
    var h := Home(idx, ws, next, j);
    h in p.owner && p.owner[h] == j && h !in p.doomed
  }

  /** A record's row is live and still its own exactly when no later record overtook it. */
  ghost predicate Fates(idx: Index, next: nat, ws: seq<WriteRecord>, p: Pass) {
    forall j :: 0 <= j < |ws| ==> (Keeps(idx, next, ws, p, j) <==> !Overtaken(idx, ws, j))
  }

  lemma HomePrefix(idx: Index, ws: seq<WriteRecord>, next: nat, j: nat)
    requires j + 1 < |ws|
    ensures Home(idx, ws[..|ws| - 1], next, j) == Home(idx, ws, next, j)
  {
    assert ws[..|ws| - 1][..j] == ws[..j];
  }

  lemma OvertakenPrefix(idx: Index, ws: seq<WriteRecord>, j: nat)
    requires j + 1 < |ws|
    ensures Overtaken(idx, ws, j) <==>
      Overtaken(idx, ws[..|ws| - 1], j) ||
      (TargetOf(idx, ws[j]).Some? && Hits(idx, ws[|ws| - 1], TargetOf(idx, ws[j]).value))
  {
  }

  lemma {:induction false} FreshMonotone(idx: Index, ws: seq<WriteRecord>, j: nat)
    requires j < |ws|
    ensures FreshCount(idx, ws[..j]) + (if TargetOf(idx, ws[j]).None? then 1 else 0) <= FreshCount(idx, ws)
    decreases |ws|
  {
    var n := |ws| - 1;
    if j < n {
      FreshMonotone(idx, ws[..n], j);
      assert ws[..n][..j] == ws[..j];
    }
  }

  lemma {:induction false} PassShape(idx: Index, existing: Table, next: nat, ws: seq<WriteRecord>, binding: int, stamp: Stamp)
    requires IndexInto(idx, existing, next)
    ensures Shape(idx, existing, next, ws, RunPass(idx, Start(existing, next), ws, binding, stamp))
  {
    if ws == [] {
    } else {
      PassShape(idx, existing, next, ws[..|ws| - 1], binding, stamp);
    }
  }

  /** From p to q record k was written to row h; of the other rows, those not deleted stay as they were. */
  ghost predicate WritesOne(p: Pass, q: Pass, h: nat, k: nat, row: Row) {
    && q.owner == p.owner[h := k] && h in q.rows && q.rows[h] == row
    && forall r | r in q.rows && r != h && r !in q.doomed :: r in p.rows && r !in p.doomed && q.rows[r] == p.rows[r]
  }

  lemma StepWritesOne(idx: Index, p: Pass, k: nat, w: WriteRecord, binding: int, stamp: Stamp)
    ensures WritesOne(p, Step(idx, p, k, w, binding, stamp), TargetKey(idx, w, p.next), k, Applied(w, binding, stamp))
  {
  }

  lemma OwnedStep(idx: Index, next: nat, ws: seq<WriteRecord>, binding: int, stamp: Stamp, before: Pass, after: Pass)
    requires ws != [] && Owned(idx, next, ws[..|ws| - 1], binding, stamp, before)
    requires WritesOne(before, after, Home(idx, ws, next, |ws| - 1), |ws| - 1, Applied(ws[|ws| - 1], binding, stamp))
    ensures Owned(idx, next, ws, binding, stamp, after)
  {
    forall r | r in before.owner ensures r == Home(idx, ws, next, before.owner[r]) {
      HomePrefix(idx, ws, next, before.owner[r]);
    }
  }

  lemma {:induction false} PassOwned(idx: Index, existing: Table, next: nat, ws: seq<WriteRecord>, binding: int, stamp: Stamp)
    requires IndexInto(idx, existing, next)
    ensures Owned(idx, next, ws, binding, stamp, RunPass(idx, Start(existing, next), ws, binding, stamp))
  {
    if ws == [] {
    } else {
      var n := |ws| - 1;
      PassOwned(idx, existing, next, ws[..n], binding, stamp);
      PassShape(idx, existing, next, ws[..n], binding, stamp);
      var before := RunPass(idx, Start(existing, next), ws[..n], binding, stamp);
      StepWritesOne(idx, before, n, ws[n], binding, stamp);
      assert TargetKey(idx, ws[n], before.next) == Home(idx, ws, next, n);
      OwnedStep(idx, next, ws, binding, stamp, before, RunPass(idx, Start(existing, next), ws, binding, stamp));
    }
  }

  lemma HitPrefix(idx: Index, ws: seq<WriteRecord>, r: nat)
    requires ws != []
    ensures HitBySome(idx, ws, r) <==> HitBySome(idx, ws[..|ws| - 1], r) || Hits(idx, ws[|ws| - 1], r)
  {
  }

  /** From p to q record k took its target and deleted what it removes, unless that was its target. */
  ghost predicate Moves(idx: Index, p: Pass, q: Pass, k: nat, w: WriteRecord) {
    var h := TargetKey(idx, w, p.next);
    && q.owner == p.owner[h := k]
    && forall r :: r in q.doomed <==> r != h && (r in p.doomed || (DropOf(idx, w) == Some(r) && r in p.rows))
  }

  lemma StepMoves(idx: Index, p: Pass, k: nat, w: WriteRecord, binding: int, stamp: Stamp)
    ensures Moves(idx, p, Step(idx, p, k, w, binding, stamp), k, w)
  {
  }

  lemma UntouchedStep(idx: Index, existing: Table, ws: seq<WriteRecord>, before: Pass, after: Pass, row: Row)
    requires ws != [] && before.next !in existing && existing.Keys <= before.rows.Keys
    requires Untouched(idx, existing, ws[..|ws| - 1], before) && Moves(idx, before, after, |ws| - 1, ws[|ws| - 1])
    requires WritesOne(before, after, TargetKey(idx, ws[|ws| - 1], before.next), |ws| - 1, row)
    requires existing.Keys <= after.rows.Keys
    ensures Untouched(idx, existing, ws, after)
  {
    forall r | r in existing
      ensures HitBySome(idx, ws, r) <==> HitBySome(idx, ws[..|ws| - 1], r) || Hits(idx, ws[|ws| - 1], r)
    {
      HitPrefix(idx, ws, r);
    }
  }

  lemma {:induction false} PassUntouched(idx: Index, existing: Table, next: nat, ws: seq<WriteRecord>, binding: int, stamp: Stamp)
    requires IndexInto(idx, existing, next)
    ensures Untouched(idx, existing, ws, RunPass(idx, Start(existing, next), ws, binding, stamp))
  {
    if ws == [] {
    } else {
      var n := |ws| - 1;
      var before := RunPass(idx, Start(existing, next), ws[..n], binding, stamp);
      var after := RunPass(idx, Start(existing, next), ws, binding, stamp);
      PassUntouched(idx, existing, next, ws[..n], binding, stamp);
      PassShape(idx, existing, next, ws[..n], binding, stamp);
      PassShape(idx, existing, next, ws, binding, stamp);
      StepMoves(idx, before, n, ws[n], binding, stamp);
      StepWritesOne(idx, before, n, ws[n], binding, stamp);
      UntouchedStep(idx, existing, ws, before, after, Applied(ws[n], binding, stamp));
    }
  }

  lemma FateStep(idx: Index, existing: Table, next: nat, ws: seq<WriteRecord>, before: Pass, after: Pass, j: nat)
    requires IndexInto(idx, existing, next) && j + 1 < |ws| && Shape(idx, existing, next, ws[..|ws| - 1], before)
    requires Moves(idx, before, after, |ws| - 1, ws[|ws| - 1])
    requires Keeps(idx, next, ws[..|ws| - 1], before, j) <==> !Overtaken(idx, ws[..|ws| - 1], j)
    ensures Keeps(idx, next, ws, after, j) <==> !Overtaken(idx, ws, j)
  {
    var n := |ws| - 1;
    HomePrefix(idx, ws, next, j);
    OvertakenPrefix(idx, ws, j);
    FreshMonotone(idx, ws[..n], j);
    assert ws[..n][..j] == ws[..j];
  }

  lemma LastFate(idx: Index, existing: Table, next: nat, ws: seq<WriteRecord>, before: Pass, after: Pass)
    requires ws != [] && Shape(idx, existing, next, ws[..|ws| - 1], before)
    requires Moves(idx, before, after, |ws| - 1, ws[|ws| - 1])
    ensures Keeps(idx, next, ws, after, |ws| - 1) && !Overtaken(idx, ws, |ws| - 1)
  {
  }

  lemma {:induction false} PassFates(idx: Index, existing: Table, next: nat, ws: seq<WriteRecord>, binding: int, stamp: Stamp)
    requires IndexInto(idx, existing, next)
    ensures Fates(idx, next, ws, RunPass(idx, Start(existing, next), ws, binding, stamp))
  {
    if ws == [] {
    } else {
      var n := |ws| - 1;
      var before := RunPass(idx, Start(existing, next), ws[..n], binding, stamp);
      var after := RunPass(idx, Start(existing, next), ws, binding, stamp);
      PassFates(idx, existing, next, ws[..n], binding, stamp);
      PassShape(idx, existing, next, ws[..n], binding, stamp);
      StepMoves(idx, before, n, ws[n], binding, stamp);
      FatesStep(idx, existing, next, ws, before, after);
    }
  }

  lemma FatesStep(idx: Index, existing: Table, next: nat, ws: seq<WriteRecord>, before: Pass, after: Pass)
    requires IndexInto(idx, existing, next) && ws != [] && Shape(idx, existing, next, ws[..|ws| - 1], before)
    requires Moves(idx, before, after, |ws| - 1, ws[|ws| - 1]) && Fates(idx, next, ws[..|ws| - 1], before)
    ensures Fates(idx, next, ws, after)
  {
    LastFate(idx, existing, next, ws, before, after);
    forall j: nat | j + 1 < |ws| ensures Keeps(idx, next, ws, after, j) <==> !Overtaken(idx, ws, j) {
      FateStep(idx, existing, next, ws, before, after, j);
    }
  }
}

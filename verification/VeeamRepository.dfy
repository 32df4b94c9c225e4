/**
 * The write pass as the repository runs it: row objects loaded into a session, dictionaries that alias
 * them, fields assigned in place, rows marked for deletion and revived, and one flush at the end.
 */
module VeeamRepository {
  import opened Common
  import opened VeeamSelector
  import opened VeeamWriter
  import opened VeeamWriteProperties
  import opened VeeamHistory

  /** A mapped row object: identity is its primary key, every column is assigned in place. */
  class SnapshotRow {
    const id: nat
    var binding: int
    var machineName: string
    var name: string
    var machineIp: Option<string>
    var ip: Option<string>
    var latestBackupAt: int
    var sourceRecordId: Option<string>
    var details: BackupDetails
    var syncRunId: string
    var syncedAt: int

    /** A new row; its columns are assigned before it is added to the session. */
    constructor (id: nat)
      ensures this.id == id
    {
      this.id := id;
      binding, machineName, name, machineIp, ip := 0, "", "", None, None;
      latestBackupAt, sourceRecordId, syncRunId, syncedAt := 0, None, "", 0;
      details := BackupDetails(None, None, None, None, None, None, None, "");
    }

    /** A row as the query returns it. */
    constructor Load(id: nat, row: Row)
      ensures this.id == id && Columns() == row
    {
      this.id := id;
      binding, machineName, name, machineIp, ip := row.binding, row.machineName, row.name, row.machineIp, row.ip;
      latestBackupAt, sourceRecordId, details := row.latestBackupAt, row.sourceRecordId, row.details;
      syncRunId, syncedAt := row.syncRunId, row.syncedAt;
    }

    function Columns(): Row
      reads this
    {
      Row(binding, machineName, name, machineIp, ip, latestBackupAt, sourceRecordId, details, syncRunId, syncedAt)
    }

    method ApplyWriteRecord(w: WriteRecord, bindingId: int, stamp: Stamp)
      modifies this
      ensures Columns() == Applied(w, bindingId, stamp)
      ensures binding == bindingId && machineName == w.record.machineName && name == w.name
      ensures machineIp == w.machineIp && ip == w.ip && latestBackupAt == w.record.backupAt
      ensures sourceRecordId == w.record.sourceRecordId && details == w.record.details
      ensures syncRunId == stamp.runId && syncedAt == stamp.syncedAt
    {
      binding := bindingId;
      machineName := w.record.machineName;
      name := w.name;
      machineIp := w.machineIp;
      ip := w.ip;
      latestBackupAt := w.record.backupAt;
      details := w.record.details;
      sourceRecordId := w.record.sourceRecordId;
      syncRunId := stamp.runId;
      syncedAt := stamp.syncedAt;
    }
  }

  /** The ORM session during one call: its identity map and the keys of the objects pending deletion. */
  class Session {
    var identity: map<nat, SnapshotRow>
    var deleted: set<nat>
    ghost var objects: set<SnapshotRow>

    constructor ()
      ensures identity == map[] && deleted == {} && objects == {}
    {
      identity, deleted, objects := map[], {}, {};
    }

    /** The session is in the state that p describes. */
    ghost predicate Mirrors(p: Pass)
      reads this, objects
    {
      && identity.Keys == p.rows.Keys && deleted == p.doomed
      && (forall k :: k in identity ==> identity[k] in objects && identity[k].id == k)
      && (forall k :: k in identity ==> identity[k].Columns() == p.rows[k])
    }

    method Delete(row: SnapshotRow)
      modifies this`deleted
      ensures deleted == old(deleted) + {row.id}
    {
      deleted := deleted + {row.id};
    }

    /** Adding registers the object and cancels a pending deletion. */
    method Add(row: SnapshotRow)
      modifies this
      ensures identity == old(identity)[row.id := row] && deleted == old(deleted) - {row.id}
      ensures objects == old(objects) + {row}
    {
      identity := identity[row.id := row];
      objects := objects + {row};
      deleted := deleted - {row.id};
    }
  }

  /** The dictionaries hold the very objects that were loaded, under the keys they had then. */
  ghost predicate Aliases(loaded: map<nat, SnapshotRow>, names: map<string, SnapshotRow>, ips: map<string, SnapshotRow>, idx: Index) {
    NamesAlias(loaded, names, idx) && IpsAlias(loaded, ips, idx)
  }

  ghost predicate NamesAlias(loaded: map<nat, SnapshotRow>, names: map<string, SnapshotRow>, idx: Index) {
    names.Keys == idx.names.Keys &&
    forall n :: n in names ==> idx.names[n] in loaded && names[n] == loaded[idx.names[n]]
  }

  ghost predicate IpsAlias(loaded: map<nat, SnapshotRow>, ips: map<string, SnapshotRow>, idx: Index) {
    ips.Keys == idx.ips.Keys &&
    forall i :: i in ips ==> idx.ips[i] in loaded && ips[i] == loaded[idx.ips[i]]
  }

  /** Objects once in the session stay the session's objects. */
  ghost predicate Extends(identity: map<nat, SnapshotRow>, loaded: map<nat, SnapshotRow>) {
    forall k :: k in loaded ==> k in identity && identity[k] == loaded[k]
  }

  lemma ExtendsUpdate(identity: map<nat, SnapshotRow>, loaded: map<nat, SnapshotRow>, row: SnapshotRow)
    requires Extends(identity, loaded)
    requires row.id in identity ==> identity[row.id] == row
    ensures Extends(identity[row.id := row], loaded)
  {
  }

  /** A step is the drop followed by the write to the target, which joins the rows written so far. */
  lemma StepParts(idx: Index, p: Pass, k: nat, w: WriteRecord, binding: int, stamp: Stamp, next: nat)
    requires next == if TargetOf(idx, w).Some? then p.next else p.next + 1
    ensures var q := Step(idx, p, k, w, binding, stamp);
      && q == PutRow(DropStep(idx, p, w), TargetKey(idx, w, p.next), Applied(w, binding, stamp), k, next)
      && q.owner.Keys == p.owner.Keys + {TargetKey(idx, w, p.next)} && q.next == next
  {
  }

  /** The dictionaries as the rows define them, without the map comprehensions. */
  ghost predicate Indexes(idx: Index, existing: Table) {
    && (forall n :: n in idx.names ==> n != "" && idx.names[n] in existing && existing[idx.names[n]].name == n)
    && (forall i :: i in idx.ips ==> idx.ips[i] in existing && existing[idx.ips[i]].ip == Some(i))
    && (forall k :: k in existing && existing[k].name != "" ==>
          existing[k].name in idx.names && idx.names[existing[k].name] == k)
    && (forall k :: k in existing && existing[k].ip.Some? ==>
          existing[k].ip.value in idx.ips && idx.ips[existing[k].ip.value] == k)
  }

  lemma IndexOfIndexes(existing: Table, binding: int)
    requires OneBinding(existing, binding) && UniqueKeys(existing)
    ensures Indexes(IndexOf(existing, binding), existing)
  {
  }

  /** One more record makes one more step, and a new row's key is not taken. */
  lemma PassExtend(idx: Index, existing: Table, next: nat, ws: seq<WriteRecord>, i: nat, binding: int, stamp: Stamp)
    requires IndexInto(idx, existing, next) && i < |ws|
    ensures RunPass(idx, Start(existing, next), ws[..i + 1], binding, stamp) ==
            Step(idx, RunPass(idx, Start(existing, next), ws[..i], binding, stamp), i, ws[i], binding, stamp)
    ensures RunPass(idx, Start(existing, next), ws[..i], binding, stamp).next !in
            RunPass(idx, Start(existing, next), ws[..i], binding, stamp).rows
  {
    assert ws[..i + 1][..i] == ws[..i];
    PassShape(idx, existing, next, ws[..i], binding, stamp);
  }

  method FindSnapshotRow(s: Session, w: WriteRecord, names: map<string, SnapshotRow>, ips: map<string, SnapshotRow>,
                         ghost idx: Index, ghost p: Pass, ghost loaded: map<nat, SnapshotRow>)
    returns (row: SnapshotRow?)
    requires s.Mirrors(p) && Aliases(loaded, names, ips, idx) && Extends(s.identity, loaded)
    modifies s, s.objects
    ensures s.identity == old(s.identity) && s.objects == old(s.objects)
    ensures s.Mirrors(DropStep(idx, p, w))
    ensures TargetOf(idx, w).Some? ==> TargetOf(idx, w).value in s.identity && row == s.identity[TargetOf(idx, w).value]
    ensures TargetOf(idx, w).None? ==> row == null
  {
    var nameRow: SnapshotRow? := if w.name in names then names[w.name] else null;
    var ipRow: SnapshotRow? := if w.ip.Some? && w.ip.value in ips then ips[w.ip.value] else null;
    assert nameRow != null ==> NameRow(idx, w) == Some(nameRow.id);
    assert ipRow != null ==> IpRow(idx, w) == Some(ipRow.id);
    assert nameRow == null ==> NameRow(idx, w).None?;
    assert ipRow == null ==> IpRow(idx, w).None?;
    if nameRow != null && ipRow != null && nameRow != ipRow {
      assert DropOf(idx, w) == Some(ipRow.id);
      DeleteRow(s, ipRow, p);
      return nameRow;
    }
    assert DropOf(idx, w).None?;
    if nameRow != null {
      return nameRow;
    }
    return ipRow;
  }

  /** Clears the row's IP, so that it cannot collide, and marks the row for deletion. */
  method DeleteRow(s: Session, row: SnapshotRow, ghost p: Pass)
    requires s.Mirrors(p) && row.id in s.identity && s.identity[row.id] == row
    modifies s, row
    ensures s.identity == old(s.identity) && s.objects == old(s.objects)
    ensures s.Mirrors(DropRow(p, row.id))
  {
    assert forall k :: k in s.identity && k != row.id ==> s.identity[k] != row;
    row.machineIp, row.ip := None, None;
    s.Delete(row);
  }

  /** The snapshot table behind the repository. */
  class SnapshotStore {
    const nz: Normalizer
    var table: Table
    var next: nat

    constructor (nz: Normalizer)
      ensures Valid() && Db() == Database(map[], 0) && this.nz == nz
    {
      this.nz := nz;
      table, next := map[], 0;
    }

    function Db(): Database
      reads this
    {
      Database(table, next)
    }

    ghost predicate Valid()
      reads this
    {
      VeeamHistory.Valid(Db())
    }

    /** Loads one binding's rows as session objects. */
    method LoadExisting(bindingId: int) returns (s: Session)
      ensures fresh(s) && fresh(s.objects)
      ensures s.Mirrors(Start(Existing(table, bindingId), next))
    {
      s := new Session();
      var todo := set r | r in table && table[r].binding == bindingId;
      ghost var all := todo;
      while todo != {}
        invariant todo <= all
        invariant s.identity.Keys == all - todo && fresh(s.objects) && s.deleted == {}
        invariant forall k :: k in s.identity ==>
          k in table && s.identity[k] in s.objects && s.identity[k].id == k && s.identity[k].Columns() == table[k]
      {
        var r :| r in todo;
        var row := new SnapshotRow.Load(r, table[r]);
        s.Add(row);
        todo := todo - {r};
      }
    }

    /** The lookup dictionary by name, filled from the loaded rows in any order. */
    static method BuildNameIndex(s: Session, ghost existing: Table, ghost next: nat, ghost idx: Index)
      returns (names: map<string, SnapshotRow>)
      requires s.Mirrors(Start(existing, next)) && Indexes(idx, existing)
      ensures NamesAlias(s.identity, names, idx)
    {
      names := map[];
      var todo := s.identity.Keys;
      while todo != {}
        invariant todo <= s.identity.Keys
        invariant names.Keys <= idx.names.Keys
        invariant forall n :: n in names ==> names[n] == s.identity[idx.names[n]]
        invariant forall k :: k in existing && k !in todo && existing[k].name != "" ==> existing[k].name in names
      {
        var k :| k in todo;
        var row := s.identity[k];
        assert row.Columns() == existing[k];
        if row.name != "" {
          names := names[row.name := row];
        }
        todo := todo - {k};
      }
      assert forall n :: n in idx.names ==> existing[idx.names[n]].name in names;
    }

    /** The lookup dictionary by IP. */
    static method BuildIpIndex(s: Session, ghost existing: Table, ghost next: nat, ghost idx: Index)
      returns (ips: map<string, SnapshotRow>)
      requires s.Mirrors(Start(existing, next)) && Indexes(idx, existing)
      ensures IpsAlias(s.identity, ips, idx)
    {
      ips := map[];
      var todo := s.identity.Keys;
      while todo != {}
        invariant todo <= s.identity.Keys
        invariant ips.Keys <= idx.ips.Keys
        invariant forall i :: i in ips ==> ips[i] == s.identity[idx.ips[i]]
        invariant forall k :: k in existing && k !in todo && existing[k].ip.Some? ==> existing[k].ip.value in ips
      {
        var k :| k in todo;
        var row := s.identity[k];
        assert row.Columns() == existing[k];
        if row.ip.Some? {
          ips := ips[row.ip.value := row];
        }
        todo := todo - {k};
      }
      assert forall i :: i in idx.ips ==> existing[idx.ips[i]].ip.value in ips;
    }

    /** The loop over the selected records; the rows written so far are remembered in kept. */
    static method WriteRecords(s: Session, selected: seq<WriteRecord>, bindingId: int, stamp: Stamp, next: nat,
                               names: map<string, SnapshotRow>, ips: map<string, SnapshotRow>,
                               ghost existing: Table, ghost idx: Index, ghost loaded: map<nat, SnapshotRow>)
      returns (kept: set<nat>, nextKey: nat)
      requires s.Mirrors(Start(existing, next)) && IndexInto(idx, existing, next)
      requires Aliases(loaded, names, ips, idx) && Extends(s.identity, loaded)
      modifies s, s.objects
      ensures var p := RunPass(idx, Start(existing, next), selected, bindingId, stamp);
              && s.Mirrors(p) && nextKey == p.next && kept == p.owner.Keys
    {
      ghost var p := Start(existing, next);
      kept := {};
      nextKey := next;
      for i := 0 to |selected|
        invariant fresh(s.objects - old(s.objects))
        invariant p == RunPass(idx, Start(existing, next), selected[..i], bindingId, stamp)
        invariant s.Mirrors(p) && nextKey == p.next && kept == p.owner.Keys
        invariant Extends(s.identity, loaded)
      {
        PassExtend(idx, existing, next, selected, i, bindingId, stamp);
        kept, nextKey := WriteRecord(s, selected[i], i, bindingId, stamp, names, ips, kept, nextKey, idx, p, loaded);
        p := Step(idx, p, i, selected[i], bindingId, stamp);
      }
      assert selected[..|selected|] == selected;
    }

    /** The row a record is written to: the one found in the dictionaries, or a new object. */
    static method FindOrCreate(s: Session, w: WriteRecord, names: map<string, SnapshotRow>, ips: map<string, SnapshotRow>,
                               nextKey: nat, ghost idx: Index, ghost p: Pass, ghost loaded: map<nat, SnapshotRow>)
      returns (row: SnapshotRow, nextNow: nat)
      requires s.Mirrors(p) && nextKey == p.next && nextKey !in s.identity
      requires Aliases(loaded, names, ips, idx) && Extends(s.identity, loaded)
      modifies s, s.objects
      ensures s.identity == old(s.identity) && s.objects == old(s.objects)
      ensures s.Mirrors(DropStep(idx, p, w))
      ensures row.id == TargetKey(idx, w, p.next)
      ensures if row.id in s.identity then row in s.objects && s.identity[row.id] == row else fresh(row)
      ensures nextNow == if TargetOf(idx, w).Some? then nextKey else nextKey + 1
    {
      var existing := FindSnapshotRow(s, w, names, ips, idx, p, loaded);
      if existing != null {
        row, nextNow := existing, nextKey;
      } else {
        row := new SnapshotRow(nextKey);
        nextNow := nextKey + 1;
      }
    }

    /** Assigns the record's columns to the row and adds the row to the session. */
    static method StoreRecord(s: Session, row: SnapshotRow, w: WriteRecord, k: nat, bindingId: int, stamp: Stamp,
                              ghost p: Pass, ghost nextNow: nat)
      requires s.Mirrors(p)
      requires if row.id in s.identity then s.identity[row.id] == row else row !in s.objects
      modifies s, row
      ensures s.Mirrors(PutRow(p, row.id, Applied(w, bindingId, stamp), k, nextNow))
      ensures s.identity == old(s.identity)[row.id := row] && s.objects == old(s.objects) + {row}
    {
      assert forall j :: j in s.identity && j != row.id ==> s.identity[j] != row;
      row.ApplyWriteRecord(w, bindingId, stamp);
      s.Add(row);
    }

    /** One turn of the loop: find or create the record's row, write it, add it, remember it. */
    static method WriteRecord(s: Session, w: WriteRecord, k: nat, bindingId: int, stamp: Stamp,
                              names: map<string, SnapshotRow>, ips: map<string, SnapshotRow>,
                              kept: set<nat>, nextKey: nat,
                              ghost idx: Index, ghost p: Pass, ghost loaded: map<nat, SnapshotRow>)
      returns (keptNow: set<nat>, nextNow: nat)
      requires s.Mirrors(p) && nextKey == p.next && nextKey !in s.identity && kept == p.owner.Keys
      requires Aliases(loaded, names, ips, idx) && Extends(s.identity, loaded)
      modifies s, s.objects
      ensures fresh(s.objects - old(s.objects)) && Extends(s.identity, loaded)
      ensures s.Mirrors(Step(idx, p, k, w, bindingId, stamp))
      ensures keptNow == Step(idx, p, k, w, bindingId, stamp).owner.Keys
      ensures nextNow == Step(idx, p, k, w, bindingId, stamp).next
    {
      var row;
      row, nextNow := FindOrCreate(s, w, names, ips, nextKey, idx, p, loaded);
      ExtendsUpdate(s.identity, loaded, row);
      StoreRecord(s, row, w, k, bindingId, stamp, DropStep(idx, p, w), nextNow);
      StepParts(idx, p, k, w, bindingId, stamp, nextNow);
      keptNow := kept + {row.id};
    }

    /** The write shared by replace and upsert. */
    method WriteMachineBackupSnapshots(records: seq<BackupRecord>, bindingId: int, stamp: Stamp, deleteMissing: bool)
      returns (result: Result<nat, WriteError>)
      requires Valid()
      modifies this
      ensures Valid()
      ensures (result, Db()) == Write(old(Db()), bindingId, Select(nz, records), stamp, deleteMissing)
    {
      var selected := BuildSnapshotWriteRecords(nz, records);
      ghost var existing := Existing(table, bindingId);
      ghost var idx := IndexOf(existing, bindingId);
      ghost var p := After(existing, bindingId, next, selected, stamp);
      IndexOfIndexes(existing, bindingId);
      var s := LoadExisting(bindingId);
      var names := BuildNameIndex(s, existing, next, idx);
      var ips := BuildIpIndex(s, existing, next, idx);
      var existingRows := s.identity;
      var kept, nextKey := WriteRecords(s, selected, bindingId, stamp, next, names, ips, existing, idx, existingRows);
      PassShape(idx, existing, next, selected, bindingId, stamp);
      if deleteMissing {
        DeleteMissing(s, existingRows, kept);
      }
      var live := Flush(s, p, existing.Keys, deleteMissing);
      result := Commit(selected, bindingId, stamp, deleteMissing, live, nextKey, |selected|);
    }

    /** Marks for deletion the loaded rows that no record was written to. */
    static method DeleteMissing(s: Session, existingRows: map<nat, SnapshotRow>, kept: set<nat>)
      requires forall k :: k in existingRows ==> existingRows[k].id == k
      modifies s`deleted
      ensures s.deleted == old(s.deleted) + (existingRows.Keys - kept)
    {
      var todo := existingRows.Keys;
      while todo != {}
        invariant todo <= existingRows.Keys
        invariant s.deleted == old(s.deleted) + (existingRows.Keys - todo - kept)
      {
        var k :| k in todo;
        if existingRows[k].id !in kept {
          s.Delete(existingRows[k]);
        }
        todo := todo - {k};
      }
    }

    /** The rows the session writes back: every object that is not pending deletion. */
    static method Flush(s: Session, ghost p: Pass, ghost existing: set<nat>, ghost deleteMissing: bool) returns (live: Table)
      requires s.identity.Keys == p.rows.Keys
      requires forall k :: k in s.identity ==> s.identity[k].Columns() == p.rows[k]
      requires s.deleted == p.doomed + if deleteMissing then existing - p.owner.Keys else {}
      ensures live == Live(p, existing, deleteMissing)
    {
      live := map k | k in s.identity && k !in s.deleted :: s.identity[k].Columns();
    }

    /** Writes the rows back, unless that breaks a unique constraint. */
    method Commit(ghost selected: seq<WriteRecord>, bindingId: int, ghost stamp: Stamp, ghost deleteMissing: bool,
                  live: Table, nextKey: nat, count: nat)
      returns (result: Result<nat, WriteError>)
      requires Valid() && Selected(selected) && count == |selected|
      requires live == RowsFlushed(Db(), bindingId, selected, stamp, deleteMissing)
      requires nextKey == After(Existing(table, bindingId), bindingId, next, selected, stamp).next
      modifies this
      ensures Valid()
      ensures (result, Db()) == Write(old(Db()), bindingId, selected, stamp, deleteMissing)
    {
      WriteKeepsValid(Db(), bindingId, selected, stamp, deleteMissing);
      var flushed := Merge(table, bindingId, live);
      if UniqueConstraints(flushed) {
        table, next := flushed, nextKey;
        result := Ok(count);
      } else {
        result := Err(IntegrityError);
      }
    }

    method ReplaceMachineBackupSnapshots(records: seq<BackupRecord>, bindingId: int, stamp: Stamp)
      returns (result: Result<nat, WriteError>)
      requires Valid()
      modifies this
      ensures Valid() && Db() == Apply(nz, old(Db()), Op.Replace(bindingId, records, stamp))
      ensures result == Write(old(Db()), bindingId, Select(nz, records), stamp, true).0
    {
      result := WriteMachineBackupSnapshots(records, bindingId, stamp, true);
    }

    method UpsertMachineBackupSnapshots(records: seq<BackupRecord>, bindingId: int, stamp: Stamp)
      returns (result: Result<nat, WriteError>)
      requires Valid()
      modifies this
      ensures Valid() && Db() == Apply(nz, old(Db()), Op.Upsert(bindingId, records, stamp))
      ensures result == Write(old(Db()), bindingId, Select(nz, records), stamp, false).0
    {
      result := WriteMachineBackupSnapshots(records, bindingId, stamp, false);
    }

    method ClearMachineBackupSnapshots(scope: Option<int>)
      requires Valid()
      modifies this
      ensures Valid() && Db() == Apply(nz, old(Db()), Op.Clear(scope))
      ensures scope.None? ==> table == map[]
      ensures scope.Some? ==> forall r :: r in table <==> r in old(table) && old(table)[r].binding != scope.value
      ensures forall r :: r in table ==> table[r] == old(table)[r]
    {
      table := ClearScope(table, scope);
    }
  }
}

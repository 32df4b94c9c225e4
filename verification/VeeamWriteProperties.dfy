/** What a write pass guarantees: unique keys always, one row per record exactly when no claim is lost. */
module VeeamWriteProperties {
  import opened Common
  import opened VeeamSelector
  import opened VeeamWriter

  /** The starting point of a pass: one binding's rows, keyed below next, respecting the unique keys. */
  ghost predicate Before(existing: Table, binding: int, next: nat) {
    OneBinding(existing, binding) && UniqueKeys(existing) && forall r :: r in existing ==> r < next
  }

  ghost function After(existing: Table, binding: int, next: nat, ws: seq<WriteRecord>, stamp: Stamp): Pass
    requires Before(existing, binding, next)
  {
    RunPass(IndexOf(existing, binding), Start(existing, next), ws, binding, stamp)
  }

  ghost function RowsAfter(existing: Table, binding: int, next: nat, ws: seq<WriteRecord>, stamp: Stamp, deleteMissing: bool): Table
    requires Before(existing, binding, next)
  {
    Live(After(existing, binding, next, ws, stamp), existing.Keys, deleteMissing)
  }

  lemma PassFacts(existing: Table, binding: int, next: nat, ws: seq<WriteRecord>, stamp: Stamp)
    requires Before(existing, binding, next)
    ensures var idx := IndexOf(existing, binding);
            var p := After(existing, binding, next, ws, stamp);
            && IndexInto(idx, existing, next)
            && Shape(idx, existing, next, ws, p)
            && Owned(idx, next, ws, binding, stamp, p)
            && Untouched(idx, existing, ws, p)
            && Fates(idx, next, ws, p)
  {
    var idx := IndexOf(existing, binding);
    PassShape(idx, existing, next, ws, binding, stamp);
    PassOwned(idx, existing, next, ws, binding, stamp);
    PassUntouched(idx, existing, next, ws, binding, stamp);
    PassFates(idx, existing, next, ws, binding, stamp);
  }

  /** A live row that no record wrote keeps its values and shares no key with any record. */
  lemma UnwrittenRow(existing: Table, binding: int, next: nat, ws: seq<WriteRecord>, stamp: Stamp, deleteMissing: bool, r: nat)
    requires Before(existing, binding, next)
    requires r in RowsAfter(existing, binding, next, ws, stamp, deleteMissing)
    requires r !in After(existing, binding, next, ws, stamp).owner
    ensures r in existing && RowsAfter(existing, binding, next, ws, stamp, deleteMissing)[r] == existing[r]
    ensures forall j :: 0 <= j < |ws| ==> !SharesKey(existing[r], Applied(ws[j], binding, stamp))
  {
    var idx := IndexOf(existing, binding);
    assert r in existing && !HitBySome(idx, ws, r) && r in After(existing, binding, next, ws, stamp).rows
        && After(existing, binding, next, ws, stamp).rows[r] == existing[r] by {
      PassFacts(existing, binding, next, ws, stamp);
    }
    forall j | 0 <= j < |ws| ensures !SharesKey(existing[r], Applied(ws[j], binding, stamp)) {
      assert !Hits(idx, ws[j], r);
    }
  }

  /** A live row that a record wrote holds that record, and the record was not overtaken. */
  lemma WrittenRow(existing: Table, binding: int, next: nat, ws: seq<WriteRecord>, stamp: Stamp, deleteMissing: bool, r: nat)
    requires Before(existing, binding, next)
    requires r in RowsAfter(existing, binding, next, ws, stamp, deleteMissing)
    requires r in After(existing, binding, next, ws, stamp).owner
    ensures var j := After(existing, binding, next, ws, stamp).owner[r];
            && j < |ws| && r == Home(IndexOf(existing, binding), ws, next, j)
            && RowsAfter(existing, binding, next, ws, stamp, deleteMissing)[r] == Applied(ws[j], binding, stamp)
            && !Overtaken(IndexOf(existing, binding), ws, j)
  {
    PassFacts(existing, binding, next, ws, stamp);
  }

  /** A record that is not overtaken has its row live. */
  lemma SurvivingRecord(existing: Table, binding: int, next: nat, ws: seq<WriteRecord>, stamp: Stamp, deleteMissing: bool, j: nat)
    requires Before(existing, binding, next) && j < |ws|
    requires !Overtaken(IndexOf(existing, binding), ws, j)
    ensures var h := Home(IndexOf(existing, binding), ws, next, j);
            && h in After(existing, binding, next, ws, stamp).owner
            && After(existing, binding, next, ws, stamp).owner[h] == j
            && h in RowsAfter(existing, binding, next, ws, stamp, deleteMissing)
            && RowsAfter(existing, binding, next, ws, stamp, deleteMissing)[h] == Applied(ws[j], binding, stamp)
  {
    PassFacts(existing, binding, next, ws, stamp);
  }

  /**
   * Uniqueness: whatever rows were cleared, deleted, revived or overwritten on the way, the live rows'
   * non-empty names and non-null IPs are again pairwise distinct, on replace and on upsert.
   */
  lemma WriteKeepsKeysUnique(existing: Table, binding: int, next: nat, ws: seq<WriteRecord>, stamp: Stamp, deleteMissing: bool)
    requires Before(existing, binding, next) && Selected(ws)
    ensures var t := RowsAfter(existing, binding, next, ws, stamp, deleteMissing);
            OneBinding(t, binding) && UniqueKeys(t)
  {
    var t := RowsAfter(existing, binding, next, ws, stamp, deleteMissing);
    var p := After(existing, binding, next, ws, stamp);
    forall r | r in t ensures t[r].binding == binding {
      if r in p.owner {
        WrittenRow(existing, binding, next, ws, stamp, deleteMissing, r);
      } else {
        UnwrittenRow(existing, binding, next, ws, stamp, deleteMissing, r);
      }
    }
    forall a, b | a in t && b in t && a != b ensures !SharesKey(t[a], t[b]) {
      if a in p.owner {
        WrittenRow(existing, binding, next, ws, stamp, deleteMissing, a);
      } else {
        UnwrittenRow(existing, binding, next, ws, stamp, deleteMissing, a);
      }
      if b in p.owner {
        WrittenRow(existing, binding, next, ws, stamp, deleteMissing, b);
      } else {
        UnwrittenRow(existing, binding, next, ws, stamp, deleteMissing, b);
      }
      if a in p.owner && b in p.owner {
        assert !Conflict(ws[p.owner[a]], ws[p.owner[b]]);
      }
    }
  }

  // ---- Coverage: when does every selected record end up in a row? ----

  /** The row has every column from the record and the run that wrote it. */
  predicate Stores(row: Row, w: WriteRecord, binding: int, stamp: Stamp) {
    && row.binding == binding
    && row.machineName == w.record.machineName && row.name == w.name
    && row.machineIp == w.machineIp && row.ip == w.ip
    && row.latestBackupAt == w.record.backupAt
    && row.sourceRecordId == w.record.sourceRecordId && row.details == w.record.details
    && row.syncRunId == stamp.runId && row.syncedAt == stamp.syncedAt
  }

  lemma StoresIsApplied(row: Row, w: WriteRecord, binding: int, stamp: Stamp)
    ensures Stores(row, w, binding, stamp) <==> row == Applied(w, binding, stamp)
  {
  }

  ghost predicate Holds(t: Table, w: WriteRecord, binding: int, stamp: Stamp) {
    exists r :: r in t && Stores(t[r], w, binding, stamp)
  }

  ghost predicate Covers(t: Table, ws: seq<WriteRecord>, binding: int, stamp: Stamp) {
    forall j :: 0 <= j < |ws| ==> Holds(t, ws[j], binding, stamp)
  }

  /** Row r is claimed by a record that carries its name or its IP. */
  predicate ClaimsByName(row: Row, w: WriteRecord) {
    w.name != "" && row.name == w.name
  }

  predicate ClaimsByIp(row: Row, w: WriteRecord) {
    w.ip.Some? && row.ip == w.ip
  }

  ghost predicate NamedRow(existing: Table, w: WriteRecord) {
    exists r :: r in existing && ClaimsByName(existing[r], w)
  }

  /**
   * A lost claim: one row claimed by name by record a and by IP by another record b, unless b comes
   * first and has a row of its own name to go to (then b deletes the row and a revives it).
   */
  ghost predicate LostClaim(existing: Table, ws: seq<WriteRecord>, r: nat, a: nat, b: nat)
    requires r in existing && a < |ws| && b < |ws|
  {
    && a != b && ClaimsByName(existing[r], ws[a]) && ClaimsByIp(existing[r], ws[b])
    && (a < b || !NamedRow(existing, ws[b]))
  }

  ghost predicate NoLostClaim(existing: Table, ws: seq<WriteRecord>) {
    forall r, a: nat, b: nat :: r in existing && a < |ws| && b < |ws| ==> !LostClaim(existing, ws, r, a, b)
  }

  lemma IndexMeaning(existing: Table, binding: int, next: nat, w: WriteRecord, r: nat)
    requires Before(existing, binding, next) && r in existing
    ensures NameRow(IndexOf(existing, binding), w) == Some(r) <==> ClaimsByName(existing[r], w)
    ensures IpRow(IndexOf(existing, binding), w) == Some(r) <==> ClaimsByIp(existing[r], w)
    ensures NameRow(IndexOf(existing, binding), w).Some? <==> NamedRow(existing, w)
  {
  }

  /** The row a record is written to, if it is there before the pass: the one with its name, else the one with its IP. */
  ghost predicate TakesRow(existing: Table, w: WriteRecord, r: nat) {
    r in existing && (ClaimsByName(existing[r], w) || (ClaimsByIp(existing[r], w) && !NamedRow(existing, w)))
  }

  /** A later record claims the row the record is written to. */
  ghost predicate LosesRow(existing: Table, ws: seq<WriteRecord>, j: nat)
    requires j < |ws|
  {
    exists r, k :: TakesRow(existing, ws[j], r) && j < k < |ws| && (ClaimsByName(existing[r], ws[k]) || ClaimsByIp(existing[r], ws[k]))
  }

  lemma TakesIsTarget(existing: Table, binding: int, next: nat, w: WriteRecord, r: nat)
    requires Before(existing, binding, next)
    ensures TakesRow(existing, w, r) <==> TargetOf(IndexOf(existing, binding), w) == Some(r)
    ensures r in existing ==>
      (Hits(IndexOf(existing, binding), w, r) <==> ClaimsByName(existing[r], w) || ClaimsByIp(existing[r], w))
  {
    if r in existing {
      IndexMeaning(existing, binding, next, w, r);
    }
  }

  lemma OvertakenIffLosesRow(existing: Table, binding: int, next: nat, ws: seq<WriteRecord>, j: nat)
    requires Before(existing, binding, next) && j < |ws|
    ensures Overtaken(IndexOf(existing, binding), ws, j) <==> LosesRow(existing, ws, j)
  {
    var idx := IndexOf(existing, binding);
    if Overtaken(idx, ws, j) {
      var r := TargetOf(idx, ws[j]).value;
      var k :| j < k < |ws| && Hits(idx, ws[k], r);
      TakesIsTarget(existing, binding, next, ws[j], r);
      TakesIsTarget(existing, binding, next, ws[k], r);
      assert TakesRow(existing, ws[j], r);
    }
    if LosesRow(existing, ws, j) {
      var r, k :| TakesRow(existing, ws[j], r) && j < k < |ws| && (ClaimsByName(existing[r], ws[k]) || ClaimsByIp(existing[r], ws[k]));
      TakesIsTarget(existing, binding, next, ws[j], r);
      TakesIsTarget(existing, binding, next, ws[k], r);
      assert Hits(idx, ws[k], r);
    }
  }

  lemma StoredIfNotOvertaken(existing: Table, binding: int, next: nat, ws: seq<WriteRecord>, stamp: Stamp, deleteMissing: bool, j: nat)
    requires Before(existing, binding, next) && j < |ws| && !Overtaken(IndexOf(existing, binding), ws, j)
    ensures Holds(RowsAfter(existing, binding, next, ws, stamp, deleteMissing), ws[j], binding, stamp)
  {
    SurvivingRecord(existing, binding, next, ws, stamp, deleteMissing, j);
    var h := Home(IndexOf(existing, binding), ws, next, j);
    StoresIsApplied(RowsAfter(existing, binding, next, ws, stamp, deleteMissing)[h], ws[j], binding, stamp);
  }

  lemma RowOfAnother(row: Row, w: WriteRecord, other: WriteRecord, binding: int, stamp: Stamp)
    requires Stores(row, w, binding, stamp) && Keyed(w)
    ensures SharesKey(row, Applied(w, binding, stamp))
    ensures row == Applied(other, binding, stamp) ==> Conflict(other, w)
  {
  }

  lemma NotOvertakenIfStored(existing: Table, binding: int, next: nat, ws: seq<WriteRecord>, stamp: Stamp, deleteMissing: bool, j: nat)
    requires Before(existing, binding, next) && Selected(ws) && j < |ws|
    requires Holds(RowsAfter(existing, binding, next, ws, stamp, deleteMissing), ws[j], binding, stamp)
    ensures !Overtaken(IndexOf(existing, binding), ws, j)
  {
    var t := RowsAfter(existing, binding, next, ws, stamp, deleteMissing);
    var p := After(existing, binding, next, ws, stamp);
    var r :| r in t && Stores(t[r], ws[j], binding, stamp);
    assert Keyed(ws[j]);
    if r in p.owner {
      WrittenRow(existing, binding, next, ws, stamp, deleteMissing, r);
      RowOfAnother(t[r], ws[j], ws[p.owner[r]], binding, stamp);
    } else {
      UnwrittenRow(existing, binding, next, ws, stamp, deleteMissing, r);
      RowOfAnother(t[r], ws[j], ws[j], binding, stamp);
    }
  }

  /** A record is stored, column by column, exactly when no later record claims the row it is written to. */
  lemma RecordStoredIff(existing: Table, binding: int, next: nat, ws: seq<WriteRecord>, stamp: Stamp, deleteMissing: bool, j: nat)
    requires Before(existing, binding, next) && Selected(ws) && j < |ws|
    ensures Holds(RowsAfter(existing, binding, next, ws, stamp, deleteMissing), ws[j], binding, stamp) <==> !LosesRow(existing, ws, j)
  {
    OvertakenIffLosesRow(existing, binding, next, ws, j);
    if !Overtaken(IndexOf(existing, binding), ws, j) {
      StoredIfNotOvertaken(existing, binding, next, ws, stamp, deleteMissing, j);
    }
    if Holds(RowsAfter(existing, binding, next, ws, stamp, deleteMissing), ws[j], binding, stamp) {
      NotOvertakenIfStored(existing, binding, next, ws, stamp, deleteMissing, j);
    }
  }

  /** Overtaking, which speaks of positions in the pass, is the same as a lost claim on the rows before it. */
  lemma OvertakenIffLostClaim(existing: Table, binding: int, next: nat, ws: seq<WriteRecord>)
    requires Before(existing, binding, next) && Selected(ws)
    ensures (forall j :: 0 <= j < |ws| ==> !Overtaken(IndexOf(existing, binding), ws, j)) <==> NoLostClaim(existing, ws)
  {
    var idx := IndexOf(existing, binding);
    forall j: nat | j < |ws| && Overtaken(idx, ws, j) ensures !NoLostClaim(existing, ws) {
      var r := TargetOf(idx, ws[j]).value;
      var k :| j < k < |ws| && Hits(idx, ws[k], r);
      IndexMeaning(existing, binding, next, ws[j], r);
      IndexMeaning(existing, binding, next, ws[k], r);
      assert !Conflict(ws[j], ws[k]);
      assert LostClaim(existing, ws, r, j, k) || LostClaim(existing, ws, r, k, j);
    }
    forall r, a: nat, b: nat | r in existing && a < |ws| && b < |ws| && LostClaim(existing, ws, r, a, b)
      ensures Overtaken(idx, ws, if a < b then a else b)
    {
      IndexMeaning(existing, binding, next, ws[a], r);
      IndexMeaning(existing, binding, next, ws[b], r);
      assert !Conflict(ws[a], ws[b]);
      assert TargetOf(idx, ws[a]) == Some(r);
      assert Hits(idx, ws[b], r) && Hits(idx, ws[a], r);
    }
  }

  /** Coverage, exactly: every selected record ends up in a row if and only if no claim is lost. */
  lemma CoversIffNoLostClaim(existing: Table, binding: int, next: nat, ws: seq<WriteRecord>, stamp: Stamp, deleteMissing: bool)
    requires Before(existing, binding, next) && Selected(ws)
    ensures Covers(RowsAfter(existing, binding, next, ws, stamp, deleteMissing), ws, binding, stamp) <==>
            NoLostClaim(existing, ws)
  {
    forall j: nat | j < |ws| ensures
      Holds(RowsAfter(existing, binding, next, ws, stamp, deleteMissing), ws[j], binding, stamp) <==>
      !Overtaken(IndexOf(existing, binding), ws, j)
    {
      RecordStoredIff(existing, binding, next, ws, stamp, deleteMissing, j);
      OvertakenIffLosesRow(existing, binding, next, ws, j);
    }
    OvertakenIffLostClaim(existing, binding, next, ws);
  }

  /** No row is claimed by two records: the simple hypothesis under which nothing can be lost. */
  ghost predicate DisjointClaims(existing: Table, ws: seq<WriteRecord>) {
    forall r, a, b :: r in existing && 0 <= a < |ws| && 0 <= b < |ws| && a != b ==>
      !(ClaimsByName(existing[r], ws[a]) && ClaimsByIp(existing[r], ws[b]))
  }

  lemma ReplaceKeepsOnlyWritten(existing: Table, binding: int, next: nat, ws: seq<WriteRecord>, stamp: Stamp, r: nat)
    requires Before(existing, binding, next)
    requires r in RowsAfter(existing, binding, next, ws, stamp, true)
    ensures r in After(existing, binding, next, ws, stamp).owner
  {
    PassShape(IndexOf(existing, binding), existing, next, ws, binding, stamp);
  }

  /** On replace every live row has the record that wrote it last, and no two rows have the same one. */
  lemma ReplaceOwners(existing: Table, binding: int, next: nat, ws: seq<WriteRecord>, stamp: Stamp) returns (m: map<nat, nat>)
    requires Before(existing, binding, next)
    ensures m.Keys == RowsAfter(existing, binding, next, ws, stamp, true).Keys
    ensures forall r :: r in m ==> m[r] < |ws| && r == Home(IndexOf(existing, binding), ws, next, m[r])
    ensures forall r :: r in m ==> !Overtaken(IndexOf(existing, binding), ws, m[r])
    ensures forall r :: r in m ==>
      RowsAfter(existing, binding, next, ws, stamp, true)[r] == Applied(ws[m[r]], binding, stamp)
    ensures forall j :: 0 <= j < |ws| && !Overtaken(IndexOf(existing, binding), ws, j) ==>
      Home(IndexOf(existing, binding), ws, next, j) in m && m[Home(IndexOf(existing, binding), ws, next, j)] == j
  {
    var t := RowsAfter(existing, binding, next, ws, stamp, true);
    var owner := After(existing, binding, next, ws, stamp).owner;
    m := map r | r in t && r in owner :: owner[r];
    forall r | r in t
      ensures r in owner && owner[r] < |ws| && r == Home(IndexOf(existing, binding), ws, next, owner[r])
      ensures t[r] == Applied(ws[owner[r]], binding, stamp) && !Overtaken(IndexOf(existing, binding), ws, owner[r])
    {
      ReplaceKeepsOnlyWritten(existing, binding, next, ws, stamp, r);
      WrittenRow(existing, binding, next, ws, stamp, true, r);
    }
    forall j | 0 <= j < |ws| && !Overtaken(IndexOf(existing, binding), ws, j)
      ensures Home(IndexOf(existing, binding), ws, next, j) in m
      ensures m[Home(IndexOf(existing, binding), ws, next, j)] == j
    {
      SurvivingRecord(existing, binding, next, ws, stamp, true, j);
    }
  }

  /**
   * The value returned by replace is the number of selected records; the live rows are at most that
   * many, each one holds a selected record, and they are that many exactly when no claim is lost.
   */
  lemma ReplaceCount(existing: Table, binding: int, next: nat, ws: seq<WriteRecord>, stamp: Stamp)
    requires Before(existing, binding, next) && Selected(ws)
    ensures |RowsAfter(existing, binding, next, ws, stamp, true)| <= |ws|
    ensures |RowsAfter(existing, binding, next, ws, stamp, true)| == |ws| <==> NoLostClaim(existing, ws)
    ensures forall r :: r in RowsAfter(existing, binding, next, ws, stamp, true) ==>
      exists j :: 0 <= j < |ws| && Stores(RowsAfter(existing, binding, next, ws, stamp, true)[r], ws[j], binding, stamp)
  {
    var idx := IndexOf(existing, binding);
    var m := ReplaceOwners(existing, binding, next, ws, stamp);
    assert |m| == |m.Keys| == |RowsAfter(existing, binding, next, ws, stamp, true).Keys|;
    InjectionBound(m, |ws|);
    forall j: nat | j < |ws| ensures MapsOnto(m, j) <==> !Overtaken(idx, ws, j) {
      if !Overtaken(idx, ws, j) {
        assert m[Home(idx, ws, next, j)] == j;
      }
      if MapsOnto(m, j) {
        var r :| r in m && m[r] == j;
      }
    }
    OvertakenIffLostClaim(existing, binding, next, ws);
  }

  /** A row no record claims is untouched by upsert and removed by replace. */
  lemma UnclaimedRow(existing: Table, binding: int, next: nat, ws: seq<WriteRecord>, stamp: Stamp, r: nat)
    requires Before(existing, binding, next) && Selected(ws) && r in existing
    requires forall j :: 0 <= j < |ws| ==> !ClaimsByName(existing[r], ws[j]) && !ClaimsByIp(existing[r], ws[j])
    ensures r in RowsAfter(existing, binding, next, ws, stamp, false)
    ensures RowsAfter(existing, binding, next, ws, stamp, false)[r] == existing[r]
    ensures r !in RowsAfter(existing, binding, next, ws, stamp, true)
  {
    PassFacts(existing, binding, next, ws, stamp);
    var idx := IndexOf(existing, binding);
    forall j | 0 <= j < |ws| ensures !Hits(idx, ws[j], r) {
      IndexMeaning(existing, binding, next, ws[j], r);
    }
    assert !HitBySome(idx, ws, r);
  }

  /** Upsert removes nothing but rows some record claims by IP while its name belongs elsewhere. */
  lemma UpsertRemovesOnlyClaimed(existing: Table, binding: int, next: nat, ws: seq<WriteRecord>, stamp: Stamp, r: nat)
    requires Before(existing, binding, next) && Selected(ws) && r in existing
    requires r !in RowsAfter(existing, binding, next, ws, stamp, false)
    ensures exists j :: 0 <= j < |ws| && ClaimsByIp(existing[r], ws[j]) &&
              exists s :: s in existing && s != r && ClaimsByName(existing[s], ws[j])
  {
    PassFacts(existing, binding, next, ws, stamp);
    DoomedByDrop(existing, binding, next, ws, stamp, r);
  }

  lemma {:induction false} DoomedByDrop(existing: Table, binding: int, next: nat, ws: seq<WriteRecord>, stamp: Stamp, r: nat)
    requires Before(existing, binding, next) && r in existing
    requires r in After(existing, binding, next, ws, stamp).doomed
    ensures exists j :: 0 <= j < |ws| && ClaimsByIp(existing[r], ws[j]) &&
              exists s :: s in existing && s != r && ClaimsByName(existing[s], ws[j])
  {
    if ws == [] {
    } else {
      var n := |ws| - 1;
      var idx := IndexOf(existing, binding);
      if DropOf(idx, ws[n]) == Some(r) {
        IndexMeaning(existing, binding, next, ws[n], r);
        var s := NameRow(idx, ws[n]).value;
        assert s in existing && s != r && ClaimsByName(existing[s], ws[n]);
      } else {
        DoomedByDrop(existing, binding, next, ws[..n], stamp, r);
        var j :| 0 <= j < n && ClaimsByIp(existing[r], ws[..n][j]) &&
          exists s :: s in existing && s != r && ClaimsByName(existing[s], ws[..n][j]);
        assert ws[..n][j] == ws[j];
      }
    }
  }

  /** Claims that do not overlap lose nothing: the live rows are in bijection with the records. */
  lemma DisjointClaimsCover(existing: Table, binding: int, next: nat, ws: seq<WriteRecord>, stamp: Stamp, deleteMissing: bool)
    requires Before(existing, binding, next) && Selected(ws) && DisjointClaims(existing, ws)
    ensures Covers(RowsAfter(existing, binding, next, ws, stamp, deleteMissing), ws, binding, stamp)
    ensures |RowsAfter(existing, binding, next, ws, stamp, true)| == |ws|
  {
    assert NoLostClaim(existing, ws);
    CoversIffNoLostClaim(existing, binding, next, ws, stamp, deleteMissing);
    ReplaceCount(existing, binding, next, ws, stamp);
  }

  /** Rows (a, ip1) in the table, records (a, ip2) and (c, ip1) coming in: the second overwrites the first. */
  lemma SharedClaimLosesARecord(existing: Table, ws: seq<WriteRecord>, stamp: Stamp)
    requires existing.Keys == {7} && existing[7].binding == 1
    requires existing[7].name == "a" && existing[7].ip == Some("ip1")
    requires |ws| == 2
    requires ws[0].name == "a" && ws[0].ip == Some("ip2")
    requires ws[1].name == "c" && ws[1].ip == Some("ip1")
    ensures Before(existing, 1, 8) && Selected(ws) && !DisjointClaims(existing, ws)
    ensures !Covers(RowsAfter(existing, 1, 8, ws, stamp, true), ws, 1, stamp)
    ensures |RowsAfter(existing, 1, 8, ws, stamp, true)| == 1
  {
    assert ClaimsByName(existing[7], ws[0]) && ClaimsByIp(existing[7], ws[1]);
    assert LostClaim(existing, ws, 7, 0, 1);
    ReplaceCount(existing, 1, 8, ws, stamp);
    CoversIffNoLostClaim(existing, 1, 8, ws, stamp, true);
    OvertakenIffLostClaim(existing, 1, 8, ws);
    assert !Overtaken(IndexOf(existing, 1), ws, 1);
    SurvivingRecord(existing, 1, 8, ws, stamp, true, 1);
  }

  // ---- Repeating a pass ----

  /** Each row stands for one of the records. */
  ghost predicate Reflects(t: Table, ws: seq<WriteRecord>, binding: int, stamp: Stamp) {
    forall r :: r in t ==> exists j :: 0 <= j < |ws| && Stores(t[r], ws[j], binding, stamp)
  }

  /** After one replace the same records claim disjoint rows, whatever was lost on the way. */
  lemma ReplaceSeparatesClaims(t: Table, ws: seq<WriteRecord>, binding: int, stamp: Stamp)
    requires Selected(ws) && Reflects(t, ws, binding, stamp)
    ensures DisjointClaims(t, ws)
  {
  }

  /** With one row per record already there, each record finds its own row and deletes none. */
  lemma SettledTarget(t: Table, binding: int, next: nat, ws: seq<WriteRecord>, earlier: Stamp, j: nat, r: nat)
    requires Before(t, binding, next) && Selected(ws) && j < |ws| && r in t
    requires Stores(t[r], ws[j], binding, earlier)
    ensures TargetOf(IndexOf(t, binding), ws[j]) == Some(r)
    ensures DropOf(IndexOf(t, binding), ws[j]).None?
  {
  }

  lemma {:induction false} NoFreshRows(idx: Index, ws: seq<WriteRecord>)
    requires forall j :: 0 <= j < |ws| ==> TargetOf(idx, ws[j]).Some?
    ensures FreshCount(idx, ws) == 0
  {
    if ws == [] {
    } else {
      NoFreshRows(idx, ws[..|ws| - 1]);
    }
  }

  lemma SettledRow(t: Table, binding: int, next: nat, ws: seq<WriteRecord>, earlier: Stamp, stamp: Stamp, r: nat)
    requires Before(t, binding, next) && Selected(ws) && r in t
    requires Reflects(t, ws, binding, earlier)
    ensures r in RowsAfter(t, binding, next, ws, stamp, true)
    ensures RowsAfter(t, binding, next, ws, stamp, true)[r] ==
            t[r].(syncRunId := stamp.runId, syncedAt := stamp.syncedAt)
  {
    var j :| 0 <= j < |ws| && Stores(t[r], ws[j], binding, earlier);
    SettledTarget(t, binding, next, ws, earlier, j, r);
    ReplaceSeparatesClaims(t, ws, binding, earlier);
    assert NoLostClaim(t, ws);
    OvertakenIffLostClaim(t, binding, next, ws);
    SurvivingRecord(t, binding, next, ws, stamp, true, j);
    assert Home(IndexOf(t, binding), ws, next, j) == r;
  }

  lemma SettledAddsNoRow(t: Table, binding: int, next: nat, ws: seq<WriteRecord>, earlier: Stamp, stamp: Stamp)
    requires Before(t, binding, next) && Selected(ws) && Covers(t, ws, binding, earlier)
    ensures forall r :: r in RowsAfter(t, binding, next, ws, stamp, true) ==> r in t
    ensures After(t, binding, next, ws, stamp).next == next
  {
    var idx := IndexOf(t, binding);
    forall j | 0 <= j < |ws| ensures TargetOf(idx, ws[j]).Some? {
      assert Holds(t, ws[j], binding, earlier);
      var r :| r in t && Stores(t[r], ws[j], binding, earlier);
      SettledTarget(t, binding, next, ws, earlier, j, r);
    }
    NoFreshRows(idx, ws);
    PassShape(idx, t, next, ws, binding, stamp);
  }

  function Restamped(t: Table, stamp: Stamp): (s: Table)
    ensures s.Keys == t.Keys
  {
    map r | r in t :: t[r].(syncRunId := stamp.runId, syncedAt := stamp.syncedAt)
  }

  /** after has every row of t, with new stamps. */
  ghost predicate RestampsAll(t: Table, after: Table, stamp: Stamp) {
    forall r :: r in t ==> r in after && after[r] == t[r].(syncRunId := stamp.runId, syncedAt := stamp.syncedAt)
  }

  lemma RestampsExactly(t: Table, after: Table, stamp: Stamp)
    requires RestampsAll(t, after, stamp) && forall r :: r in after ==> r in t
    ensures after == Restamped(t, stamp)
  {
  }

  lemma SettledRows(t: Table, binding: int, next: nat, ws: seq<WriteRecord>, earlier: Stamp, stamp: Stamp)
    requires Before(t, binding, next) && Selected(ws) && Reflects(t, ws, binding, earlier)
    ensures RestampsAll(t, RowsAfter(t, binding, next, ws, stamp, true), stamp)
  {
    forall r | r in t
      ensures r in RowsAfter(t, binding, next, ws, stamp, true)
      ensures RowsAfter(t, binding, next, ws, stamp, true)[r] ==
              t[r].(syncRunId := stamp.runId, syncedAt := stamp.syncedAt)
    {
      SettledRow(t, binding, next, ws, earlier, stamp, r);
    }
  }

  /** A further replace with the same records keeps every row and primary key and changes only the stamps. */
  lemma SettledReplace(t: Table, binding: int, next: nat, ws: seq<WriteRecord>, earlier: Stamp, stamp: Stamp)
    requires Before(t, binding, next) && Selected(ws)
    requires Reflects(t, ws, binding, earlier) && Covers(t, ws, binding, earlier)
    ensures RowsAfter(t, binding, next, ws, stamp, true) == Restamped(t, stamp)
    ensures After(t, binding, next, ws, stamp).next == next
  {
    SettledAddsNoRow(t, binding, next, ws, earlier, stamp);
    SettledRows(t, binding, next, ws, earlier, stamp);
    RestampsExactly(t, RowsAfter(t, binding, next, ws, stamp, true), stamp);
  }

  /** Exactly one row per record. */
  ghost predicate OneRowEach(t: Table, ws: seq<WriteRecord>, binding: int, stamp: Stamp) {
    Reflects(t, ws, binding, stamp) && Covers(t, ws, binding, stamp) && |t| == |ws|
  }

  lemma SettledKeepsOneRowEach(t: Table, binding: int, next: nat, ws: seq<WriteRecord>, earlier: Stamp, stamp: Stamp)
    requires Before(t, binding, next) && Selected(ws) && OneRowEach(t, ws, binding, earlier)
    ensures OneRowEach(RowsAfter(t, binding, next, ws, stamp, true), ws, binding, stamp)
  {
    ReplaceSeparatesClaims(t, ws, binding, earlier);
    DisjointClaimsCover(t, binding, next, ws, stamp, true);
    ReplaceCount(t, binding, next, ws, stamp);
  }

  // ---- When a write commits, from what comes in ----

  /** An unnamed record loses the row with its IP to a later record that carries the row's name. */
  ghost predicate LosesItsRow(existing: Table, ws: seq<WriteRecord>, j: nat)
    requires j < |ws|
  {
    exists r, k :: r in existing && j < k < |ws| && ClaimsByIp(existing[r], ws[j]) && ClaimsByName(existing[r], ws[k])
  }

  /** The unnamed records that keep a row. */
  ghost predicate StaysUnnamed(existing: Table, ws: seq<WriteRecord>, j: int) {
    0 <= j < |ws| && ws[j].name == "" && !LosesItsRow(existing, ws, j)
  }

  /** The unnamed rows that no record takes over: those whose IP no record has. */
  ghost predicate LeftUnnamed(existing: Table, ws: seq<WriteRecord>, r: nat) {
    r in existing && existing[r].name == "" && forall j :: 0 <= j < |ws| ==> !ClaimsByIp(existing[r], ws[j])
  }

  /** At most one row without a name will be left: of the records, and on upsert of the rows that stay. */
  ghost predicate OneUnnamedAtMost(existing: Table, ws: seq<WriteRecord>, deleteMissing: bool) {
    && (forall i, j :: StaysUnnamed(existing, ws, i) && StaysUnnamed(existing, ws, j) ==> i == j)
    && (!deleteMissing ==> forall r, j :: LeftUnnamed(existing, ws, r) ==> !StaysUnnamed(existing, ws, j))
  }

  lemma UnnamedOvertakenIff(existing: Table, binding: int, next: nat, ws: seq<WriteRecord>, j: nat)
    requires Before(existing, binding, next) && Selected(ws) && j < |ws| && ws[j].name == ""
    ensures Overtaken(IndexOf(existing, binding), ws, j) <==> LosesItsRow(existing, ws, j)
  {
    var idx := IndexOf(existing, binding);
    if Overtaken(idx, ws, j) {
      var r := TargetOf(idx, ws[j]).value;
      var k :| j < k < |ws| && Hits(idx, ws[k], r);
      HitsByName(existing, binding, next, ws, j, k, r);
      assert ClaimsByIp(existing[r], ws[j]) && ClaimsByName(existing[r], ws[k]);
    }
    if LosesItsRow(existing, ws, j) {
      var r, k :| r in existing && j < k < |ws| && ClaimsByIp(existing[r], ws[j]) && ClaimsByName(existing[r], ws[k]);
      IndexMeaning(existing, binding, next, ws[j], r);
      IndexMeaning(existing, binding, next, ws[k], r);
      assert TargetOf(idx, ws[j]) == Some(r) && Hits(idx, ws[k], r);
    }
  }

  /** What takes an unnamed record's row is a record with the row's name. */
  lemma HitsByName(existing: Table, binding: int, next: nat, ws: seq<WriteRecord>, j: nat, k: nat, r: nat)
    requires Before(existing, binding, next) && Selected(ws) && j < k < |ws| && ws[j].name == ""
    requires TargetOf(IndexOf(existing, binding), ws[j]) == Some(r) && Hits(IndexOf(existing, binding), ws[k], r)
    ensures r in existing && ClaimsByIp(existing[r], ws[j]) && ClaimsByName(existing[r], ws[k])
  {
    PassFacts(existing, binding, next, ws, Stamp("", 0));
    IndexMeaning(existing, binding, next, ws[j], r);
    IndexMeaning(existing, binding, next, ws[k], r);
    assert !Conflict(ws[j], ws[k]);
  }

  /** An unnamed record that keeps a row leaves that row without a name. */
  lemma UnnamedRecordStays(existing: Table, binding: int, next: nat, ws: seq<WriteRecord>, stamp: Stamp, deleteMissing: bool, j: nat)
    returns (h: nat)
    requires Before(existing, binding, next) && Selected(ws) && StaysUnnamed(existing, ws, j)
    ensures h in RowsAfter(existing, binding, next, ws, stamp, deleteMissing)
    ensures RowsAfter(existing, binding, next, ws, stamp, deleteMissing)[h].name == ""
    ensures h in After(existing, binding, next, ws, stamp).owner && After(existing, binding, next, ws, stamp).owner[h] == j
  {
    UnnamedOvertakenIff(existing, binding, next, ws, j);
    SurvivingRecord(existing, binding, next, ws, stamp, deleteMissing, j);
    h := Home(IndexOf(existing, binding), ws, next, j);
  }

  /** An unnamed row that no record takes over is left without a name by upsert, and was written by no record. */
  lemma UnnamedRowStays(existing: Table, binding: int, next: nat, ws: seq<WriteRecord>, stamp: Stamp, r: nat)
    requires Before(existing, binding, next) && Selected(ws) && LeftUnnamed(existing, ws, r)
    ensures r in RowsAfter(existing, binding, next, ws, stamp, false)
    ensures RowsAfter(existing, binding, next, ws, stamp, false)[r].name == ""
    ensures r !in After(existing, binding, next, ws, stamp).owner
  {
    UnclaimedRow(existing, binding, next, ws, stamp, r);
    if r in After(existing, binding, next, ws, stamp).owner {
      WrittenRow(existing, binding, next, ws, stamp, false, r);
      NotHomeOfAny(existing, binding, next, ws, stamp, r);
    }
  }

  lemma NotHomeOfAny(existing: Table, binding: int, next: nat, ws: seq<WriteRecord>, stamp: Stamp, r: nat)
    requires Before(existing, binding, next) && LeftUnnamed(existing, ws, r)
    ensures forall j: nat :: j < |ws| ==> Home(IndexOf(existing, binding), ws, next, j) != r
  {
    forall j: nat | j < |ws| ensures Home(IndexOf(existing, binding), ws, next, j) != r {
      IndexMeaning(existing, binding, next, ws[j], r);
    }
  }

  /** A live row without a name is one of the two kinds. */
  lemma UnnamedRowIs(existing: Table, binding: int, next: nat, ws: seq<WriteRecord>, stamp: Stamp, deleteMissing: bool, r: nat)
    requires Before(existing, binding, next) && Selected(ws)
    requires r in RowsAfter(existing, binding, next, ws, stamp, deleteMissing)
    requires RowsAfter(existing, binding, next, ws, stamp, deleteMissing)[r].name == ""
    ensures var owner := After(existing, binding, next, ws, stamp).owner;
      if r in owner then StaysUnnamed(existing, ws, owner[r]) && r == Home(IndexOf(existing, binding), ws, next, owner[r])
      else !deleteMissing && LeftUnnamed(existing, ws, r)
  {
    var owner := After(existing, binding, next, ws, stamp).owner;
    if r in owner {
      WrittenRow(existing, binding, next, ws, stamp, deleteMissing, r);
      UnnamedOvertakenIff(existing, binding, next, ws, owner[r]);
    } else {
      UnwrittenRow(existing, binding, next, ws, stamp, deleteMissing, r);
      if deleteMissing {
        ReplaceKeepsOnlyWritten(existing, binding, next, ws, stamp, r);
      }
      forall j | 0 <= j < |ws| ensures !ClaimsByIp(existing[r], ws[j]) {
        assert !SharesKey(existing[r], Applied(ws[j], binding, stamp));
      }
    }
  }

  ghost predicate AtMostOneEmptyName(t: Table) {
    forall a, b :: a in t && b in t && t[a].name == "" && t[b].name == "" ==> a == b
  }

  lemma OneRowLeaves(existing: Table, binding: int, next: nat, ws: seq<WriteRecord>, stamp: Stamp, deleteMissing: bool)
    requires Before(existing, binding, next) && Selected(ws)
    requires AtMostOneEmptyName(RowsAfter(existing, binding, next, ws, stamp, deleteMissing))
    ensures OneUnnamedAtMost(existing, ws, deleteMissing)
  {
    forall i, j | StaysUnnamed(existing, ws, i) && StaysUnnamed(existing, ws, j) ensures i == j {
      var a := UnnamedRecordStays(existing, binding, next, ws, stamp, deleteMissing, i);
      var b := UnnamedRecordStays(existing, binding, next, ws, stamp, deleteMissing, j);
      assert a == b;
    }
    if !deleteMissing {
      forall r, j | LeftUnnamed(existing, ws, r) && StaysUnnamed(existing, ws, j) ensures false {
        UnnamedRowStays(existing, binding, next, ws, stamp, r);
        var h := UnnamedRecordStays(existing, binding, next, ws, stamp, false, j);
      }
    }
  }

  lemma LeavesOneRow(existing: Table, binding: int, next: nat, ws: seq<WriteRecord>, stamp: Stamp, deleteMissing: bool)
    requires Before(existing, binding, next) && Selected(ws)
    requires AtMostOneEmptyName(existing) && OneUnnamedAtMost(existing, ws, deleteMissing)
    ensures AtMostOneEmptyName(RowsAfter(existing, binding, next, ws, stamp, deleteMissing))
  {
    var t := RowsAfter(existing, binding, next, ws, stamp, deleteMissing);
    var owner := After(existing, binding, next, ws, stamp).owner;
    forall a, b | a in t && b in t && t[a].name == "" && t[b].name == "" ensures a == b {
      UnnamedRowIs(existing, binding, next, ws, stamp, deleteMissing, a);
      UnnamedRowIs(existing, binding, next, ws, stamp, deleteMissing, b);
    }
  }
}

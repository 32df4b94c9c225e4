/** Selection of the backup records to write: one per machine name and per IP, newest first. */
module VeeamSelector {
  import opened Common
  import opened Ordering

  /** The columns copied from a backup record that play no part in matching. */
  datatype BackupDetails = BackupDetails(
    backupId: Option<string>, backupFileId: Option<string>, jobName: Option<string>,
    restorePointName: Option<string>, restorePointSizeBytes: Option<int>,
    backupChainSizeBytes: Option<int>, restorePointCount: Option<int>, rawPayload: string)

  datatype BackupRecord = BackupRecord(
    machineName: string, backupAt: int, machineIp: Option<string>,
    sourceRecordId: Option<string>, details: BackupDetails)

  /** A record with its two keys: an empty name and an absent IP are not keys. */
  datatype WriteRecord = WriteRecord(
    record: BackupRecord, name: string, machineIp: Option<string>, ip: Option<string>)

  /** The name and IP normalisers, which the selection does not look into. */
  datatype Normalizer = Normalizer(name: string -> string, ip: string -> Option<string>)

  function NonEmpty(s: Option<string>): Option<string> {
    if s == Some("") then None else s
  }

  function NormalizeIp(nz: Normalizer, s: string): Option<string> {
    if s == "" then None else NonEmpty((nz.ip)(s))
  }

  /** The record's own IP if it normalises, else the machine name read as an IP. */
  function ResolveMachineIp(nz: Normalizer, r: BackupRecord): Option<string> {
    var own := if r.machineIp.Some? then NormalizeIp(nz, r.machineIp.value) else None;
    if own.Some? then own else NonEmpty((nz.ip)(r.machineName))
  }

  function Prepare(nz: Normalizer, r: BackupRecord): WriteRecord {
    var ip := ResolveMachineIp(nz, r);
    WriteRecord(r, (nz.name)(r.machineName), ip, ip)
  }

  /** Which keys a record gets: its normalised name, and its own IP unless that gives none, else its name read as an IP. */
  lemma PreparedKeys(nz: Normalizer, r: BackupRecord)
    ensures Prepare(nz, r).record == r && Prepare(nz, r).name == (nz.name)(r.machineName)
    ensures Prepare(nz, r).machineIp == Prepare(nz, r).ip && Prepare(nz, r).ip != Some("")
    ensures r.machineIp.Some? && r.machineIp != Some("") && (nz.ip)(r.machineIp.value).Some? && (nz.ip)(r.machineIp.value) != Some("") ==>
      Prepare(nz, r).ip == (nz.ip)(r.machineIp.value)
    ensures r.machineIp.None? || r.machineIp == Some("") || (nz.ip)(r.machineIp.value) in {None, Some("")} ==>
      Prepare(nz, r).ip == if (nz.ip)(r.machineName) == Some("") then None else (nz.ip)(r.machineName)
  {
  }

  function PrepareAll(nz: Normalizer, rs: seq<BackupRecord>): (ws: seq<WriteRecord>)
    ensures |ws| == |rs|
    ensures forall i :: 0 <= i < |rs| ==> ws[i] == Prepare(nz, rs[i])
  {
    seq(|rs|, i requires 0 <= i < |rs| => Prepare(nz, rs[i]))
  }

  predicate Keyed(w: WriteRecord) {
    w.name != "" || w.ip.Some?
  }

  predicate Conflict(a: WriteRecord, b: WriteRecord) {
    (a.name != "" && a.name == b.name) || (a.ip.Some? && a.ip == b.ip)
  }

  /** No record without a key, and no key held twice: what the selector promises the writer. */
  ghost predicate Selected(ws: seq<WriteRecord>) {
    && (forall i :: 0 <= i < |ws| ==> Keyed(ws[i]))
    && (forall i, j :: 0 <= i < |ws| && 0 <= j < |ws| && i != j ==> !Conflict(ws[i], ws[j]))
  }

  function SourceId(r: BackupRecord): string {
    if r.sourceRecordId.Some? then r.sourceRecordId.value else ""
  }

  /** Newest first: descending (backup_at, source_record_id or ""). */
  predicate NewerOrEqual(a: BackupRecord, b: BackupRecord) {
    a.backupAt > b.backupAt || (a.backupAt == b.backupAt && StrLe(SourceId(b), SourceId(a)))
  }

  /** Walks the records in order and keeps each keyed one that conflicts with none kept before. */
  function Greedy(ws: seq<WriteRecord>): seq<WriteRecord> {
    if ws == [] then []
    else
      var kept := Greedy(ws[..|ws| - 1]);
      var w := ws[|ws| - 1];
      if Keyed(w) && (forall k <- kept :: !Conflict(k, w)) then kept + [w] else kept
  }

  function Select(nz: Normalizer, rs: seq<BackupRecord>): seq<WriteRecord> {
    Greedy(PrepareAll(nz, Sort(NewerOrEqual, rs)))
  }

  /** The two sets hold exactly the keys of the selected records. */
  ghost predicate Tracks(selected: seq<WriteRecord>, names: set<string>, ips: set<string>) {
    && (forall n :: n in names <==> n != "" && exists k :: k in selected && k.name == n)
    && (forall p :: p in ips <==> exists k :: k in selected && k.ip == Some(p))
  }

  lemma TracksDecides(selected: seq<WriteRecord>, names: set<string>, ips: set<string>, w: WriteRecord)
    requires Tracks(selected, names, ips)
    ensures (forall k <- selected :: !Conflict(k, w)) <==>
      !(w.name != "" && w.name in names) && !(w.ip.Some? && w.ip.value in ips)
  {
  }

  lemma TracksGrows(selected: seq<WriteRecord>, names: set<string>, ips: set<string>, w: WriteRecord)
    requires Tracks(selected, names, ips)
    ensures Tracks(selected + [w], if w.name != "" then names + {w.name} else names,
                   if w.ip.Some? then ips + {w.ip.value} else ips)
  {
  }

  lemma GreedyStep(ws: seq<WriteRecord>, i: nat)
    requires i < |ws|
    ensures var kept := Greedy(ws[..i]);
      Greedy(ws[..i + 1]) == if Keyed(ws[i]) && (forall k <- kept :: !Conflict(k, ws[i])) then kept + [ws[i]] else kept
  {
    assert ws[..i + 1][..i] == ws[..i];
  }

  /** The selection loop, with the two sets of keys seen so far. */
  method BuildSnapshotWriteRecords(nz: Normalizer, records: seq<BackupRecord>) returns (selected: seq<WriteRecord>)
    ensures selected == Select(nz, records)
    ensures Selected(selected)
    ensures forall w :: w in selected ==> w.name != "" || w.ip.Some?
    ensures forall i, j :: 0 <= i < j < |selected| ==>
      (selected[i].name == "" || selected[i].name != selected[j].name) && (selected[i].ip.None? || selected[i].ip != selected[j].ip)
  {
    var ordered := Sort(NewerOrEqual, records);
    ghost var prepared := PrepareAll(nz, ordered);
    selected := [];
    var seenNames: set<string> := {};
    var seenIps: set<string> := {};
    for i := 0 to |ordered|
      invariant selected == Greedy(prepared[..i])
      invariant Tracks(selected, seenNames, seenIps)
    {
      var w := Prepare(nz, ordered[i]);
      GreedyStep(prepared, i);
      TracksDecides(selected, seenNames, seenIps, w);
      if !Keyed(w) {
        continue;
      }
      if w.name != "" && w.name in seenNames {
        continue;
      }
      if w.ip.Some? && w.ip.value in seenIps {
        continue;
      }
      TracksGrows(selected, seenNames, seenIps, w);
      selected := selected + [w];
      if w.name != "" {
        seenNames := seenNames + {w.name};
      }
      if w.ip.Some? {
        seenIps := seenIps + {w.ip.value};
      }
    }
    assert prepared[..|ordered|] == prepared;
    GreedySelected(prepared);
  }

  lemma {:induction false} GreedySelected(ws: seq<WriteRecord>)
    ensures Selected(Greedy(ws))
  {
    if ws == [] {
    } else {
      var kept := Greedy(ws[..|ws| - 1]);
      GreedySelected(ws[..|ws| - 1]);
      assert forall i :: 0 <= i < |kept| ==> kept[i] in kept;
    }
  }

  // ---- The selection is the unique greedy kernel ----

  /** The records marked by keep, in order. */
  function Pick(ws: seq<WriteRecord>, keep: seq<bool>): seq<WriteRecord>
    requires |ws| == |keep|
  {
    if ws == [] then []
    else Pick(ws[..|ws| - 1], keep[..|ws| - 1]) + (if keep[|ws| - 1] then [ws[|ws| - 1]] else [])
  }

  /** Record j, counted from the newest, yields to a kept record at least as new. */
  ghost predicate Displaced(ws: seq<WriteRecord>, keep: seq<bool>, j: nat)
    requires |ws| == |keep| && j < |ws|
  {
    exists i :: 0 <= i < j && keep[i] && Conflict(ws[i], ws[j])
  }

  /**
   * Kept records have keys and no two of them conflict; a keyed record is dropped only when it
   * conflicts with a kept record that comes before it.
   */
  ghost predicate Kernel(ws: seq<WriteRecord>, keep: seq<bool>) {
    && |keep| == |ws|
    && (forall i :: 0 <= i < |ws| && keep[i] ==> Keyed(ws[i]))
    && (forall i, j :: 0 <= i < j < |ws| && keep[i] && keep[j] ==> !Conflict(ws[i], ws[j]))
    && (forall j :: 0 <= j < |ws| && !keep[j] && Keyed(ws[j]) ==> Displaced(ws, keep, j))
  }

  lemma {:induction false} PickMembers(ws: seq<WriteRecord>, keep: seq<bool>)
    requires |ws| == |keep|
    ensures forall i :: 0 <= i < |ws| && keep[i] ==> ws[i] in Pick(ws, keep)
    ensures forall w :: w in Pick(ws, keep) ==> exists i :: 0 <= i < |ws| && keep[i] && ws[i] == w
  {
    if ws == [] {
    } else {
      var n := |ws| - 1;
      PickMembers(ws[..n], keep[..n]);
      forall w | w in Pick(ws, keep) ensures exists i :: 0 <= i < |ws| && keep[i] && ws[i] == w {
        if w in Pick(ws[..n], keep[..n]) {
          var i :| 0 <= i < n && keep[..n][i] && ws[..n][i] == w;
          assert keep[i] && ws[i] == w;
        } else {
          assert keep[n] && ws[n] == w;
        }
      }
      forall i | 0 <= i < |ws| && keep[i] ensures ws[i] in Pick(ws, keep) {
        if i < n {
          assert ws[..n][i] in Pick(ws[..n], keep[..n]);
        }
      }
    }
  }

  lemma KernelPrefix(ws: seq<WriteRecord>, keep: seq<bool>)
    requires Kernel(ws, keep) && ws != []
    ensures Kernel(ws[..|ws| - 1], keep[..|ws| - 1])
  {
  }

  /** Every kernel picks out exactly what the loop selects. */
  lemma {:induction false} KernelIsGreedy(ws: seq<WriteRecord>, keep: seq<bool>)
    requires Kernel(ws, keep)
    ensures Pick(ws, keep) == Greedy(ws)
  {
    if ws == [] {
    } else {
      var n := |ws| - 1;
      var kept := Pick(ws[..n], keep[..n]);
      KernelPrefix(ws, keep);
      KernelIsGreedy(ws[..n], keep[..n]);
      PickMembers(ws[..n], keep[..n]);
      if keep[n] {
        forall k | k in kept ensures !Conflict(k, ws[n]) {
          var i :| 0 <= i < n && keep[..n][i] && ws[..n][i] == k;
          assert keep[i] && keep[n];
        }
      } else if Keyed(ws[n]) {
        assert Displaced(ws, keep, n);
        var i :| 0 <= i < n && keep[i] && Conflict(ws[i], ws[n]);
        assert keep[..n][i] && ws[..n][i] == ws[i];
        assert ws[i] in kept;
      }
    }
  }

  lemma KernelExtend(ws: seq<WriteRecord>, before: seq<bool>, takes: bool)
    requires ws != [] && Kernel(ws[..|ws| - 1], before)
    requires takes <==> Keyed(ws[|ws| - 1]) && !Displaced(ws, before + [takes], |ws| - 1)
    ensures Kernel(ws, before + [takes])
  {
  }

  /** Every list of records has a kernel. */
  lemma {:induction false} KernelExists(ws: seq<WriteRecord>) returns (keep: seq<bool>)
    ensures Kernel(ws, keep)
  {
    if ws == [] {
      keep := [];
    } else {
      var n := |ws| - 1;
      var before := KernelExists(ws[..n]);
      var takes := Keyed(ws[n]) && !exists i :: 0 <= i < n && before[i] && Conflict(ws[i], ws[n]);
      keep := before + [takes];
      assert Displaced(ws, keep, n) <==> exists i :: 0 <= i < n && before[i] && Conflict(ws[i], ws[n]) by {
        assert forall i :: 0 <= i < n ==> keep[i] == before[i];
      }
      KernelExtend(ws, before, takes);
    }
  }

  lemma KernelDecides(ws: seq<WriteRecord>, keep: seq<bool>)
    requires Kernel(ws, keep) && ws != []
    ensures keep[|ws| - 1] <==> Keyed(ws[|ws| - 1]) && !Displaced(ws, keep, |ws| - 1)
  {
  }

  lemma DisplacedByPrefix(ws: seq<WriteRecord>, a: seq<bool>, b: seq<bool>, n: nat)
    requires |a| == |b| == |ws| && n < |ws| && a[..n] == b[..n]
    requires Displaced(ws, a, n)
    ensures Displaced(ws, b, n)
  {
  }

  /** The kernel is unique: two of them mark the same positions. */
  lemma {:induction false} KernelUnique(ws: seq<WriteRecord>, a: seq<bool>, b: seq<bool>)
    requires Kernel(ws, a) && Kernel(ws, b)
    ensures a == b
  {
    if ws == [] {
    } else {
      var n := |ws| - 1;
      assert a[..n] == b[..n] by {
        KernelPrefix(ws, a);
        KernelPrefix(ws, b);
        KernelUnique(ws[..n], a[..n], b[..n]);
      }
      assert a[n] == b[n] by {
        KernelDecides(ws, a);
        KernelDecides(ws, b);
        if Displaced(ws, a, n) {
          DisplacedByPrefix(ws, a, b, n);
        } else if Displaced(ws, b, n) {
          DisplacedByPrefix(ws, b, a, n);
        }
      }
      assert a == a[..n] + [a[n]] && b == b[..n] + [b[n]];
    }
  }

  /** What the selector returns: the records of the one kernel of the newest-first list. */
  lemma SelectIsTheKernel(nz: Normalizer, rs: seq<BackupRecord>) returns (keep: seq<bool>)
    ensures Kernel(PrepareAll(nz, Sort(NewerOrEqual, rs)), keep)
    ensures forall other :: Kernel(PrepareAll(nz, Sort(NewerOrEqual, rs)), other) ==> other == keep
    ensures Pick(PrepareAll(nz, Sort(NewerOrEqual, rs)), keep) == Select(nz, rs)
  {
    var ws := PrepareAll(nz, Sort(NewerOrEqual, rs));
    keep := KernelExists(ws);
    KernelIsGreedy(ws, keep);
    forall other | Kernel(ws, other) ensures other == keep {
      KernelUnique(ws, other, keep);
    }
  }

  // ---- Order independence and idempotence ----

  /** The selected records come with their times descending. */
  lemma SelectedDescend(nz: Normalizer, rs: seq<BackupRecord>)
    ensures var ws := Select(nz, rs);
      && (forall w :: w in ws ==> w.record in rs && w == Prepare(nz, w.record))
      && (forall i, j :: 0 <= i < j < |ws| ==> ws[i].record.backupAt >= ws[j].record.backupAt)
  {
    var sorted := Sort(NewerOrEqual, rs);
    NewerOrEqualPreorder();
    SortSorted(NewerOrEqual, rs);
    SortPermutes(NewerOrEqual, rs);
    GreedyOrdered(nz, sorted);
    var ws := Select(nz, rs);
    forall i, j | 0 <= i < j < |ws| ensures ws[i].record.backupAt >= ws[j].record.backupAt {
      assert NewerOrEqual(Records(ws)[i], Records(ws)[j]);
    }
  }

  /** A missing source id counts as the empty string. */
  predicate SourceIdLe(a: Option<string>, b: Option<string>) {
    match (a, b)
    case (Some(x), Some(y)) => StrLe(x, y)
    case (None, _) => true
    case (Some(x), None) => x == ""
  }

  /** They share a name or an IP, and w was backed up later, or at the same time with a source id at least as great. */
  predicate YieldsTo(dropped: WriteRecord, w: WriteRecord) {
    && ((w.name != "" && w.name == dropped.name) || (w.ip.Some? && w.ip == dropped.ip))
    && (w.record.backupAt > dropped.record.backupAt ||
        (w.record.backupAt == dropped.record.backupAt && SourceIdLe(dropped.record.sourceRecordId, w.record.sourceRecordId)))
  }

  /**
   * Every record with a key is selected or yields to a selected one that shares its name or its IP and was
   * backed up later, or at the same time with a source id at least as great.
   */
  lemma YieldsToNewer(nz: Normalizer, rs: seq<BackupRecord>, r: BackupRecord) returns (w: WriteRecord)
    requires r in rs
    requires Prepare(nz, r).name != "" || Prepare(nz, r).ip.Some?
    ensures w in Select(nz, rs)
    ensures w == Prepare(nz, r) || YieldsTo(Prepare(nz, r), w)
  {
    var sorted := Sort(NewerOrEqual, rs);
    NewerOrEqualPreorder();
    SortSorted(NewerOrEqual, rs);
    SortPermutes(NewerOrEqual, rs);
    assert r in multiset(sorted);
    w := SortedYields(nz, sorted, r);
  }

  lemma SortedYields(nz: Normalizer, sorted: seq<BackupRecord>, r: BackupRecord) returns (w: WriteRecord)
    requires Sorted(NewerOrEqual, sorted) && r in sorted && Keyed(Prepare(nz, r))
    ensures w in Greedy(PrepareAll(nz, sorted))
    ensures w == Prepare(nz, r) || YieldsTo(Prepare(nz, r), w)
  {
    var keep := KernelExists(PrepareAll(nz, sorted));
    KernelIsGreedy(PrepareAll(nz, sorted), keep);
    var j :| 0 <= j < |sorted| && sorted[j] == r;
    w := KernelYields(nz, sorted, PrepareAll(nz, sorted), keep, j);
  }

  lemma KernelYields(nz: Normalizer, sorted: seq<BackupRecord>, ws: seq<WriteRecord>, keep: seq<bool>, j: nat)
    returns (w: WriteRecord)
    requires Sorted(NewerOrEqual, sorted) && ws == PrepareAll(nz, sorted) && Kernel(ws, keep) && j < |sorted|
    requires Keyed(ws[j])
    ensures w in Pick(ws, keep) && (w == ws[j] || YieldsTo(ws[j], w))
  {
    PickMembers(ws, keep);
    if keep[j] {
      w := ws[j];
    } else {
      assert Displaced(ws, keep, j);
      var i :| 0 <= i < j && keep[i] && Conflict(ws[i], ws[j]);
      EarlierIsNewer(nz, sorted[i], sorted[j]);
      w := ws[i];
    }
  }

  lemma EarlierIsNewer(nz: Normalizer, a: BackupRecord, b: BackupRecord)
    requires NewerOrEqual(a, b) && Conflict(Prepare(nz, a), Prepare(nz, b))
    ensures YieldsTo(Prepare(nz, b), Prepare(nz, a))
  {
  }

  lemma NewerOrEqualPreorder()
    ensures TotalPreorder(NewerOrEqual)
  {
    forall a, b ensures NewerOrEqual(a, b) || NewerOrEqual(b, a) {
      StrLeTotal(SourceId(a), SourceId(b));
    }
    forall a, b, c | NewerOrEqual(a, b) && NewerOrEqual(b, c) ensures NewerOrEqual(a, c) {
      if a.backupAt == b.backupAt == c.backupAt {
        StrLeTransitive(SourceId(c), SourceId(b), SourceId(a));
      }
    }
  }

  /** The input order does not matter as long as equal sort keys mean equal records. */
  lemma SelectOrderIndependent(nz: Normalizer, rs: seq<BackupRecord>, shuffled: seq<BackupRecord>)
    requires multiset(rs) == multiset(shuffled)
    requires forall a, b ::
      a in rs && b in rs && a.backupAt == b.backupAt && SourceId(a) == SourceId(b) ==> a == b
    ensures Select(nz, rs) == Select(nz, shuffled)
  {
    NewerOrEqualPreorder();
    forall a, b | a in rs && b in rs && NewerOrEqual(a, b) && NewerOrEqual(b, a) ensures a == b {
      StrLeAntisymmetric(SourceId(a), SourceId(b));
    }
    SortOrderIndependent(NewerOrEqual, rs, shuffled);
  }

  function Records(ws: seq<WriteRecord>): (rs: seq<BackupRecord>)
    ensures |rs| == |ws|
    ensures forall i :: 0 <= i < |ws| ==> rs[i] == ws[i].record
  {
    seq(|ws|, i requires 0 <= i < |ws| => ws[i].record)
  }

  /** The selection of sorted records is sorted, and each selected record is one of them, prepared. */
  lemma {:induction false} GreedyOrdered(nz: Normalizer, rs: seq<BackupRecord>)
    requires Sorted(NewerOrEqual, rs)
    ensures Sorted(NewerOrEqual, Records(Greedy(PrepareAll(nz, rs))))
    ensures forall w :: w in Greedy(PrepareAll(nz, rs)) ==> w.record in rs && w == Prepare(nz, w.record)
  {
    if rs == [] {
    } else {
      var n := |rs| - 1;
      GreedyOrdered(nz, rs[..n]);
      assert PrepareAll(nz, rs)[..n] == PrepareAll(nz, rs[..n]);
      var before := Greedy(PrepareAll(nz, rs[..n]));
      var all := Greedy(PrepareAll(nz, rs));
      forall w | w in before ensures NewerOrEqual(w.record, rs[n]) {
        assert w.record in rs[..n];
      }
      forall i, j | 0 <= i < j < |all| ensures NewerOrEqual(all[i].record, all[j].record) {
        if j < |before| {
          assert NewerOrEqual(Records(before)[i], Records(before)[j]);
        } else {
          assert all[i] in before;
        }
      }
    }
  }

  lemma {:induction false} GreedyKeepsSelected(ws: seq<WriteRecord>)
    requires Selected(ws)
    ensures Greedy(ws) == ws
  {
    if ws == [] {
    } else {
      var n := |ws| - 1;
      GreedyKeepsSelected(ws[..n]);
      assert ws == ws[..n] + [ws[n]];
    }
  }

  /** Selecting from what was selected changes nothing. */
  lemma SelectIdempotent(nz: Normalizer, rs: seq<BackupRecord>)
    ensures Select(nz, Records(Select(nz, rs))) == Select(nz, rs)
  {
    NewerOrEqualPreorder();
    var ordered := Sort(NewerOrEqual, rs);
    SortSorted(NewerOrEqual, rs);
    GreedyOrdered(nz, ordered);
    var chosen := Select(nz, rs);
    SortOfSorted(NewerOrEqual, Records(chosen));
    forall i | 0 <= i < |chosen| ensures PrepareAll(nz, Records(chosen))[i] == chosen[i] {
      assert chosen[i] in chosen;
    }
    assert PrepareAll(nz, Records(chosen)) == chosen;
    GreedySelected(PrepareAll(nz, ordered));
    GreedyKeepsSelected(chosen);
  }
}

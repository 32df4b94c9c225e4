/** The two ways to find an instance's best snapshot: one instance at a time, and batched through dictionaries. */
module VeeamReader {
  import opened Common
  import opened VeeamSelector
  import opened VeeamWriter
  import opened VeeamHistory

  datatype Binding = Binding(id: int, domains: seq<string>, name: string, serverHost: string)

  datatype Instance = Instance(id: int, name: string, host: Option<string>)

  /** The candidate builders, which the lookups do not look into. */
  datatype Matcher = Matcher(names: (string, seq<string>) -> seq<string>, ips: Option<string> -> seq<string>)

  function NameCandidates(mt: Matcher, inst: Instance, b: Binding): seq<string> {
    (mt.names)(inst.name, b.domains)
  }

  function IpCandidates(mt: Matcher, inst: Instance): seq<string> {
    (mt.ips)(inst.host)
  }

  datatype Match = Match(row: nat, binding: Binding, names: seq<string>, ips: seq<string>)

  // ---- What both paths look for ----

  /** The rows of a binding with one of the names or one of the IPs. */
  function Matching(t: Table, binding: int, names: seq<string>, ips: seq<string>): set<nat> {
    set r | r in t && t[r].binding == binding && (t[r].name in names || (t[r].ip.Some? && t[r].ip.value in ips))
  }

  /** The newer of two rows by (latest_backup_at, id). */
  predicate Newer(t: Table, a: nat, b: nat)
    requires a in t && b in t
  {
    t[a].latestBackupAt > t[b].latestBackupAt || (t[a].latestBackupAt == t[b].latestBackupAt && a > b)
  }

  ghost predicate IsNewest(t: Table, rows: set<nat>, best: Option<nat>)
    requires rows <= t.Keys
  {
    match best
    case None => rows == {}
    case Some(r) => r in rows && forall other :: other in rows && other != r ==> Newer(t, r, other)
  }

  lemma NewestWithOneMore(t: Table, rows: set<nat>, best: Option<nat>, r: nat)
    requires rows <= t.Keys && IsNewest(t, rows, best) && r in t && r !in rows
    ensures IsNewest(t, rows + {r}, if best.None? || Newer(t, r, best.value) then Some(r) else best)
  {
  }

  /** The newest of a set of rows. */
  ghost function Newest(t: Table, rows: set<nat>): (best: Option<nat>)
    requires rows <= t.Keys
    ensures IsNewest(t, rows, best)
  {
    if rows == {} then None
    else
      var r :| r in rows;
      var rest := Newest(t, rows - {r});
      NewestWithOneMore(t, rows - {r}, rest, r);
      assert rows - {r} + {r} == rows;
      if rest.None? || Newer(t, r, rest.value) then Some(r) else rest
  }

  /** Primary keys break every tie, so there is only one newest row. */
  lemma NewestUnique(t: Table, rows: set<nat>, best: Option<nat>)
    requires rows <= t.Keys && IsNewest(t, rows, best)
    ensures best == Newest(t, rows)
  {
  }

  /** No row of the set has a later backup, nor the same time and a greater id. */
  lemma NewestInFields(t: Table, rows: set<nat>, best: Option<nat>)
    requires rows <= t.Keys && IsNewest(t, rows, best)
    ensures best.Some? ==> best.value in rows
    ensures forall r :: r in rows ==>
      best.Some? && (t[r].latestBackupAt < t[best.value].latestBackupAt
        || (t[r].latestBackupAt == t[best.value].latestBackupAt && r <= best.value))
  {
  }

  ghost function BestInBinding(t: Table, mt: Matcher, inst: Instance, b: Binding): Option<nat> {
    Newest(t, Matching(t, b.id, NameCandidates(mt, inst, b), IpCandidates(mt, inst)))
  }

  /** Going through the bindings in order, a later binding's best row wins only if it is newer. */
  ghost function Lookup(t: Table, mt: Matcher, inst: Instance, bindings: seq<Binding>): (m: Option<Match>)
    ensures m.Some? ==> m.value.row in t
  {
    if bindings == [] then None
    else
      var b := bindings[|bindings| - 1];
      var before := Lookup(t, mt, inst, bindings[..|bindings| - 1]);
      var row := BestInBinding(t, mt, inst, b);
      if row.Some? && (before.None? || Newer(t, row.value, before.value.row))
      then Some(Match(row.value, b, NameCandidates(mt, inst, b), IpCandidates(mt, inst)))
      else before
  }

  /** Some binding has the row, under a candidate name or a candidate IP of the instance. */
  ghost predicate MatchedBy(t: Table, mt: Matcher, inst: Instance, bindings: seq<Binding>, r: nat) {
    r in t && exists i ::
      && 0 <= i < |bindings| && t[r].binding == bindings[i].id
      && (t[r].name in (mt.names)(inst.name, bindings[i].domains) || (t[r].ip.Some? && t[r].ip.value in (mt.ips)(inst.host)))
  }

  /** m is the newest of all rows that a binding matches, with the binding it belongs to; None if there is none. */
  ghost predicate FindsNewest(t: Table, mt: Matcher, inst: Instance, bindings: seq<Binding>, m: Option<Match>) {
    match m
    case None => forall r :: !MatchedBy(t, mt, inst, bindings, r)
    case Some(found) =>
      && found.row in t && MatchedBy(t, mt, inst, bindings, found.row)
      && found.binding in bindings && t[found.row].binding == found.binding.id
      && found.names == (mt.names)(inst.name, found.binding.domains) && found.ips == (mt.ips)(inst.host)
      && forall r :: r in t && MatchedBy(t, mt, inst, bindings, r) ==>
        t[r].latestBackupAt < t[found.row].latestBackupAt
        || (t[r].latestBackupAt == t[found.row].latestBackupAt && r <= found.row)
  }

  lemma FindsNewestStep(t: Table, mt: Matcher, inst: Instance, bindings: seq<Binding>, before: Option<Match>, row: Option<nat>)
    requires bindings != [] && FindsNewest(t, mt, inst, bindings[..|bindings| - 1], before)
    requires var b := bindings[|bindings| - 1];
      row == Newest(t, Matching(t, b.id, NameCandidates(mt, inst, b), IpCandidates(mt, inst)))
    ensures var b := bindings[|bindings| - 1];
      FindsNewest(t, mt, inst, bindings,
        if row.Some? && (before.None? || Newer(t, row.value, before.value.row))
        then Some(Match(row.value, b, NameCandidates(mt, inst, b), IpCandidates(mt, inst))) else before)
  {
    var n := |bindings| - 1;
    var here := Matching(t, bindings[n].id, NameCandidates(mt, inst, bindings[n]), IpCandidates(mt, inst));
    assert IsNewest(t, here, row);
    forall r ensures MatchedBy(t, mt, inst, bindings, r) <==> MatchedBy(t, mt, inst, bindings[..n], r) || r in here {
      MatchedByStep(t, mt, inst, bindings, r);
    }
  }

  /**
   * The lookup returns the newest of all rows that any enabled binding matches, with the binding the
   * row belongs to, and nothing exactly when no binding matches any row.
   */
  lemma {:induction false} LookupIsNewest(t: Table, mt: Matcher, inst: Instance, bindings: seq<Binding>)
    ensures FindsNewest(t, mt, inst, bindings, Lookup(t, mt, inst, bindings))
  {
    if bindings == [] {
    } else {
      var n := |bindings| - 1;
      LookupIsNewest(t, mt, inst, bindings[..n]);
      FindsNewestStep(t, mt, inst, bindings, Lookup(t, mt, inst, bindings[..n]), BestInBinding(t, mt, inst, bindings[n]));
    }
  }

  lemma MatchedByStep(t: Table, mt: Matcher, inst: Instance, bindings: seq<Binding>, r: nat)
    requires bindings != []
    ensures var b := bindings[|bindings| - 1];
      MatchedBy(t, mt, inst, bindings, r) <==>
        MatchedBy(t, mt, inst, bindings[..|bindings| - 1], r)
        || r in Matching(t, b.id, NameCandidates(mt, inst, b), IpCandidates(mt, inst))
  {
    var n := |bindings| - 1;
    assert forall i | 0 <= i < n :: bindings[..n][i] == bindings[i];
    if MatchedBy(t, mt, inst, bindings[..n], r) {
      var i :| 0 <= i < n && t[r].binding == bindings[..n][i].id &&
        (t[r].name in (mt.names)(inst.name, bindings[..n][i].domains) || (t[r].ip.Some? && t[r].ip.value in (mt.ips)(inst.host)));
      assert t[r].binding == bindings[i].id;
    }
    if r in Matching(t, bindings[n].id, NameCandidates(mt, inst, bindings[n]), IpCandidates(mt, inst)) {
      assert t[r].binding == bindings[n].id;
    }
  }

  // ---- One instance at a time ----

  /** The newest of the rows, however the query orders them. */
  method MaxRow(t: Table, rows: set<nat>) returns (best: Option<nat>)
    requires rows <= t.Keys
    ensures best == Newest(t, rows)
  {
    best := None;
    var todo := rows;
    while todo != {}
      invariant todo <= rows
      invariant IsNewest(t, rows - todo, best)
    {
      var r :| r in todo;
      NewestWithOneMore(t, rows - todo, best, r);
      assert rows - (todo - {r}) == rows - todo + {r};
      if best.None? || Newer(t, r, best.value) {
        best := Some(r);
      }
      todo := todo - {r};
    }
    assert rows - todo == rows;
    NewestUnique(t, rows, best);
  }

  method FetchBestSnapshotForCandidate(t: Table, binding: int, names: seq<string>, ips: seq<string>) returns (best: Option<nat>)
    ensures best == Newest(t, Matching(t, binding, names, ips))
    ensures best.Some? ==> best.value in t && t[best.value].binding == binding
    ensures forall r :: r in t && t[r].binding == binding && (t[r].name in names || (t[r].ip.Some? && t[r].ip.value in ips)) ==>
      best.Some? && (t[r].latestBackupAt < t[best.value].latestBackupAt
        || (t[r].latestBackupAt == t[best.value].latestBackupAt && r <= best.value))
  {
    var nameRows := set r | r in t && t[r].binding == binding && t[r].name in names;
    var ipRows := set r | r in t && t[r].binding == binding && t[r].ip.Some? && t[r].ip.value in ips;
    assert nameRows + ipRows == Matching(t, binding, names, ips);
    best := MaxRow(t, nameRows + ipRows);
    NewestInFields(t, nameRows + ipRows, best);
  }

  /** The single lookup: bindings without candidates are left out first, then the best match is kept. */
  method FindBestSnapshotMatch(t: Table, mt: Matcher, inst: Instance, bindings: seq<Binding>) returns (best: Option<Match>)
    ensures best == Lookup(t, mt, inst, bindings)
    ensures FindsNewest(t, mt, inst, bindings, best)
  {
    LookupIsNewest(t, mt, inst, bindings);
    best := None;
    for i := 0 to |bindings|
      invariant best == Lookup(t, mt, inst, bindings[..i])
    {
      var b := bindings[i];
      assert bindings[..i + 1][..i] == bindings[..i];
      var names := NameCandidates(mt, inst, b);
      var ips := IpCandidates(mt, inst);
      if names == [] && ips == [] {
        assert Matching(t, b.id, names, ips) == {};
        continue;
      }
      var row := FetchBestSnapshotForCandidate(t, b.id, names, ips);
      if row.Some? && (best.None? || Newer(t, row.value, best.value.row)) {
        best := Some(Match(row.value, b, names, ips));
      }
    }
    assert bindings[..|bindings|] == bindings;
  }

  // ---- Batched ----

  /** A dictionary by name over rows: each key leads to a row that has it, and every row's key is present. */
  ghost predicate NameDict(t: Table, rows: set<nat>, m: map<string, nat>)
    requires rows <= t.Keys
  {
    && (forall n :: n in m ==> m[n] in rows && t[m[n]].name == n)
    && (forall r :: r in rows ==> t[r].name in m)
  }

  ghost predicate IpDict(t: Table, rows: set<nat>, m: map<string, nat>)
    requires rows <= t.Keys
  {
    && (forall p :: p in m ==> m[p] in rows && t[m[p]].ip == Some(p))
    && (forall r :: r in rows && t[r].ip.Some? ==> t[r].ip.value in m)
  }

  /** Keyed by name, in whatever order the query returns the rows; a later row with the same name wins. */
  method IndexByName(t: Table, rows: set<nat>) returns (m: map<string, nat>)
    requires rows <= t.Keys
    ensures NameDict(t, rows, m)
  {
    m := map[];
    var todo := rows;
    while todo != {}
      invariant todo <= rows
      invariant NameDict(t, rows - todo, m)
    {
      var r :| r in todo;
      m := m[t[r].name := r];
      todo := todo - {r};
    }
    assert rows - todo == rows;
  }

  method IndexByIp(t: Table, rows: set<nat>) returns (m: map<string, nat>)
    requires rows <= t.Keys
    ensures IpDict(t, rows, m)
  {
    m := map[];
    var todo := rows;
    while todo != {}
      invariant todo <= rows
      invariant IpDict(t, rows - todo, m)
    {
      var r :| r in todo;
      if t[r].ip.Some? {
        m := m[t[r].ip.value := r];
      }
      todo := todo - {r};
    }
    assert rows - todo == rows;
  }

  /** The rows the dictionaries give for an instance's candidates. */
  function CollectMatchedRows(names: seq<string>, ips: seq<string>, byName: map<string, nat>, byIp: map<string, nat>): set<nat> {
    (set n | n in names && n in byName :: byName[n]) + (set p | p in ips && p in byIp :: byIp[p])
  }

  ghost predicate Superset(s: set<string>, xs: seq<string>) {
    forall x :: x in xs ==> x in s
  }

  function NameRows(t: Table, binding: int, names: set<string>): set<nat> {
    set r | r in t && t[r].binding == binding && t[r].name in names
  }

  function IpRows(t: Table, binding: int, ips: set<string>): set<nat> {
    set r | r in t && t[r].binding == binding && t[r].ip.Some? && t[r].ip.value in ips
  }

  /**
   * The dictionaries lose nothing, because the table's names and IPs are unique: for each instance in
   * the batch they give exactly the rows the single lookup would query.
   */
  lemma DictionariesLossless(t: Table, binding: int, allNames: set<string>, allIps: set<string>,
                             byName: map<string, nat>, byIp: map<string, nat>, names: seq<string>, ips: seq<string>)
    requires UniqueConstraints(t)
    requires NameDict(t, NameRows(t, binding, allNames), byName) && IpDict(t, IpRows(t, binding, allIps), byIp)
    requires Superset(allNames, names) && Superset(allIps, ips)
    ensures CollectMatchedRows(names, ips, byName, byIp) == Matching(t, binding, names, ips)
  {
  }

  /** With two rows of one name the dictionary may keep the older one, and the batch would return it. */
  lemma DuplicateNameMisleadsBatch(t: Table, binding: int, older: nat, newer: nat)
    requires t.Keys == {older, newer} && older != newer
    requires t[older].binding == binding && t[newer].binding == binding
    requires t[older].name == t[newer].name && t[older].ip.None? && t[newer].ip.None?
    requires Newer(t, newer, older)
    ensures !UniqueConstraints(t)
    ensures NameDict(t, NameRows(t, binding, {t[older].name}), map[t[older].name := older])
    ensures Newest(t, CollectMatchedRows([t[older].name], [], map[t[older].name := older], map[])) == Some(older)
    ensures Newest(t, Matching(t, binding, [t[older].name], [])) == Some(newer)
  {
    var name := t[older].name;
    assert t[older].name == t[newer].name;
    assert CollectMatchedRows([name], [], map[name := older], map[]) == {older} by {
      assert name in [name];
    }
    assert Matching(t, binding, [name], []) == {older, newer} by {
      assert name in [name];
    }
    NewestUnique(t, {older}, Some(older));
    NewestUnique(t, {older, newer}, Some(newer));
  }

  /** The candidates of all instances, gathered for one query by name and one by IP. */
  method GatherCandidates(mt: Matcher, instances: seq<Instance>, b: Binding) returns (names: set<string>, ips: set<string>)
    ensures forall inst :: inst in instances ==>
      Superset(names, NameCandidates(mt, inst, b)) && Superset(ips, IpCandidates(mt, inst))
    ensures names == {} && ips == {} ==> forall inst :: inst in instances ==>
      NameCandidates(mt, inst, b) == [] && IpCandidates(mt, inst) == []
  {
    names, ips := {}, {};
    for i := 0 to |instances|
      invariant forall inst :: inst in instances[..i] ==>
        Superset(names, NameCandidates(mt, inst, b)) && Superset(ips, IpCandidates(mt, inst))
      invariant names == {} && ips == {} ==> forall inst :: inst in instances[..i] ==>
        NameCandidates(mt, inst, b) == [] && IpCandidates(mt, inst) == []
    {
      var inst := instances[i];
      var ns, ps := NameCandidates(mt, inst, b), IpCandidates(mt, inst);
      names := names + set n | n in ns;
      ips := ips + set p | p in ps;
      assert ns != [] ==> ns[0] in names;
      assert ps != [] ==> ps[0] in ips;
    }
    assert instances[..|instances|] == instances;
  }

  function Ids(instances: seq<Instance>): set<int> {
    set inst | inst in instances :: inst.id
  }

  ghost predicate DistinctIds(instances: seq<Instance>) {
    forall i, j :: 0 <= i < j < |instances| ==> instances[i].id != instances[j].id
  }

  /** The summary has, for each instance, exactly what the single lookup over these bindings finds. */
  ghost predicate Summarises(t: Table, mt: Matcher, instances: seq<Instance>, bindings: seq<Binding>, summary: map<int, Match>) {
    && (forall i :: 0 <= i < |instances| ==>
          Get(summary, instances[i].id) == Lookup(t, mt, instances[i], bindings))
    && (forall id :: id !in Ids(instances) ==> Get(summary, id).None?)
  }

  /** One instance's turn within a binding. */
  method SummariseInstance(t: Table, mt: Matcher, inst: Instance, bindings: seq<Binding>, summary: map<int, Match>,
                           allNames: set<string>, allIps: set<string>, byName: map<string, nat>, byIp: map<string, nat>)
    returns (updated: map<int, Match>)
    requires UniqueConstraints(t) && bindings != []
    requires var b := bindings[|bindings| - 1];
             && NameDict(t, NameRows(t, b.id, allNames), byName) && IpDict(t, IpRows(t, b.id, allIps), byIp)
             && Superset(allNames, NameCandidates(mt, inst, b)) && Superset(allIps, IpCandidates(mt, inst))
    requires Get(summary, inst.id) == Lookup(t, mt, inst, bindings[..|bindings| - 1])
    ensures Get(updated, inst.id) == Lookup(t, mt, inst, bindings)
    ensures forall id :: id != inst.id ==> Get(updated, id) == Get(summary, id)
  {
    updated := summary;
    var b := bindings[|bindings| - 1];
    var names, ips := NameCandidates(mt, inst, b), IpCandidates(mt, inst);
    DictionariesLossless(t, b.id, allNames, allIps, byName, byIp, names, ips);
    var row := MaxRow(t, CollectMatchedRows(names, ips, byName, byIp));
    if row.Some? && (inst.id !in updated || Newer(t, row.value, updated[inst.id].row)) {
      updated := updated[inst.id := Match(row.value, b, names, ips)];
    }
  }

  /** The first i instances have been looked up in all the bindings, the others in all but the last. */
  ghost predicate Partway(t: Table, mt: Matcher, instances: seq<Instance>, bindings: seq<Binding>, summary: map<int, Match>, i: nat)
    requires bindings != [] && i <= |instances|
  {
    && (forall j :: 0 <= j < i ==> Get(summary, instances[j].id) == Lookup(t, mt, instances[j], bindings))
    && (forall j :: i <= j < |instances| ==>
          Get(summary, instances[j].id) == Lookup(t, mt, instances[j], bindings[..|bindings| - 1]))
    && (forall id :: id !in Ids(instances) ==> Get(summary, id).None?)
  }

  lemma PartwayStep(t: Table, mt: Matcher, instances: seq<Instance>, bindings: seq<Binding>, i: nat,
                    summary: map<int, Match>, updated: map<int, Match>)
    requires DistinctIds(instances) && bindings != [] && i < |instances| && Partway(t, mt, instances, bindings, summary, i)
    requires Get(updated, instances[i].id) == Lookup(t, mt, instances[i], bindings)
    requires forall id :: id != instances[i].id ==> Get(updated, id) == Get(summary, id)
    ensures Partway(t, mt, instances, bindings, updated, i + 1)
  {
    forall j | 0 <= j < i + 1 ensures Get(updated, instances[j].id) == Lookup(t, mt, instances[j], bindings) {
      if j < i {
        assert instances[j].id != instances[i].id;
      }
    }
    forall j | i + 1 <= j < |instances|
      ensures Get(updated, instances[j].id) == Lookup(t, mt, instances[j], bindings[..|bindings| - 1])
    {
      assert instances[j].id != instances[i].id;
    }
    forall id | id !in Ids(instances) ensures Get(updated, id).None? {
      assert instances[i] in instances;
    }
  }

  /** A binding for which no instance has a candidate changes no lookup. */
  lemma NothingToLookUp(t: Table, mt: Matcher, instances: seq<Instance>, bindings: seq<Binding>, summary: map<int, Match>)
    requires bindings != [] && Summarises(t, mt, instances, bindings[..|bindings| - 1], summary)
    requires var b := bindings[|bindings| - 1];
      forall inst :: inst in instances ==> NameCandidates(mt, inst, b) == [] && IpCandidates(mt, inst) == []
    ensures Summarises(t, mt, instances, bindings, summary)
  {
    var b := bindings[|bindings| - 1];
    forall i | 0 <= i < |instances| ensures Get(summary, instances[i].id) == Lookup(t, mt, instances[i], bindings) {
      assert instances[i] in instances;
      assert Matching(t, b.id, NameCandidates(mt, instances[i], b), IpCandidates(mt, instances[i])) == {};
    }
  }

  /** One binding's turn of the batch. */
  method SummariseBinding(t: Table, mt: Matcher, instances: seq<Instance>, bindings: seq<Binding>, summary: map<int, Match>)
    returns (updated: map<int, Match>)
    requires UniqueConstraints(t) && DistinctIds(instances) && bindings != []
    requires Summarises(t, mt, instances, bindings[..|bindings| - 1], summary)
    ensures Summarises(t, mt, instances, bindings, updated)
  {
    updated := summary;
    var b := bindings[|bindings| - 1];
    var allNames, allIps := GatherCandidates(mt, instances, b);
    if allNames == {} && allIps == {} {
      NothingToLookUp(t, mt, instances, bindings, summary);
      return;
    }
    var byName := IndexByName(t, NameRows(t, b.id, allNames));
    var byIp := IndexByIp(t, IpRows(t, b.id, allIps));
    for i := 0 to |instances|
      invariant Partway(t, mt, instances, bindings, updated, i)
    {
      assert instances[i] in instances;
      var next := SummariseInstance(t, mt, instances[i], bindings, updated, allNames, allIps, byName, byIp);
      PartwayStep(t, mt, instances, bindings, i, updated, next);
      updated := next;
    }
  }

  /**
   * The batched lookup: on a table that respects the unique constraints it returns, for instances with
   * distinct ids, the row and binding the single lookup returns, and leaves out exactly the others.
   */
  method FetchBackupSummaryMap(t: Table, mt: Matcher, instances: seq<Instance>, bindings: seq<Binding>) returns (summary: map<int, Match>)
    requires UniqueConstraints(t) && DistinctIds(instances)
    ensures Summarises(t, mt, instances, bindings, summary)
    ensures forall i :: 0 <= i < |instances| ==> FindsNewest(t, mt, instances[i], bindings, Get(summary, instances[i].id))
  {
    forall i | 0 <= i < |instances| ensures FindsNewest(t, mt, instances[i], bindings, Lookup(t, mt, instances[i], bindings)) {
      LookupIsNewest(t, mt, instances[i], bindings);
    }
    summary := map[];
    if instances == [] || bindings == [] {
      return;
    }
    for i := 0 to |bindings|
      invariant Summarises(t, mt, instances, bindings[..i], summary)
    {
      assert bindings[..i + 1][..i] == bindings[..i];
      summary := SummariseBinding(t, mt, instances, bindings[..i + 1], summary);
    }
    assert bindings[..|bindings|] == bindings;
  }

  /**
   * End to end: after any history of replaces, upserts and clears over any bindings, starting from a
   * table that respects its constraints, the batch and the single lookups agree on every instance.
   */
  method ReadPathsAgree(nz: Normalizer, ghost start: Database, ghost history: seq<Op>, t: Table,
                        mt: Matcher, instances: seq<Instance>, bindings: seq<Binding>)
    returns (batch: map<int, Match>, singles: seq<Option<Match>>)
    requires VeeamHistory.Valid(start) && t == Run(nz, start, history).table && DistinctIds(instances)
    ensures |singles| == |instances|
    ensures forall i :: 0 <= i < |instances| ==> Get(batch, instances[i].id) == singles[i]
    ensures Summarises(t, mt, instances, bindings, batch)
  {
    batch := FetchBackupSummaryMap(t, mt, instances, bindings);
    singles := [];
    for i := 0 to |instances|
      invariant |singles| == i
      invariant forall j :: 0 <= j < i ==> singles[j] == Lookup(t, mt, instances[j], bindings)
    {
      var one := FindBestSnapshotMatch(t, mt, instances[i], bindings);
      singles := singles + [one];
    }
  }
}

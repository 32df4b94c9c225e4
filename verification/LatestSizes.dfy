/** The latest size of every database of an instance: newest rows, placeholders, order, totals and pages. */
module LatestSizes {
  import opened Common
  import opened Ordering

  /** A size row joined with its database row, if any. */
  datatype SizeRow = SizeRow(
    name: string, sizeMb: int, collectedDate: int, collectedAt: int, databaseId: Option<int>, active: Option<bool>)

  datatype DatabaseRow = DatabaseRow(id: int, name: string, active: bool)

  datatype Entry = Entry(name: string, sizeMb: int, collectedAt: Option<int>, databaseId: Option<int>, active: bool)

  datatype Listing = Listing(total: nat, activeCount: int, filteredCount: nat, totalSizeMb: int, databases: seq<Entry>)

  type Lower = string -> string

  /** Inactive databases are left out of the rows unless they are asked for; a row without a database counts as active. */
  predicate Visible(row: SizeRow, includeInactive: bool) {
    includeInactive || row.active != Some(false)
  }

  predicate NewerOrEqual(a: SizeRow, b: SizeRow) {
    a.collectedDate > b.collectedDate || (a.collectedDate == b.collectedDate && a.collectedAt >= b.collectedAt)
  }

  /** What the window query answers: for each lower-cased name one row, and it is a newest one of that name. */
  ghost predicate Ranked(lower: Lower, ranked: seq<SizeRow>, rows: seq<SizeRow>, includeInactive: bool) {
    && (forall r :: r in ranked ==> r in rows && Visible(r, includeInactive))
    && (forall i, j | 0 <= i < |ranked| && 0 <= j < |ranked| && lower(ranked[i].name) == lower(ranked[j].name) :: i == j)
    && (forall r | r in rows && Visible(r, includeInactive) ::
          exists i :: 0 <= i < |ranked| && lower(ranked[i].name) == lower(r.name) && NewerOrEqual(ranked[i], r))
  }

  function EntryOf(row: SizeRow): Entry {
    Entry(row.name, row.sizeMb, Some(row.collectedAt), row.databaseId, if row.active.None? then true else row.active.value)
  }

  function Placeholder(d: DatabaseRow): Entry {
    Entry(d.name, 0, None, Some(d.id), false)
  }

  function Entries(ranked: seq<SizeRow>): (entries: seq<Entry>)
    ensures |entries| == |ranked| && forall i | 0 <= i < |ranked| :: entries[i] == EntryOf(ranked[i])
  {
    seq(|ranked|, i requires 0 <= i < |ranked| => EntryOf(ranked[i]))
  }

  function Keys(lower: Lower, entries: seq<Entry>): set<string> {
    set e | e in entries :: lower(e.name)
  }

  predicate NeedsPlaceholder(lower: Lower, d: DatabaseRow, seen: set<string>) {
    !d.active && d.name != "" && lower(d.name) !in seen
  }

  /** A placeholder for every inactive database whose lower-cased name was not seen before it. */
  function Placeholders(lower: Lower, databases: seq<DatabaseRow>, seen: set<string>): seq<Entry> {
    if databases == [] then []
    else if NeedsPlaceholder(lower, databases[0], seen) then
      [Placeholder(databases[0])] + Placeholders(lower, databases[1..], seen + {lower(databases[0].name)})
    else Placeholders(lower, databases[1..], seen)
  }

  function Merged(lower: Lower, ranked: seq<SizeRow>, databases: seq<DatabaseRow>, includeInactive: bool): seq<Entry> {
    var entries := Entries(ranked);
    if includeInactive || entries == [] then entries + Placeholders(lower, databases, Keys(lower, entries)) else entries
  }

  /** Largest first, ties by lower-cased name. */
  predicate ListedBefore(lower: Lower, a: Entry, b: Entry) {
    a.sizeMb > b.sizeMb || (a.sizeMb == b.sizeMb && StrLe(lower(a.name), lower(b.name)))
  }

  function Order(lower: Lower): (Entry, Entry) -> bool {
    (a, b) => ListedBefore(lower, a, b)
  }

  function Latest(lower: Lower, ranked: seq<SizeRow>, databases: seq<DatabaseRow>, includeInactive: bool): seq<Entry> {
    Sort(Order(lower), Merged(lower, ranked, databases, includeInactive))
  }

  function InactiveCount(entries: seq<Entry>): nat {
    if entries == [] then 0 else InactiveCount(entries[..|entries| - 1]) + if entries[|entries| - 1].active then 0 else 1
  }

  function ActiveSize(entries: seq<Entry>): int {
    if entries == [] then 0
    else ActiveSize(entries[..|entries| - 1]) + if entries[|entries| - 1].active then entries[|entries| - 1].sizeMb else 0
  }

  /** Python's entries[offset : offset + limit]. */
  function Page<T>(entries: seq<T>, offset: nat, limit: nat): seq<T> {
    if offset >= |entries| then []
    else if offset + limit >= |entries| then entries[offset..]
    else entries[offset..offset + limit]
  }

  // ---- The operation ----

  /** The entries of inactive databases, and the total size of the others. */
  method Totals(entries: seq<Entry>) returns (filtered: nat, size: int)
    ensures filtered == InactiveCount(entries) && size == ActiveSize(entries)
  {
    filtered, size := 0, 0;
    for i := 0 to |entries|
      invariant filtered == InactiveCount(entries[..i]) && size == ActiveSize(entries[..i])
    {
      assert entries[..i + 1][..i] == entries[..i];
      if entries[i].active {
        size := size + entries[i].sizeMb;
      } else {
        filtered := filtered + 1;
      }
    }
    assert entries[..|entries|] == entries;
  }

  /** What the totals are: the entries not active, and the sizes of the active ones, entry by entry. */
  lemma TotalsMeaning(entries: seq<Entry>, e: Entry)
    ensures InactiveCount([]) == 0 && ActiveSize([]) == 0
    ensures InactiveCount(entries + [e]) == InactiveCount(entries) + if e.active then 0 else 1
    ensures ActiveSize(entries + [e]) == ActiveSize(entries) + if e.active then e.sizeMb else 0
  {
    assert (entries + [e])[..|entries|] == entries;
  }

  ghost function InactiveIndices(entries: seq<Entry>): set<nat> {
    set i: nat | i < |entries| && !entries[i].active
  }

  lemma InactiveIndicesAppend(entries: seq<Entry>, e: Entry)
    ensures InactiveIndices(entries + [e]) == InactiveIndices(entries) + if e.active then {} else {|entries| as nat}
  {
  }

  /** The filtered count is the number of positions with an entry not active. */
  lemma {:induction false} InactiveCountIsSize(entries: seq<Entry>)
    ensures InactiveCount(entries) == |InactiveIndices(entries)|
  {
    if entries == [] {
      assert InactiveIndices(entries) == {};
    } else {
      var n := |entries| - 1;
      InactiveCountIsSize(entries[..n]);
      InactiveIndicesAppend(entries[..n], entries[n]);
      assert entries == entries[..n] + [entries[n]];
    }
  }

  method FetchLatest(lower: Lower, rows: seq<SizeRow>, ranked: seq<SizeRow>, databases: seq<DatabaseRow>,
                     includeInactive: bool, offset: nat, limit: nat)
    returns (listing: Listing)
    requires Ranked(lower, ranked, rows, includeInactive)
    ensures var latest := Latest(lower, ranked, databases, includeInactive);
      && listing.databases == Page(latest, offset, limit)
      && listing.total == |latest| && listing.filteredCount == InactiveCount(latest)
      && listing.activeCount == listing.total - listing.filteredCount
      && listing.totalSizeMb == ActiveSize(latest)
  {
    var latest: seq<Entry> := [];
    var seen: set<string> := {};
    for i := 0 to |ranked|
      invariant latest == Entries(ranked)[..i]
      invariant seen == Keys(lower, latest)
    {
      latest := latest + [EntryOf(ranked[i])];
      seen := seen + {lower(ranked[i].name)};
    }
    assert latest == Entries(ranked);
    if includeInactive || latest == [] {
      ghost var whole := latest + Placeholders(lower, databases, seen);
      for i := 0 to |databases|
        invariant latest + Placeholders(lower, databases[i..], seen) == whole
      {
        if NeedsPlaceholder(lower, databases[i], seen) {
          assert latest + ([Placeholder(databases[i])] + Placeholders(lower, databases[i + 1..], seen + {lower(databases[i].name)}))
            == latest + [Placeholder(databases[i])] + Placeholders(lower, databases[i + 1..], seen + {lower(databases[i].name)});
          latest := latest + [Placeholder(databases[i])];
          seen := seen + {lower(databases[i].name)};
        }
      }
      assert latest == whole;
    }
    latest := Sort(Order(lower), latest);
    var filtered, size := Totals(latest);
    listing := Listing(|latest|, |latest| - filtered, filtered, size, Page(latest, offset, limit));
  }

  // ---- One entry per name ----

  ghost predicate DistinctNames(lower: Lower, entries: seq<Entry>) {
    forall i, j | 0 <= i < j < |entries| :: lower(entries[i].name) != lower(entries[j].name)
  }

  /** Every placeholder stands for an inactive database whose name was not seen. */
  lemma {:induction false} PlaceholderOrigin(lower: Lower, databases: seq<DatabaseRow>, seen: set<string>)
    ensures forall p :: p in Placeholders(lower, databases, seen) ==>
      lower(p.name) !in seen && exists d :: d in databases && NeedsPlaceholder(lower, d, seen) && p == Placeholder(d)
  {
    if databases == [] {
    } else {
      var d := databases[0];
      var more := if NeedsPlaceholder(lower, d, seen) then seen + {lower(d.name)} else seen;
      PlaceholderOrigin(lower, databases[1..], more);
      forall p | p in Placeholders(lower, databases, seen)
        ensures exists d :: d in databases && NeedsPlaceholder(lower, d, seen) && p == Placeholder(d)
      {
        if p in Placeholders(lower, databases[1..], more) {
          var o :| o in databases[1..] && NeedsPlaceholder(lower, o, more) && p == Placeholder(o);
          assert o in databases;
        } else {
          assert d in databases;
        }
      }
    }
  }

  /** Placeholders bring the unseen inactive names, each once. */
  lemma {:induction false} PlaceholderNames(lower: Lower, databases: seq<DatabaseRow>, seen: set<string>)
    ensures var ps := Placeholders(lower, databases, seen);
      && DistinctNames(lower, ps)
      && (forall d :: d in databases && NeedsPlaceholder(lower, d, seen) ==> lower(d.name) in Keys(lower, ps))
  {
    if databases == [] {
    } else {
      var d := databases[0];
      var more := if NeedsPlaceholder(lower, d, seen) then seen + {lower(d.name)} else seen;
      PlaceholderNames(lower, databases[1..], more);
      PlaceholderOrigin(lower, databases[1..], more);
      if NeedsPlaceholder(lower, d, seen) {
        ConsNames(lower, Placeholder(d), Placeholders(lower, databases[1..], more));
      }
      assert databases == [d] + databases[1..];
    }
  }

  lemma ConsNames(lower: Lower, e: Entry, rest: seq<Entry>)
    requires DistinctNames(lower, rest) && forall o :: o in rest ==> lower(o.name) != lower(e.name)
    ensures DistinctNames(lower, [e] + rest) && Keys(lower, [e] + rest) == {lower(e.name)} + Keys(lower, rest)
  {
  }

  /** The names a listing must show: those with a visible row, and the inactive ones if they are shown. */
  ghost function Shown(lower: Lower, rows: seq<SizeRow>, databases: seq<DatabaseRow>, includeInactive: bool): set<string> {
    var visible := set r | r in rows && Visible(r, includeInactive) :: lower(r.name);
    visible + if includeInactive || visible == {} then set d | d in databases && !d.active && d.name != "" :: lower(d.name) else {}
  }

  /** A name is shown for a shown row, or, with inactive databases shown or no row to show, for a named inactive database. */
  lemma ShownNames(lower: Lower, rows: seq<SizeRow>, databases: seq<DatabaseRow>, includeInactive: bool, k: string)
    ensures k in Shown(lower, rows, databases, includeInactive) <==>
      (exists r :: r in rows && (includeInactive || r.active != Some(false)) && lower(r.name) == k)
      || ((includeInactive || forall r :: r in rows ==> r.active == Some(false)) &&
          exists d :: d in databases && !d.active && d.name != "" && lower(d.name) == k)
  {
    var visible := set r | r in rows && Visible(r, includeInactive) :: lower(r.name);
    if r :| r in rows && r.active != Some(false) {
      assert lower(r.name) in visible;
    } else if !includeInactive {
      assert visible == {};
    }
  }

  lemma RankedNames(lower: Lower, ranked: seq<SizeRow>, rows: seq<SizeRow>, includeInactive: bool)
    requires Ranked(lower, ranked, rows, includeInactive)
    ensures DistinctNames(lower, Entries(ranked))
    ensures Keys(lower, Entries(ranked)) == set r | r in rows && Visible(r, includeInactive) :: lower(r.name)
  {
  }

  lemma MergedNames(lower: Lower, ranked: seq<SizeRow>, rows: seq<SizeRow>, databases: seq<DatabaseRow>, includeInactive: bool)
    requires Ranked(lower, ranked, rows, includeInactive)
    ensures var merged := Merged(lower, ranked, databases, includeInactive);
      DistinctNames(lower, merged) && Keys(lower, merged) == Shown(lower, rows, databases, includeInactive)
  {
    RankedNames(lower, ranked, rows, includeInactive);
    var entries := Entries(ranked);
    var keys := Keys(lower, entries);
    EmptyKeys(lower, entries);
    if includeInactive || entries == [] {
      var ps := Placeholders(lower, databases, keys);
      PlaceholderNames(lower, databases, keys);
      PlaceholderOrigin(lower, databases, keys);
      AppendNames(lower, entries, ps);
      PlaceholderKeys(lower, databases, keys);
    }
  }

  lemma EmptyKeys(lower: Lower, entries: seq<Entry>)
    ensures entries == [] <==> Keys(lower, entries) == {}
  {
    if entries != [] {
      assert entries[0] in entries;
      assert lower(entries[0].name) in Keys(lower, entries);
    }
  }

  lemma AppendNames(lower: Lower, xs: seq<Entry>, ys: seq<Entry>)
    requires DistinctNames(lower, xs) && DistinctNames(lower, ys)
    requires forall y :: y in ys ==> lower(y.name) !in Keys(lower, xs)
    ensures DistinctNames(lower, xs + ys) && Keys(lower, xs + ys) == Keys(lower, xs) + Keys(lower, ys)
  {
  }

  lemma PlaceholderKeys(lower: Lower, databases: seq<DatabaseRow>, seen: set<string>)
    ensures Keys(lower, Placeholders(lower, databases, seen)) + seen
      == seen + set d | d in databases && !d.active && d.name != "" :: lower(d.name)
  {
    PlaceholderNames(lower, databases, seen);
    PlaceholderOrigin(lower, databases, seen);
    var ps := Placeholders(lower, databases, seen);
    forall k | k in Keys(lower, ps) ensures exists d :: d in databases && !d.active && d.name != "" && lower(d.name) == k {
      var p :| p in ps && lower(p.name) == k;
    }
  }

  // ---- The listing ----

  lemma OrderTotal(lower: Lower)
    ensures TotalPreorder(Order(lower))
  {
    var le := Order(lower);
    forall a, b ensures le(a, b) || le(b, a) {
      StrLeTotal(lower(a.name), lower(b.name));
    }
    forall a, b, c | le(a, b) && le(b, c) ensures le(a, c) {
      if a.sizeMb == b.sizeMb == c.sizeMb {
        StrLeTransitive(lower(a.name), lower(b.name), lower(c.name));
      }
    }
  }

  lemma SameNames(lower: Lower, xs: seq<Entry>, ys: seq<Entry>)
    requires multiset(xs) == multiset(ys) && DistinctNames(lower, xs) && forall x :: x in xs <==> x in ys
    ensures DistinctNames(lower, ys) && Keys(lower, ys) == Keys(lower, xs)
  {
    DistinctOfMultiset(xs, ys);
    forall i, j | 0 <= i < j < |ys| ensures lower(ys[i].name) != lower(ys[j].name) {
      assert ys[i] in xs && ys[j] in xs;
    }
  }

  /** Every shown name has exactly one entry. */
  lemma OneEntryPerName(lower: Lower, ranked: seq<SizeRow>, rows: seq<SizeRow>, databases: seq<DatabaseRow>, includeInactive: bool)
    requires Ranked(lower, ranked, rows, includeInactive)
    ensures var latest := Latest(lower, ranked, databases, includeInactive);
      && DistinctNames(lower, latest)
      && Keys(lower, latest) == Shown(lower, rows, databases, includeInactive)
      && |latest| == |Shown(lower, rows, databases, includeInactive)|
  {
    var merged := Merged(lower, ranked, databases, includeInactive);
    var latest := Latest(lower, ranked, databases, includeInactive);
    MergedNames(lower, ranked, rows, databases, includeInactive);
    SortPermutes(Order(lower), merged);
    SameNames(lower, merged, latest);
    KeyCount(lower, latest);
  }

  lemma KeyCount(lower: Lower, entries: seq<Entry>)
    requires DistinctNames(lower, entries)
    ensures |Keys(lower, entries)| == |entries|
  {
    var names := seq(|entries|, i requires 0 <= i < |entries| => lower(entries[i].name));
    forall k ensures k in Keys(lower, entries) <==> k in names {
      if k in Keys(lower, entries) {
        var e :| e in entries && lower(e.name) == k;
        var i :| 0 <= i < |entries| && entries[i] == e;
        assert names[i] == k;
      }
      if k in names {
        var i :| 0 <= i < |names| && names[i] == k;
        assert entries[i] in entries;
      }
    }
    DistinctSize(names, Keys(lower, entries));
  }

  /** The listing is strictly ordered: by size downwards, then by lower-cased name upwards. */
  lemma StrictlyOrdered(lower: Lower, ranked: seq<SizeRow>, rows: seq<SizeRow>, databases: seq<DatabaseRow>, includeInactive: bool)
    requires Ranked(lower, ranked, rows, includeInactive)
    ensures var latest := Latest(lower, ranked, databases, includeInactive);
      forall i, j | 0 <= i < j < |latest| ::
        latest[i].sizeMb > latest[j].sizeMb ||
        (latest[i].sizeMb == latest[j].sizeMb && lower(latest[i].name) != lower(latest[j].name)
         && StrLe(lower(latest[i].name), lower(latest[j].name)))
  {
    var latest := Latest(lower, ranked, databases, includeInactive);
    OrderTotal(lower);
    SortSorted(Order(lower), Merged(lower, ranked, databases, includeInactive));
    OneEntryPerName(lower, ranked, rows, databases, includeInactive);
    forall i, j | 0 <= i < j < |latest|
      ensures ListedBefore(lower, latest[i], latest[j]) && lower(latest[i].name) != lower(latest[j].name)
    {
      assert Order(lower)(latest[i], latest[j]);
    }
  }

  /** Whether the merge goes through the inactive databases. */
  predicate AddsPlaceholders(ranked: seq<SizeRow>, includeInactive: bool) {
    includeInactive || ranked == []
  }

  predicate NeedsOne(lower: Lower, ranked: seq<SizeRow>, d: DatabaseRow) {
    NeedsPlaceholder(lower, d, Keys(lower, Entries(ranked)))
  }

  /** No two distinct databases that need a placeholder have names that differ only in case. */
  ghost predicate NamesSettlePlaceholders(lower: Lower, ranked: seq<SizeRow>, databases: seq<DatabaseRow>) {
    forall a, b | a in databases && b in databases && NeedsOne(lower, ranked, a) && NeedsOne(lower, ranked, b)
                  && lower(a.name) == lower(b.name) :: a == b
  }

  /** The two queries may return their rows in any order, and the listing is the same. */
  ghost predicate OrderDoesNotShow(lower: Lower, ranked: seq<SizeRow>, databases: seq<DatabaseRow>, includeInactive: bool) {
    forall rs, ds | multiset(rs) == multiset(ranked) && multiset(ds) == multiset(databases) ::
      Latest(lower, rs, ds, includeInactive) == Latest(lower, ranked, databases, includeInactive)
  }

  lemma EntriesPermute(lower: Lower, ranked: seq<SizeRow>, rs: seq<SizeRow>)
    requires multiset(rs) == multiset(ranked) && DistinctNames(lower, Entries(ranked))
    ensures multiset(Entries(rs)) == multiset(Entries(ranked))
    ensures forall e :: e in Entries(rs) <==> e in Entries(ranked)
  {
    SameMembers(rs, ranked);
    forall i, j | 0 <= i < j < |ranked| ensures ranked[i] != ranked[j] {
      assert lower(Entries(ranked)[i].name) != lower(Entries(ranked)[j].name);
    }
    DistinctOfMultiset(ranked, rs);
    forall i, j | 0 <= i < j < |rs| ensures Entries(rs)[i] != Entries(rs)[j] {
      assert rs[i] in ranked && rs[j] in ranked && rs[i] != rs[j];
      if lower(rs[i].name) == lower(rs[j].name) {
        RankedByName(lower, ranked, rs[i], rs[j]);
      }
    }
    EntryMembers(ranked, rs);
    EntryMembers(rs, ranked);
    NamesMakeDistinct(lower, Entries(ranked));
    SameElements(Entries(rs), Entries(ranked));
  }

  lemma RankedByName(lower: Lower, ranked: seq<SizeRow>, a: SizeRow, b: SizeRow)
    requires DistinctNames(lower, Entries(ranked)) && a in ranked && b in ranked && lower(a.name) == lower(b.name)
    ensures a == b
  {
    var i :| 0 <= i < |ranked| && ranked[i] == a;
    var j :| 0 <= j < |ranked| && ranked[j] == b;
    assert lower(Entries(ranked)[i].name) == lower(Entries(ranked)[j].name);
  }

  lemma EntryMembers(xs: seq<SizeRow>, ys: seq<SizeRow>)
    requires forall x :: x in xs ==> x in ys
    ensures forall e :: e in Entries(xs) ==> e in Entries(ys)
  {
    forall e | e in Entries(xs) ensures e in Entries(ys) {
      var i :| 0 <= i < |xs| && Entries(xs)[i] == e;
      assert xs[i] in ys;
      var j :| 0 <= j < |ys| && ys[j] == xs[i];
      assert Entries(ys)[j] == e;
    }
  }

  /** With names that settle them, the placeholders are those of the databases that need one. */
  lemma PlaceholderMembers(lower: Lower, ranked: seq<SizeRow>, databases: seq<DatabaseRow>, p: Entry)
    requires NamesSettlePlaceholders(lower, ranked, databases)
    ensures p in Placeholders(lower, databases, Keys(lower, Entries(ranked))) <==>
      exists d :: d in databases && NeedsOne(lower, ranked, d) && p == Placeholder(d)
  {
    var seen := Keys(lower, Entries(ranked));
    var ps := Placeholders(lower, databases, seen);
    PlaceholderOrigin(lower, databases, seen);
    PlaceholderNames(lower, databases, seen);
    if d :| d in databases && NeedsOne(lower, ranked, d) && p == Placeholder(d) {
      var q :| q in ps && lower(q.name) == lower(d.name);
      var o :| o in databases && NeedsPlaceholder(lower, o, seen) && q == Placeholder(o);
      assert o == d;
    }
  }

  lemma NamesMakeDistinct(lower: Lower, entries: seq<Entry>)
    requires DistinctNames(lower, entries)
    ensures Distinct(entries)
  {
  }

  lemma PlaceholdersPermute(lower: Lower, ranked: seq<SizeRow>, rs: seq<SizeRow>, xs: seq<DatabaseRow>, ys: seq<DatabaseRow>)
    requires multiset(rs) == multiset(ranked) && multiset(ys) == multiset(xs)
    requires DistinctNames(lower, Entries(ranked)) && NamesSettlePlaceholders(lower, ranked, xs)
    ensures multiset(Placeholders(lower, xs, Keys(lower, Entries(ranked))))
         == multiset(Placeholders(lower, ys, Keys(lower, Entries(rs))))
  {
    SameMembers(xs, ys);
    EntriesPermute(lower, ranked, rs);
    var seen := Keys(lower, Entries(ranked));
    assert Keys(lower, Entries(rs)) == seen;
    var ps, qs := Placeholders(lower, xs, seen), Placeholders(lower, ys, seen);
    forall p ensures p in ps <==> p in qs {
      PlaceholderMembers(lower, ranked, xs, p);
      PlaceholderMembers(lower, ranked, ys, p);
    }
    PlaceholderNames(lower, xs, seen);
    PlaceholderNames(lower, ys, seen);
    NamesMakeDistinct(lower, ps);
    NamesMakeDistinct(lower, qs);
    SameElements(ps, qs);
  }

  /** Permuted entries with distinct names are listed the same way. */
  lemma SortPermuted(lower: Lower, xs: seq<Entry>, ys: seq<Entry>)
    requires multiset(xs) == multiset(ys) && DistinctNames(lower, xs)
    ensures Sort(Order(lower), xs) == Sort(Order(lower), ys)
  {
    OrderTotal(lower);
    forall a, b | a in xs && b in xs && Order(lower)(a, b) && Order(lower)(b, a) ensures a == b {
      StrLeAntisymmetric(lower(a.name), lower(b.name));
      var i :| 0 <= i < |xs| && xs[i] == a;
      var j :| 0 <= j < |xs| && xs[j] == b;
    }
    SortOrderIndependent(Order(lower), xs, ys);
  }

  lemma SettledOrderDoesNotShow(lower: Lower, ranked: seq<SizeRow>, rows: seq<SizeRow>, databases: seq<DatabaseRow>,
                                includeInactive: bool, rs: seq<SizeRow>, ds: seq<DatabaseRow>)
    requires Ranked(lower, ranked, rows, includeInactive)
    requires AddsPlaceholders(ranked, includeInactive) ==> NamesSettlePlaceholders(lower, ranked, databases)
    requires multiset(rs) == multiset(ranked) && multiset(ds) == multiset(databases)
    ensures Latest(lower, rs, ds, includeInactive) == Latest(lower, ranked, databases, includeInactive)
  {
    SameMembers(rs, ranked);
    RankedNames(lower, ranked, rows, includeInactive);
    EntriesPermute(lower, ranked, rs);
    MergedNames(lower, ranked, rows, databases, includeInactive);
    if AddsPlaceholders(ranked, includeInactive) {
      PlaceholdersPermute(lower, ranked, rs, databases, ds);
    }
    SortPermuted(lower, Merged(lower, ranked, databases, includeInactive), Merged(lower, rs, ds, includeInactive));
  }

  function Fronted<T>(xs: seq<T>, k: nat): (ys: seq<T>)
    requires k < |xs|
    ensures multiset(ys) == multiset(xs) && ys != [] && ys[0] == xs[k]
  {
    assert xs == xs[..k] + [xs[k]] + xs[k + 1..];
    [xs[k]] + xs[..k] + xs[k + 1..]
  }

  /** The database that comes first among those of its name gets the placeholder. */
  lemma FirstGetsPlaceholder(lower: Lower, ranked: seq<SizeRow>, rows: seq<SizeRow>, databases: seq<DatabaseRow>,
                             includeInactive: bool, other: DatabaseRow)
    requires Ranked(lower, ranked, rows, includeInactive) && AddsPlaceholders(ranked, includeInactive)
    requires databases != [] && NeedsOne(lower, ranked, databases[0]) && NeedsOne(lower, ranked, other)
    requires lower(other.name) == lower(databases[0].name) && other != databases[0]
    ensures Placeholder(databases[0]) in Latest(lower, ranked, databases, includeInactive)
    ensures Placeholder(other) !in Latest(lower, ranked, databases, includeInactive)
  {
    var merged := Merged(lower, ranked, databases, includeInactive);
    MergedNames(lower, ranked, rows, databases, includeInactive);
    SortPermutes(Order(lower), merged);
    var first := Placeholder(databases[0]);
    assert merged[|ranked|] == first;
    assert first in merged;
    forall e | e in merged && lower(e.name) == lower(first.name) ensures e == first {
      var i :| 0 <= i < |merged| && merged[i] == e;
      assert lower(merged[i].name) == lower(merged[|ranked|].name);
    }
  }

  /**
   * Exactly when the order of the query results does not show: unless placeholders are added and two distinct
   * databases that need one have names that differ only in case. Then whichever comes first is listed.
   */
  lemma RowOrderIndependentIff(lower: Lower, ranked: seq<SizeRow>, rows: seq<SizeRow>, databases: seq<DatabaseRow>, includeInactive: bool)
    requires Ranked(lower, ranked, rows, includeInactive)
    ensures OrderDoesNotShow(lower, ranked, databases, includeInactive) <==>
      (AddsPlaceholders(ranked, includeInactive) ==> NamesSettlePlaceholders(lower, ranked, databases))
  {
    if AddsPlaceholders(ranked, includeInactive) ==> NamesSettlePlaceholders(lower, ranked, databases) {
      forall rs, ds | multiset(rs) == multiset(ranked) && multiset(ds) == multiset(databases)
        ensures Latest(lower, rs, ds, includeInactive) == Latest(lower, ranked, databases, includeInactive)
      {
        SettledOrderDoesNotShow(lower, ranked, rows, databases, includeInactive, rs, ds);
      }
    } else {
      var a, b :| a in databases && b in databases && NeedsOne(lower, ranked, a) && NeedsOne(lower, ranked, b)
                  && lower(a.name) == lower(b.name) && a != b;
      var i :| 0 <= i < |databases| && databases[i] == a;
      var j :| 0 <= j < |databases| && databases[j] == b;
      FirstGetsPlaceholder(lower, ranked, rows, Fronted(databases, i), includeInactive, b);
      FirstGetsPlaceholder(lower, ranked, rows, Fronted(databases, j), includeInactive, a);
      assert Latest(lower, ranked, Fronted(databases, i), includeInactive) != Latest(lower, ranked, Fronted(databases, j), includeInactive);
    }
  }

  /** "DB" and "db", both inactive and without sizes: swapping them swaps which of them is listed. */
  lemma CaseVariantsShowOrder(lower: Lower)
    requires lower("DB") == lower("db")
    ensures var a, b := DatabaseRow(1, "DB", false), DatabaseRow(2, "db", false);
      Latest(lower, [], [a, b], true) == [Placeholder(a)] && Latest(lower, [], [b, a], true) == [Placeholder(b)]
  {
    var a, b := DatabaseRow(1, "DB", false), DatabaseRow(2, "db", false);
    OnlyFirstListed(lower, a, b);
    OnlyFirstListed(lower, b, a);
  }

  lemma OnlyFirstListed(lower: Lower, a: DatabaseRow, b: DatabaseRow)
    requires !a.active && a.name != "" && lower(a.name) == lower(b.name)
    ensures Latest(lower, [], [a, b], true) == [Placeholder(a)]
  {
    assert Keys(lower, Entries([])) == {};
    OnePlaceholder(lower, a, b, {});
    assert Merged(lower, [], [a, b], true) == [] + [Placeholder(a)] == [Placeholder(a)];
    SortOne(Order(lower), Placeholder(a));
  }

  lemma OnePlaceholder(lower: Lower, a: DatabaseRow, b: DatabaseRow, seen: set<string>)
    requires NeedsPlaceholder(lower, a, seen) && lower(a.name) == lower(b.name)
    ensures Placeholders(lower, [a, b], seen) == [Placeholder(a)]
  {
    var more := seen + {lower(a.name)};
    assert [a, b][1..] == [b] && [b][1..] == [];
    assert Placeholders(lower, [b], more) == Placeholders(lower, [], more);
  }

  lemma SortOne<T>(le: (T, T) -> bool, x: T)
    ensures Sort(le, [x]) == [x]
  {
    assert [x][1..] == [];
  }

  /** A shown row, no shown row of its name having a later date, or the same date and a later time. */
  ghost predicate IsNewestOf(lower: Lower, rows: seq<SizeRow>, includeInactive: bool, r: SizeRow) {
    && r in rows && (includeInactive || r.active != Some(false))
    && forall o :: o in rows && (includeInactive || o.active != Some(false)) && lower(o.name) == lower(r.name) ==>
         r.collectedDate > o.collectedDate || (r.collectedDate == o.collectedDate && r.collectedAt >= o.collectedAt)
  }

  /** Every listed entry with a collection time is a newest visible row of its name; the others are inactive databases without one. */
  lemma EntriesAreNewest(lower: Lower, ranked: seq<SizeRow>, rows: seq<SizeRow>, databases: seq<DatabaseRow>, includeInactive: bool, e: Entry)
    requires Ranked(lower, ranked, rows, includeInactive) && e in Latest(lower, ranked, databases, includeInactive)
    ensures e.collectedAt.Some? ==> exists r ::
      && IsNewestOf(lower, rows, includeInactive, r)
      && e == Entry(r.name, r.sizeMb, Some(r.collectedAt), r.databaseId, r.active != Some(false))
    ensures e.collectedAt.None? ==> exists d :: d in databases && !d.active && d.name != "" && e == Entry(d.name, 0, None, Some(d.id), false)
    ensures e.collectedAt.None? ==>
      forall o | o in rows && (includeInactive || o.active != Some(false)) :: lower(o.name) != lower(e.name)
  {
    var entries := Entries(ranked);
    SortPermutes(Order(lower), Merged(lower, ranked, databases, includeInactive));
    RankedNames(lower, ranked, rows, includeInactive);
    if e in entries {
      var i :| 0 <= i < |ranked| && entries[i] == e;
      RankedIsNewest(lower, ranked, rows, includeInactive, i);
    } else {
      PlaceholderOrigin(lower, databases, Keys(lower, entries));
      assert e in Placeholders(lower, databases, Keys(lower, entries));
    }
  }

  lemma RankedIsNewest(lower: Lower, ranked: seq<SizeRow>, rows: seq<SizeRow>, includeInactive: bool, i: nat)
    requires Ranked(lower, ranked, rows, includeInactive) && i < |ranked|
    ensures ranked[i] in rows && Visible(ranked[i], includeInactive)
    ensures forall o :: o in rows && Visible(o, includeInactive) && lower(o.name) == lower(ranked[i].name) ==> NewerOrEqual(ranked[i], o)
  {
  }

  // ---- Pages ----

  function Pages<T>(entries: seq<T>, limit: nat, count: nat): seq<T> {
    if count == 0 then [] else Pages(entries, limit, count - 1) + Page(entries, (count - 1) * limit, limit)
  }

  /** The first pages in a row are a prefix of the list, so enough of them are the list: nothing lost, nothing twice. */
  lemma {:induction false} PagesConcatenate<T>(entries: seq<T>, limit: nat, count: nat)
    ensures Pages(entries, limit, count) == if count * limit >= |entries| then entries else entries[..count * limit]
  {
    if count == 0 {
    } else {
      PagesConcatenate(entries, limit, count - 1);
      assert count * limit == (count - 1) * limit + limit;
      PageExtends(entries, (count - 1) * limit, limit);
    }
  }

  lemma PageExtends<T>(entries: seq<T>, offset: nat, limit: nat)
    ensures (if offset >= |entries| then entries else entries[..offset]) + Page(entries, offset, limit)
      == if offset + limit >= |entries| then entries else entries[..offset + limit]
  {
  }
}

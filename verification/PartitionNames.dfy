/** Names of monthly partitions: how they are generated, recognised and read back. */
module PartitionNames {
  import opened Common
  import opened Calendar

  datatype Table = Stats | Aggregations | InstanceStats | InstanceAggregations

  /** The tables in the order the service goes through them. */
  const TABLES: seq<Table> := [Stats, Aggregations, InstanceStats, InstanceAggregations]

  function Prefix(t: Table): string {
    match t
    case Stats => "database_size_stats_"
    case Aggregations => "database_size_aggregations_"
    case InstanceStats => "instance_size_stats_"
    case InstanceAggregations => "instance_size_aggregations_"
  }

  function Digit(n: nat): char
    requires n < 10
  {
    "0123456789"[n]
  }

  /** `%Y`, which the C library does not pad. */
  function Decimal(n: nat): string {
    if n < 10 then [Digit(n)] else Decimal(n / 10) + [Digit(n % 10)]
  }

  function TwoDigits(n: nat): string
    requires n < 100
  {
    [Digit(n / 10), Digit(n % 10)]
  }

  /** `%Y_%m`. */
  function DatePart(m: nat): string {
    Decimal(m / 12 + 1) + "_" + TwoDigits(m % 12 + 1)
  }

  /** The name of a table's partition for month m. */
  function PartitionName(t: Table, m: nat): string {
    Prefix(t) + DatePart(m)
  }

  // ---- Recognising ----

  /** SQL `LIKE 'prefix%'`: an underscore in the prefix stands for any character. */
  predicate LikePrefix(name: string, prefix: string) {
    |prefix| <= |name| && forall i :: 0 <= i < |prefix| ==> prefix[i] == '_' || prefix[i] == name[i]
  }

  // ---- Reading back ----

  /** `name.replace(p, "")`. */
  function RemoveAll(s: string, p: string): string
    requires p != ""
  {
    if |s| < |p| then s
    else if s[..|p|] == p then RemoveAll(s[|p|..], p)
    else [s[0]] + RemoveAll(s[1..], p)
  }

  /** `s.split("_")`. */
  function Split(s: string): (parts: seq<string>)
    ensures |parts| >= 1
  {
    if s == "" then [""]
    else
      var rest := Split(s[1..]);
      if s[0] == '_' then [""] + rest else [[s[0]] + rest[0]] + rest[1..]
  }

  /** The year and month parts of a name; None when there are not two parts. */
  function ExtractDate(name: string, prefix: string): Option<(string, string)>
    requires prefix != ""
  {
    var parts := Split(RemoveAll(name, prefix));
    if |parts| < 2 then None else Some((parts[0], parts[1]))
  }

  function DigitValue(c: char): Option<nat> {
    if '0' <= c <= '9' then Some((c - '0') as nat) else None
  }

  /** `%Y`: exactly four digits, and no year 0. */
  function ParseYear(s: string): Option<nat> {
    if |s| == 4 && forall i :: 0 <= i < 4 ==> DigitValue(s[i]).Some? then
      var y := 1000 * DigitValue(s[0]).value + 100 * DigitValue(s[1]).value
             + 10 * DigitValue(s[2]).value + DigitValue(s[3]).value;
      if y == 0 then None else Some(y)
    else None
  }

  /** `%m`: one or two digits from 1 to 12. */
  function ParseMonth(s: string): Option<nat> {
    if |s| == 1 && DigitValue(s[0]).Some? && DigitValue(s[0]).value > 0 then DigitValue(s[0])
    else if |s| == 2 && DigitValue(s[0]).Some? && DigitValue(s[1]).Some? then
      var m := 10 * DigitValue(s[0]).value + DigitValue(s[1]).value;
      if 1 <= m <= 12 then Some(m) else None
    else None
  }

  /** The month a partition name stands for, as `strptime` reads "year/month/01". */
  function PartitionMonth(name: string, prefix: string): (m: Option<nat>)
    requires prefix != ""
    ensures m.Some? ==> m.value < 12 * MAX_YEAR
  {
    var parts := ExtractDate(name, prefix);
    if parts.None? then None
    else
      var y, m := ParseYear(parts.value.0), ParseMonth(parts.value.1);
      if y.None? || m.None? then None
      else
        YearRange(parts.value.0);
        Some(12 * (y.value - 1) + m.value - 1)
  }

  lemma YearRange(s: string)
    ensures ParseYear(s).Some? ==> 1 <= ParseYear(s).value <= 9999
  {
  }

  // ---- Properties ----

  /** What the names look like: a table's prefix, then for November 2025, month 24298, "2025_11". */
  lemma NamesOfNovember2025()
    ensures MonthIndex(Date(2025, 11, 1)) == 24298 && DatePart(24298) == "2025_11"
    ensures PartitionName(Stats, 24298) == "database_size_stats_" + DatePart(24298)
    ensures PartitionName(Aggregations, 24298) == "database_size_aggregations_" + DatePart(24298)
    ensures PartitionName(InstanceStats, 24298) == "instance_size_stats_" + DatePart(24298)
    ensures PartitionName(InstanceAggregations, 24298) == "instance_size_aggregations_" + DatePart(24298)
  {
    DecimalOf4(2025);
  }

  predicate OfDatabases(t: Table) {
    t.Stats? || t.Aggregations?
  }

  predicate OfStats(t: Table) {
    t.Stats? || t.InstanceStats?
  }

  /** Two characters of a prefix tell the four tables apart, and neither is a wildcard. */
  lemma TellingCharacters(t: Table)
    ensures |Prefix(t)| >= 20
    ensures Prefix(t)[0] == (if OfDatabases(t) then 'd' else 'i')
    ensures Prefix(t)[14] == (if OfStats(t) then 's' else 'a')
  {
  }

  /** A generated name is recognised by its own table's pattern and by no other table's. */
  lemma PatternsDisjoint(t: Table, other: Table, m: nat)
    ensures LikePrefix(PartitionName(t, m), Prefix(other)) <==> t == other
  {
    TellingCharacters(t);
    TellingCharacters(other);
    NameStart(Prefix(t), DatePart(m));
    if t != other {
      PrefixesDiffer(Prefix(t), Prefix(other), PartitionName(t, m), if OfDatabases(t) != OfDatabases(other) then 0 else 14);
    }
  }

  lemma NameStart(p: string, rest: string)
    ensures LikePrefix(p + rest, p)
    ensures forall i :: 0 <= i < |p| ==> (p + rest)[i] == p[i]
  {
  }

  lemma PrefixesDiffer(p: string, q: string, name: string, i: nat)
    requires i < |p| && i < |q| && |p| <= |name| && name[i] == p[i] && q[i] != '_' && p[i] != q[i]
    ensures !LikePrefix(name, q)
  {
  }

  lemma DigitOfValue(n: nat)
    requires n < 10
    ensures DigitValue(Digit(n)) == Some(n) && Digit(n) != '_'
  {
  }

  lemma DecimalOf4(y: nat)
    requires 1000 <= y <= 9999
    ensures Decimal(y) == [Digit(y / 10 / 10 / 10), Digit(y / 10 / 10 % 10), Digit(y / 10 % 10), Digit(y % 10)]
  {
    assert Decimal(y / 10 / 10 / 10) == [Digit(y / 10 / 10 / 10)];
    assert Decimal(y / 10 / 10) == Decimal(y / 10 / 10 / 10) + [Digit(y / 10 / 10 % 10)];
    assert Decimal(y / 10) == Decimal(y / 10 / 10) + [Digit(y / 10 % 10)];
  }

  lemma DecimalShort(y: nat)
    requires y < 1000
    ensures |Decimal(y)| <= 3 && '_' !in Decimal(y)
  {
    assert forall d: nat :: d < 10 ==> Digit(d) != '_';
    assert y / 10 / 10 == y / 100;
    assert y >= 100 ==> Decimal(y) == Decimal(y / 10) + [Digit(y % 10)] && Decimal(y / 10) == Decimal(y / 100) + [Digit(y / 10 % 10)];
  }

  lemma ReadFourDigits(a: nat, b: nat, c: nat, d: nat)
    requires 1 <= a < 10 && b < 10 && c < 10 && d < 10
    ensures ParseYear([Digit(a), Digit(b), Digit(c), Digit(d)]) == Some(1000 * a + 100 * b + 10 * c + d)
    ensures '_' !in [Digit(a), Digit(b), Digit(c), Digit(d)]
  {
    DigitOfValue(a);
    DigitOfValue(b);
    DigitOfValue(c);
    DigitOfValue(d);
  }

  lemma DigitSum(y: nat)
    requires 1000 <= y <= 9999
    ensures 1 <= y / 10 / 10 / 10 < 10
    ensures 1000 * (y / 10 / 10 / 10) + 100 * (y / 10 / 10 % 10) + 10 * (y / 10 % 10) + y % 10 == y
  {
  }

  /** A rendered year reads back exactly when it has four digits. */
  lemma YearRoundTrip(y: nat)
    requires 1 <= y <= MAX_YEAR
    ensures ParseYear(Decimal(y)) == if y >= 1000 then Some(y) else None
    ensures '_' !in Decimal(y) && |Decimal(y)| <= 4
  {
    if y < 1000 {
      DecimalShort(y);
    } else {
      DecimalOf4(y);
      DigitSum(y);
      ReadFourDigits(y / 10 / 10 / 10, y / 10 / 10 % 10, y / 10 % 10, y % 10);
    }
  }

  lemma MonthRoundTrip(m: nat)
    requires 1 <= m <= 12
    ensures ParseMonth(TwoDigits(m)) == Some(m) && '_' !in TwoDigits(m)
  {
  }

  lemma {:induction false} SplitOne(s: string)
    requires '_' !in s
    ensures Split(s) == [s]
  {
    if s == "" {
    } else {
      SplitOne(s[1..]);
      assert s == [s[0]] + s[1..];
    }
  }

  lemma {:induction false} SplitTwo(a: string, b: string)
    requires '_' !in a && '_' !in b
    ensures Split(a + "_" + b) == [a, b]
  {
    var s := a + "_" + b;
    if a == "" {
      assert s[1..] == b;
      SplitOne(b);
    } else {
      assert s[1..] == a[1..] + "_" + b;
      SplitTwo(a[1..], b);
      assert a == [a[0]] + a[1..];
    }
  }

  /** Parts after the second are ignored. */
  lemma {:induction false} SplitMore(a: string, b: string, more: string)
    requires '_' !in a && '_' !in b
    ensures |Split(a + "_" + b + "_" + more)| > 2 && Split(a + "_" + b + "_" + more)[..2] == [a, b]
  {
    var s := a + "_" + b + "_" + more;
    if a == "" {
      assert s[1..] == b + "_" + more;
      SplitFirst(b, more);
    } else {
      assert s[1..] == a[1..] + "_" + b + "_" + more;
      SplitMore(a[1..], b, more);
      assert a == [a[0]] + a[1..];
    }
  }

  lemma {:induction false} SplitFirst(b: string, more: string)
    requires '_' !in b
    ensures |Split(b + "_" + more)| > 1 && Split(b + "_" + more)[0] == b
  {
    var s := b + "_" + more;
    if b == "" {
      assert s[1..] == more;
    } else {
      assert s[1..] == b[1..] + "_" + more;
      SplitFirst(b[1..], more);
      assert b == [b[0]] + b[1..];
    }
  }

  lemma RemovePrefix(p: string, rest: string)
    requires p != "" && |rest| < |p|
    ensures RemoveAll(p + rest, p) == rest
  {
  }

  /** Any prefix longer than a date part gives the parts back. */
  lemma DateParts(p: string, year: string, month: string, name: string)
    requires |p| >= 20 && |year| <= 4 && |month| == 2 && '_' !in year && '_' !in month
    requires name == p + (year + "_" + month)
    ensures ExtractDate(name, p) == Some((year, month))
    ensures ParseYear(year).Some? && ParseMonth(month).Some? ==>
      PartitionMonth(name, p) == Some(12 * (ParseYear(year).value - 1) + ParseMonth(month).value - 1)
    ensures ParseYear(year).None? ==> PartitionMonth(name, p).None?
  {
    RemovePrefix(p, year + "_" + month);
    SplitTwo(year, month);
    YearRange(year);
  }

  /** The first two parts, whatever follows them. */
  lemma DatePartsOfMore(p: string, year: string, month: string, more: string)
    requires '_' !in year && '_' !in month && |year + "_" + month + "_" + more| < |p|
    ensures ExtractDate(p + (year + "_" + month), p) == Some((year, month))
    ensures ExtractDate(p + (year + "_" + month + "_" + more), p) == Some((year, month))
  {
    RemovePrefix(p, year + "_" + month);
    SplitTwo(year, month);
    RemovePrefix(p, year + "_" + month + "_" + more);
    SplitMore(year, month, more);
  }

  lemma ReadByParts(p: string, year: string, month: string, more: string, y: nat, m: nat)
    requires '_' !in year && '_' !in month && |year + "_" + month + "_" + more| < |p|
    requires ParseYear(year) == Some(y) && ParseMonth(month) == Some(m)
    ensures PartitionMonth(p + (year + "_" + month), p) == Some(12 * (y - 1) + m - 1)
    ensures PartitionMonth(p + (year + "_" + month + "_" + more), p) == Some(12 * (y - 1) + m - 1)
  {
    DatePartsOfMore(p, year, month, more);
    YearRange(year);
  }

  lemma OneDigitMonth(y: nat, m: nat)
    requires 1000 <= y <= MAX_YEAR && 1 <= m <= 9
    ensures ParseYear(Decimal(y)) == Some(y) && ParseMonth([Digit(m)]) == Some(m)
    ensures '_' !in Decimal(y) && '_' !in [Digit(m)] && |Decimal(y)| <= 4
  {
    YearRoundTrip(y);
    DigitOfValue(m);
  }

  /** A name that was not generated reads by its first two parts, and a month may have one digit. */
  lemma ReadsFirstTwoParts(t: Table, y: nat, m: nat, more: string)
    requires 1000 <= y <= MAX_YEAR && 1 <= m <= 9 && |more| <= 10
    ensures PartitionMonth(Prefix(t) + (Decimal(y) + "_" + [Digit(m)]), Prefix(t)) == Some(12 * (y - 1) + m - 1)
    ensures PartitionMonth(Prefix(t) + (Decimal(y) + "_" + [Digit(m)] + "_" + more), Prefix(t)) == Some(12 * (y - 1) + m - 1)
  {
    assert |Prefix(t)| >= 20 by {
      TellingCharacters(t);
    }
    OneDigitMonth(y, m);
    ReadByParts(Prefix(t), Decimal(y), [Digit(m)], more, y, m);
  }

  lemma ReadBack(p: string, m: nat, name: string)
    requires |p| >= 20 && m < 12 * MAX_YEAR && name == p + DatePart(m)
    ensures PartitionMonth(name, p) == if m / 12 + 1 >= 1000 then Some(m) else None
  {
    YearRoundTrip(m / 12 + 1);
    MonthRoundTrip(m % 12 + 1);
    DateParts(p, Decimal(m / 12 + 1), TwoDigits(m % 12 + 1), name);
  }

  /** Reading a generated name with its own prefix gives the month back, exactly from year 1000 on. */
  lemma NameRoundTrip(t: Table, m: nat)
    requires m < 12 * MAX_YEAR
    ensures PartitionMonth(PartitionName(t, m), Prefix(t)) == if m / 12 + 1 >= 1000 then Some(m) else None
  {
    TellingCharacters(t);
    ReadBack(Prefix(t), m, PartitionName(t, m));
  }
}

/** The proleptic Gregorian calendar of Python's `date`, month windows, and the retention cutoff. */
module Calendar {
  import opened Common

  datatype Date = Date(year: int, month: int, day: int)

  const MAX_YEAR := 9999

  predicate IsLeap(year: int) {
    year % 4 == 0 && (year % 100 != 0 || year % 400 == 0)
  }

  function DaysInMonth(year: int, month: int): (days: int)
    ensures 28 <= days <= 31
  {
    if month == 2 then (if IsLeap(year) then 29 else 28)
    else if month == 4 || month == 6 || month == 9 || month == 11 then 30
    else 31
  }

  predicate Valid(d: Date) {
    1 <= d.year <= MAX_YEAR && 1 <= d.month <= 12 && 1 <= d.day <= DaysInMonth(d.year, d.month)
  }

  /** Months counted from January of year 1. */
  function MonthIndex(d: Date): int {
    12 * (d.year - 1) + d.month - 1
  }

  function FirstOf(m: nat): Date {
    Date(m / 12 + 1, m % 12 + 1, 1)
  }

  function MonthLength(m: nat): (days: int)
    ensures 28 <= days <= 31
  {
    DaysInMonth(m / 12 + 1, m % 12 + 1)
  }

  /** Days in the months before month m. */
  function DaysBefore(m: nat): nat {
    if m == 0 then 0 else DaysBefore(m - 1) + MonthLength(m - 1)
  }

  /** `toordinal`: the first day of year 1 is day 1. */
  function Ordinal(d: Date): int
    requires Valid(d)
  {
    DaysBefore(MonthIndex(d)) + d.day
  }

  lemma MonthIndexOf(d: Date)
    requires Valid(d)
    ensures 0 <= MonthIndex(d) < 12 * MAX_YEAR
    ensures MonthIndex(d) / 12 + 1 == d.year && MonthIndex(d) % 12 + 1 == d.month
    ensures MonthLength(MonthIndex(d)) == DaysInMonth(d.year, d.month)
    ensures FirstOf(MonthIndex(d)) == Date(d.year, d.month, 1)
  {
  }

  predicate DateLess(a: Date, b: Date) {
    a.year < b.year || (a.year == b.year && (a.month < b.month || (a.month == b.month && a.day < b.day)))
  }

  /** Going back k days; before year 1 the subtraction overflows. */
  function Back(m: nat, day: nat, k: nat): Option<Date>
    requires 1 <= day
    decreases m
  {
    if k < day then Some(Date(m / 12 + 1, m % 12 + 1, day - k))
    else if m == 0 then None
    else Back(m - 1, MonthLength(m - 1), k - day)
  }

  function SubtractDays(d: Date, k: nat): Option<Date>
    requires Valid(d)
  {
    Back(MonthIndex(d), d.day, k)
  }

  lemma DayOfMonth(m: nat, day: nat)
    requires m < 12 * MAX_YEAR && 1 <= day <= MonthLength(m)
    ensures Valid(Date(m / 12 + 1, m % 12 + 1, day)) && MonthIndex(Date(m / 12 + 1, m % 12 + 1, day)) == m
  {
  }

  lemma {:induction false} BackOrdinal(m: nat, day: nat, k: nat)
    requires m < 12 * MAX_YEAR && 1 <= day <= MonthLength(m)
    ensures Back(m, day, k).None? <==> DaysBefore(m) + day - k < 1
    ensures Back(m, day, k).Some? ==>
      Valid(Back(m, day, k).value) && Ordinal(Back(m, day, k).value) == DaysBefore(m) + day - k
    decreases m
  {
    if k < day {
      DayOfMonth(m, day - k);
    } else if m > 0 {
      BackOrdinal(m - 1, MonthLength(m - 1), k - day);
    }
  }

  /** Subtraction lands on the date whose ordinal is k less, and overflows exactly when there is none. */
  lemma SubtractDaysOrdinal(d: Date, k: nat)
    requires Valid(d)
    ensures SubtractDays(d, k).None? <==> Ordinal(d) - k < 1
    ensures SubtractDays(d, k).Some? ==>
      Valid(SubtractDays(d, k).value) && Ordinal(SubtractDays(d, k).value) == Ordinal(d) - k
  {
    MonthIndexOf(d);
    BackOrdinal(MonthIndex(d), d.day, k);
  }

  // ---- The Gregorian calendar ----

  /** Days of a common year before each month. */
  const CUMULATIVE: seq<nat> := [0, 31, 59, 90, 120, 151, 181, 212, 243, 273, 304, 334]

  lemma Quarter(y: nat)
    ensures (y + 1) / 4 == y / 4 + if (y + 1) % 4 == 0 then 1 else 0
  {
  }

  lemma Hundredth(y: nat)
    ensures (y + 1) / 100 == y / 100 + if (y + 1) % 100 == 0 then 1 else 0
  {
  }

  lemma FourHundredth(y: nat)
    ensures (y + 1) / 400 == y / 400 + if (y + 1) % 400 == 0 then 1 else 0
  {
  }

  lemma Multiples(y: nat)
    ensures y % 400 == 0 ==> y % 100 == 0
    ensures y % 100 == 0 ==> y % 4 == 0
  {
    assert y % 400 == 0 ==> y == 100 * (4 * (y / 400));
    assert y % 100 == 0 ==> y == 4 * (25 * (y / 100));
  }

  function LeapDays(y: nat): int {
    y / 4 - y / 100 + y / 400
  }

  lemma LeapStep(y: nat)
    ensures LeapDays(y + 1) == LeapDays(y) + if IsLeap(y + 1) then 1 else 0
  {
    Quarter(y);
    Hundredth(y);
    FourHundredth(y);
    Multiples(y + 1);
  }

  /** at(y, k) counts the days before month k (0 is January) of the year after year y; month 12 is the next January. */
  ghost predicate Tabulates(at: (nat, nat) -> int) {
    && at(0, 0) == 0
    && (forall y: nat, k: nat :: k <= 11 ==> at(y, k + 1) == at(y, k) + DaysInMonth(y + 1, k + 1))
    && (forall y: nat :: at(y + 1, 0) == at(y, 12))
  }

  lemma MonthEnds(y: nat, k: nat, m: nat)
    requires k <= 11 && m == 12 * y + k
    ensures DaysBefore(m + 1) == DaysBefore(m) + DaysInMonth(y + 1, k + 1)
  {
    assert m / 12 == y && m % 12 == k;
  }

  lemma DaysTabulated(at: (nat, nat) -> int)
    requires forall y: nat, k: nat :: at(y, k) == DaysBefore(12 * y + k)
    ensures Tabulates(at)
  {
    forall y: nat, k: nat | k <= 11 ensures at(y, k + 1) == at(y, k) + DaysInMonth(y + 1, k + 1) {
      MonthEnds(y, k, 12 * y + k);
    }
    forall y: nat ensures at(y + 1, 0) == at(y, 12) {
      assert 12 * (y + 1) + 0 == 12 * y + 12;
    }
  }

  lemma MonthLengths(year: int, k: nat)
    requires 1 <= k <= 11
    ensures CUMULATIVE[k] == CUMULATIVE[k - 1] + DaysInMonth(year, k) - if k == 2 && IsLeap(year) then 1 else 0
  {
  }

  lemma MonthsOfYear(at: (nat, nat) -> int, y: nat, k: nat)
    requires Tabulates(at) && k <= 11
    ensures at(y, k) == at(y, 0) + CUMULATIVE[k] + if k >= 2 && IsLeap(y + 1) then 1 else 0
  {
    if k > 0 {
      MonthsOfYear(at, y, k - 1);
      MonthLengths(y + 1, k);
    }
  }

  lemma {:induction false} DaysBeforeYear(at: (nat, nat) -> int, y: nat)
    requires Tabulates(at)
    ensures at(y, 0) == 365 * y + LeapDays(y)
  {
    if y == 0 {
    } else {
      DaysBeforeYear(at, y - 1);
      MonthsOfYear(at, y - 1, 11);
      assert at(y - 1, 12) == at(y - 1, 11) + DaysInMonth(y, 12);
      assert at(y, 0) == at(y - 1, 12);
      LeapStep(y - 1);
    }
  }

  lemma OrdinalAt(d: Date, y: nat, k: nat)
    requires Valid(d) && y == d.year - 1 && k == d.month - 1
    ensures Ordinal(d) == DaysBefore(12 * y + k) + d.day
  {
    assert MonthIndex(d) == 12 * y + k;
  }

  /** The day number in closed form: 365 days a year, and a leap day every 4 years but not every 100 unless every 400. */
  lemma OrdinalClosedForm(d: Date)
    requires Valid(d)
    ensures var y := d.year - 1;
      Ordinal(d) == 365 * y + y / 4 - y / 100 + y / 400 + CUMULATIVE[d.month - 1] + d.day
        + if d.month > 2 && d.year % 4 == 0 && (d.year % 100 != 0 || d.year % 400 == 0) then 1 else 0
  {
    var at := TableOf(d);
    ClosedForm(at, d);
  }

  lemma TableOf(d: Date) returns (at: (nat, nat) -> int)
    requires Valid(d)
    ensures Tabulates(at) && at(d.year - 1, d.month - 1) == Ordinal(d) - d.day
  {
    at := (y: nat, k: nat) => DaysBefore(12 * y + k) as int;
    DaysTabulated(at);
    OrdinalAt(d, d.year - 1, d.month - 1);
  }

  lemma ClosedForm(at: (nat, nat) -> int, d: Date)
    requires Tabulates(at) && Valid(d)
    ensures var y := d.year - 1;
      at(y, d.month - 1) == 365 * y + y / 4 - y / 100 + y / 400 + CUMULATIVE[d.month - 1]
        + if d.month > 2 && d.year % 4 == 0 && (d.year % 100 != 0 || d.year % 400 == 0) then 1 else 0
  {
    DaysBeforeYear(at, d.year - 1);
    MonthsOfYear(at, d.year - 1, d.month - 1);
  }

  // ---- Month windows ----

  /** The first of the date's month and the first of the next; the last month of all has no end. */
  function MonthWindow(d: Date): Option<(Date, Date)>
    requires Valid(d)
  {
    var start := d.(day := 1);
    if start.month == 12
    then if start.year + 1 > MAX_YEAR then None else Some((start, Date(start.year + 1, 1, 1)))
    else Some((start, start.(month := start.month + 1)))
  }

  predicate InWindow(d: Date, w: (Date, Date)) {
    !DateLess(d, w.0) && DateLess(d, w.1)
  }

  /** A date lies in exactly the windows of its own month. */
  lemma WindowHoldsItsMonth(d: Date, x: Date)
    requires Valid(d) && Valid(x) && MonthWindow(d).Some?
    ensures InWindow(x, MonthWindow(d).value) <==> MonthIndex(x) == MonthIndex(d)
  {
  }

  /** Windows tile: two of them share a date only if they are the same, and each ends where the next begins. */
  lemma WindowsTile(d: Date, other: Date, x: Date)
    requires Valid(d) && Valid(other) && Valid(x) && MonthWindow(d).Some? && MonthWindow(other).Some?
    ensures InWindow(d, MonthWindow(d).value)
    ensures InWindow(x, MonthWindow(d).value) && InWindow(x, MonthWindow(other).value) ==> MonthWindow(d) == MonthWindow(other)
    ensures MonthIndex(other) == MonthIndex(d) + 1 ==> MonthWindow(d).value.1 == MonthWindow(other).value.0
    ensures MonthWindow(d).value.0 == FirstOf(MonthIndex(d)) && MonthWindow(d).value.1 == FirstOf(MonthIndex(d) + 1)
  {
    WindowOfMonth(d);
    WindowOfMonth(other);
    WindowHoldsItsMonth(d, d);
    WindowHoldsItsMonth(d, x);
    WindowHoldsItsMonth(other, x);
  }

  lemma WindowOfMonth(d: Date)
    requires Valid(d) && MonthWindow(d).Some?
    ensures MonthIndex(d) >= 0 && MonthWindow(d) == Some((FirstOf(MonthIndex(d)), FirstOf(MonthIndex(d) + 1)))
  {
    MonthIndexOf(d);
  }

  // ---- Retention ----

  /** `(today - 31 * n days).replace(day=1)`, as a month index. */
  function CutoffMonth(today: Date, n: nat): Option<int>
    requires Valid(today)
  {
    match SubtractDays(today, 31 * n)
    case None => None
    case Some(d) => Some(MonthIndex(d))
  }

  /** The cutoff is the month of the day 31 n days earlier; there is none before the first day of year 1. */
  lemma CutoffMeaning(today: Date, n: nat)
    requires Valid(today)
    ensures CutoffMonth(today, n).None? <==> Ordinal(today) <= 31 * n
    ensures CutoffMonth(today, n).Some? ==>
      exists d :: Valid(d) && Ordinal(d) == Ordinal(today) - 31 * n && CutoffMonth(today, n) == Some(12 * (d.year - 1) + d.month - 1)
  {
    SubtractDaysOrdinal(today, 31 * n);
    MonthOfDay(SubtractDays(today, 31 * n));
  }

  lemma MonthOfDay(d: Option<Date>)
    ensures d.Some? ==> MonthIndex(d.value) == 12 * (d.value.year - 1) + d.value.month - 1
  {
  }

  lemma {:induction false} DaysBetweenUpper(a: nat, b: nat)
    requires a <= b
    ensures DaysBefore(b) - DaysBefore(a) <= 31 * (b - a)
    ensures 28 * (b - a) <= DaysBefore(b) - DaysBefore(a)
    decreases b
  {
    if a < b {
      DaysBetweenUpper(a, b - 1);
    }
  }

  /** The most a calendar month (0 is January) can fall short of 31 days; seven days over a year. */
  function Gap(r: int): nat {
    if r == 1 then 3 else if r == 3 || r == 5 || r == 8 || r == 10 then 1 else 0
  }

  /** How far the months before m can fall short of 31 days each. */
  function Shortfall(m: nat): nat {
    if m == 0 then 0 else Shortfall(m - 1) + Gap((m - 1) % 12)
  }

  lemma {:induction false} ShortfallBound(a: nat, b: nat)
    requires a <= b
    ensures 31 * (b - a) - (DaysBefore(b) - DaysBefore(a)) <= Shortfall(b) - Shortfall(a)
    decreases b
  {
    if a < b {
      ShortfallBound(a, b - 1);
      assert 31 - MonthLength(b - 1) <= Gap((b - 1) % 12);
    }
  }

  lemma {:induction false} ShortfallOfAYear(a: nat)
    ensures Shortfall(a + 12) == Shortfall(a) + 7
  {
    if a == 0 {
    } else {
      ShortfallOfAYear(a - 1);
      assert (a + 11) % 12 == (a - 1) % 12;
    }
  }

  lemma {:induction false} ShortfallOfYears(a: nat, k: nat)
    ensures Shortfall(a + 12 * k) == Shortfall(a) + 7 * k
    decreases k
  {
    if k == 0 {
    } else {
      ShortfallOfYears(a, k - 1);
      ShortfallOfAYear(a + 12 * (k - 1));
    }
  }

  /** Ceiling of n / 48. */
  function FourYearBlocks(n: nat): nat {
    (n + 47) / 48
  }

  /** Any n months and one more for each started block of 48 hold at least 31 n days. */
  lemma EnoughDays(a: nat, n: nat)
    ensures 31 * n <= DaysBefore(a + n + FourYearBlocks(n)) - DaysBefore(a)
  {
    EnoughBlocks(n);
    EnoughDaysIn(a, n, FourYearBlocks(n));
  }

  lemma EnoughDaysIn(a: nat, n: nat, blocks: nat)
    requires n <= 48 * blocks
    ensures 31 * n <= DaysBefore(a + n + blocks) - DaysBefore(a)
  {
    MonthsFallShort(a, n, blocks);
    DaysBetweenUpper(a + n, a + n + blocks);
  }

  lemma MonthsFallShort(a: nat, n: nat, blocks: nat)
    requires n <= 48 * blocks
    ensures DaysBefore(a + n) - DaysBefore(a) >= 31 * n - 28 * blocks
  {
    ShortfallBound(a, a + n);
    ShortfallWithin(a, n, blocks);
  }

  lemma ShortfallWithin(a: nat, n: nat, blocks: nat)
    requires n <= 48 * blocks
    ensures Shortfall(a + n) - Shortfall(a) <= 28 * blocks
  {
    ShortfallMonotone(a + n, a + 48 * blocks);
    FourYearShortfall(a, blocks);
  }

  lemma {:induction false} ShortfallMonotone(a: nat, b: nat)
    requires a <= b
    ensures Shortfall(a) <= Shortfall(b)
    decreases b
  {
    if a < b {
      ShortfallMonotone(a, b - 1);
    }
  }

  lemma EnoughBlocks(n: nat)
    ensures n <= 48 * FourYearBlocks(n)
  {
  }

  lemma FourYearShortfall(a: nat, c: nat)
    ensures Shortfall(a + 48 * c) == Shortfall(a) + 28 * c
  {
    ShortfallOfYears(a, 4 * c);
  }

  lemma {:induction false} DaysBeforeMonotone(a: nat, b: nat)
    requires a <= b
    ensures DaysBefore(a) <= DaysBefore(b)
    decreases b
  {
    if a < b {
      DaysBeforeMonotone(a, b - 1);
    }
  }

  lemma MonthIndexRange(d: Date)
    requires Valid(d)
    ensures 0 <= MonthIndex(d) && 1 <= d.day <= MonthLength(MonthIndex(d))
    ensures Ordinal(d) == DaysBefore(MonthIndex(d)) + d.day
  {
  }

  lemma DaysApart(c: nat, m: nat, cutDay: int, day: int, n: nat)
    requires m - n < c && 1 <= cutDay && day <= MonthLength(m)
    ensures DaysBefore(m) + day - (DaysBefore(c) + cutDay) < 31 * n
  {
    if c <= m {
      DaysBetweenUpper(c, m);
    } else {
      DaysBetweenUpper(m + 1, c);
      assert DaysBefore(m + 1) == DaysBefore(m) + MonthLength(m);
    }
  }

  lemma TooFewMonths(today: Date, cut: Date, n: nat)
    requires Valid(today) && Valid(cut) && MonthIndex(today) - n < MonthIndex(cut)
    ensures Ordinal(today) - Ordinal(cut) < 31 * n
  {
    MonthIndexRange(today);
    MonthIndexRange(cut);
    DaysApart(MonthIndex(cut), MonthIndex(today), cut.day, today.day, n);
  }

  lemma TooManyMonths(today: Date, cut: Date, n: nat)
    requires Valid(today) && Valid(cut) && MonthIndex(cut) < MonthIndex(today) - n - FourYearBlocks(n)
    ensures Ordinal(today) - Ordinal(cut) > 31 * n
  {
    MonthIndexOf(today);
    MonthIndexOf(cut);
    var c := MonthIndex(cut);
    var earliest := MonthIndex(today) - n - FourYearBlocks(n);
    EnoughDays(earliest, n);
    DaysBeforeMonotone(c + 1, earliest);
    assert DaysBefore(c + 1) == DaysBefore(c) + MonthLength(c);
  }

  /**
   * The cutoff month is never later than n months before today's, so at least the last n months and the
   * current one are kept, and never earlier than one month more for each started block of four years.
   */
  lemma RetentionBounds(today: Date, n: nat)
    requires Valid(today) && CutoffMonth(today, n).Some?
    ensures MonthIndex(today) - n - FourYearBlocks(n) <= CutoffMonth(today, n).value <= MonthIndex(today) - n
  {
    var cut := SubtractDays(today, 31 * n).value;
    SubtractDaysOrdinal(today, 31 * n);
    if MonthIndex(today) - n < MonthIndex(cut) {
      TooFewMonths(today, cut, n);
    }
    if MonthIndex(cut) < MonthIndex(today) - n - FourYearBlocks(n) {
      TooManyMonths(today, cut, n);
    }
  }
}

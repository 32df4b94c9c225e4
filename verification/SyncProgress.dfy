/** The progress figure of a session, in hundredths of a percent. */
module SyncProgress {
  import opened SyncModel
  import opened SyncRuns

  /** Python's round: the nearest integer to n / d, a tie going to the even one. */
  function Rounded(n: int, d: int): int
    requires d > 0
  {
    var q, r := n / d, n % d;
    if 2 * r < d then q else if 2 * r > d then q + 1 else if q % 2 == 0 then q else q + 1
  }

  function Progress(x: Session): int
    requires x.total >= 0
  {
    if x.total == 0 then 0 else Rounded(10000 * (x.succeeded + x.failed), x.total)
  }

  /** It is a nearest integer. */
  lemma RoundedIsNearest(n: int, d: int)
    requires d > 0
    ensures -d <= 2 * (n - Rounded(n, d) * d) <= d
    ensures 2 * (n - Rounded(n, d) * d) == d ==> Rounded(n, d) % 2 == 0
    ensures 2 * (n - Rounded(n, d) * d) == -d ==> Rounded(n, d) % 2 == 0
  {
  }

  lemma MultiplesApart(a: int, b: int, d: int)
    requires d > 0 && a < b
    ensures a * d + d <= b * d
  {
    var k := b - a - 1;
    assert k * d >= 0;
    assert b * d == a * d + d + k * d;
  }

  /** Nothing rounds past a whole number it does not pass itself. */
  lemma RoundedWithin(n: int, d: int, whole: int)
    requires d > 0
    ensures n <= whole * d ==> Rounded(n, d) <= whole
    ensures n >= whole * d ==> Rounded(n, d) >= whole
  {
    var m := Rounded(n, d);
    RoundedIsNearest(n, d);
    if n <= whole * d && m > whole {
      MultiplesApart(whole, m, d);
    }
    if n >= whole * d && m < whole {
      MultiplesApart(m, whole, d);
    }
  }

  /** With the counts within the total, progress is within 0 to 100 percent. */
  lemma ProgressWithinBounds(x: Session)
    requires 0 <= x.succeeded + x.failed <= x.total
    ensures 0 <= Progress(x) <= 10000
  {
    if x.total > 0 {
      RoundedWithin(10000 * (x.succeeded + x.failed), x.total, 0);
      RoundedWithin(10000 * (x.succeeded + x.failed), x.total, 10000);
    }
  }

  /** What rounds up to an even whole number is what falls short of it by at most a half. */
  lemma RoundsUpTo(n: int, d: int, whole: int)
    requires d > 0 && n <= whole * d && whole % 2 == 0
    ensures Rounded(n, d) == whole <==> 2 * (whole * d - n) <= d
  {
    var m := Rounded(n, d);
    RoundedIsNearest(n, d);
    RoundedWithin(n, d, whole);
    if m < whole - 1 {
      MultiplesApart(m, whole - 1, d);
      MultiplesApart(whole - 1, whole, d);
    } else if m == whole - 1 {
      assert m * d + d == whole * d;
    }
  }

  /** It reads 100.00 from the moment what is left is at most one instance in twenty thousand, not only at the end. */
  lemma FullProgressIff(x: Session)
    requires 0 <= x.succeeded + x.failed <= x.total && x.total > 0
    ensures Progress(x) == 10000 <==> 20000 * (x.total - x.succeeded - x.failed) <= x.total
  {
    RoundsUpTo(10000 * (x.succeeded + x.failed), x.total, 10000);
  }

  ghost predicate CountsWithin(s: Store, sid: string)
    requires sid in s.sessions
  {
    0 <= s.sessions[sid].succeeded && 0 <= s.sessions[sid].failed
    && s.sessions[sid].succeeded + s.sessions[sid].failed <= |RecordsOf(s, sid)|
  }

  /** The stored counts are always those of some moment, so they stay within the number of records. */
  lemma {:induction false} RunCountsWithin(s: Store, ops: seq<Op>, sid: string)
    requires Valid(s) && Fresh(s, sid)
    ensures CountsWithin(Run(s, ops), sid)
  {
    if ops == [] {
    } else {
      var before, op := Run(s, ops[..|ops| - 1]), ops[|ops| - 1];
      RunCountsWithin(s, ops[..|ops| - 1], sid);
      TotalStays(s, ops[..|ops| - 1], sid);
      TotalStays(s, ops, sid);
      if Finishes(before, op, sid) {
        FinishRecounts(before, op, sid);
        CountsAddUpIff(Run(s, ops), sid);
      } else if !CancelsNow(before, op, sid) {
        SessionRowStays(before, op, sid);
      }
    }
  }

  /** Over every run, the progress shown stays within 0 to 100 percent. */
  lemma RunProgressWithinBounds(s: Store, ops: seq<Op>, sid: string)
    requires Valid(s) && Fresh(s, sid)
    ensures Run(s, ops).sessions[sid].total > 0
    ensures 0 <= Progress(Run(s, ops).sessions[sid]) <= 10000
  {
    TotalStays(s, ops, sid);
    RunCountsWithin(s, ops, sid);
    ProgressWithinBounds(Run(s, ops).sessions[sid]);
  }
}

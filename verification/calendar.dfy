/**
 * The per-user calendar: a month grid that starts on the weekday of the 1st,
 * month navigation, and each day's logs.
 *
 * Dates use the proleptic Gregorian calendar with months numbered from 0
 * (January) as the page numbers them; a day number counts days from
 * 1970-01-01, which was a Thursday.
 */
module Calendar {
  import opened Options
  import opened Seqs
  import opened Shift
  import opened Records

  datatype YearMonth = YearMonth(year: int, month: int)

  predicate Valid(ym: YearMonth) {
    0 <= ym.month < 12
  }

  predicate IsLeap(y: int) {
    y % 4 == 0 && (y % 100 != 0 || y % 400 == 0)
  }

  /** Days before 1 March of year `y + 1` counted from 1 March of year 0, shifted to the epoch. */
  function MarchYears(y: int): int {
    365 * y + y / 4 - y / 100 + y / 400
  }

  /** Day number of `(year, month, day)`; day 1 of month 0 of 1970 is day 0. */
  function DayNumber(year: int, month: int, day: int): int
    requires 0 <= month < 12
  {
    var y := if month < 2 then year - 1 else year;
    MarchYears(y) + MonthOffset(month) + day - 1 - 719_468
  }

  /** Days from 1 March to the 1st of `month` (January and February close the March year). */
  function MonthOffset(month: int): nat
    requires 0 <= month < 12
  {
    match month
    case 0 => 306 case 1 => 337 case 2 => 0 case 3 => 31 case 4 => 61 case 5 => 92
    case 6 => 122 case 7 => 153 case 8 => 184 case 9 => 214 case 10 => 245 case _ => 275
  }

  /** `new Date(year, month + 1, 0).getDate()`: the number of days of the month. */
  function DaysInMonth(ym: YearMonth): nat
    requires Valid(ym)
  {
    if ym.month == 1 then (if IsLeap(ym.year) then 29 else 28)
    else if ym.month in {3, 5, 8, 10} then 30
    else 31
  }

  /** `getDay()` of a day number: 0 for Sunday through 6 for Saturday. */
  function Weekday(dayNumber: int): nat {
    (dayNumber + 4) % 7
  }

  /** `new Date(year, month, 1).getDay()`. */
  function FirstDay(ym: YearMonth): nat
    requires Valid(ym)
  {
    Weekday(DayNumber(ym.year, ym.month, 1))
  }

  function Prev(ym: YearMonth): (r: YearMonth)
    requires Valid(ym)
    ensures Valid(r)
  {
    if ym.month == 0 then YearMonth(ym.year - 1, 11) else YearMonth(ym.year, ym.month - 1)
  }

  function Next(ym: YearMonth): (r: YearMonth)
    requires Valid(ym)
    ensures Valid(r)
  {
    if ym.month == 11 then YearMonth(ym.year + 1, 0) else YearMonth(ym.year, ym.month + 1)
  }

  /** The arrows undo each other. */
  lemma PrevNextInverse(ym: YearMonth)
    requires Valid(ym)
    ensures Next(Prev(ym)) == ym && Prev(Next(ym)) == ym
  {
  }

  /** One step of `y / k` for the three divisors of the leap rule. */
  lemma FloorStep(y: int)
    ensures y / 4 - (y - 1) / 4 == if y % 4 == 0 then 1 else 0
    ensures y / 100 - (y - 1) / 100 == if y % 100 == 0 then 1 else 0
    ensures y / 400 - (y - 1) / 400 == if y % 400 == 0 then 1 else 0
  {
  }

  /** A year from 1 March to 1 March has 366 days exactly when the later year is a leap year. */
  lemma MarchYearLength(y: int)
    ensures MarchYears(y) - MarchYears(y - 1) == if IsLeap(y) then 366 else 365
  {
    FloorStep(y);
    assert y % 400 == 0 ==> y % 100 == 0 && y % 4 == 0;
    assert y % 100 == 0 ==> y % 4 == 0;
  }

  /** The month table agrees with the day count: the next month starts `DaysInMonth` days later. */
  lemma DaysInMonthAgrees(ym: YearMonth)
    requires Valid(ym)
    ensures DayNumber(Next(ym).year, Next(ym).month, 1) - DayNumber(ym.year, ym.month, 1) == DaysInMonth(ym)
  {
    if ym.month == 1 {
      MarchYearLength(ym.year);
    }
  }

  /** Consecutive days of a month have consecutive day numbers. */
  lemma DayNumberStep(ym: YearMonth, day: int)
    requires Valid(ym)
    ensures DayNumber(ym.year, ym.month, day) == DayNumber(ym.year, ym.month, 1) + day - 1
  {
  }

  /** `daysArray`: blanks up to the weekday of the 1st, then the days 1..DaysInMonth. */
  function DaysArray(ym: YearMonth): (cells: seq<Option<nat>>)
    requires Valid(ym)
    ensures |cells| == FirstDay(ym) + DaysInMonth(ym)
  {
    var first := FirstDay(ym);
    seq(first + DaysInMonth(ym), i requires 0 <= i => if i < first then None else Some(i - first + 1))
  }

  /**
   * Every day of the month appears once, in the grid column (index mod 7) of
   * its real weekday, and the leading cells are blank.
   */
  lemma DaysArrayMeaning(ym: YearMonth)
    requires Valid(ym)
    ensures var cells := DaysArray(ym);
      && FirstDay(ym) < 7
      && (forall i :: 0 <= i < FirstDay(ym) ==> cells[i].None?)
      && (forall d :: 1 <= d <= DaysInMonth(ym) ==>
            var i := FirstDay(ym) + d - 1;
            && cells[i] == Some(d)
            && i % 7 == Weekday(DayNumber(ym.year, ym.month, d)))
  {
    forall d | 1 <= d <= DaysInMonth(ym)
      ensures (FirstDay(ym) + d - 1) % 7 == Weekday(DayNumber(ym.year, ym.month, d))
    {
      DayColumn(ym, d);
    }
  }

  /** Day `d` sits `d - 1` cells after the 1st, so its column is its weekday. */
  lemma DayColumn(ym: YearMonth, d: int)
    requires Valid(ym)
    ensures (FirstDay(ym) + d - 1) % 7 == Weekday(DayNumber(ym.year, ym.month, d))
  {
    var base := DayNumber(ym.year, ym.month, 1);
    DayNumberStep(ym, d);
    assert FirstDay(ym) == (base + 4) % 7;
    ModAdd(base + 4, d - 1);
  }

  lemma ModAdd(a: int, b: int)
    ensures (a % 7 + b) % 7 == (a + b) % 7
  {
  }

  // ---------------------------------------------------------------- logs by day

  function DayKey(p: Post): int {
    DayOf(SortKey(p))
  }

  /**
   * `grouped`: the logs keyed by their day. `toISOString` throws on a log
   * without a valid date, so a single undated log leaves no calendar (None).
   */
  function Grouped(logs: seq<Post>): (r: Option<seq<(int, seq<Post>)>>)
    ensures r.None? <==> exists p :: p in logs && p.at.None?
  {
    if forall i :: 0 <= i < |logs| ==> logs[i].at.Some? then Some(GroupBy(logs, DayKey))
    else None
  }

  /** `grouped[dateKey] || []`. */
  function Lookup(gs: seq<(int, seq<Post>)>, k: int): seq<Post> {
    if |gs| == 0 then [] else if gs[0].0 == k then gs[0].1 else Lookup(gs[1..], k)
  }

  lemma {:induction false} LookupFinds(gs: seq<(int, seq<Post>)>, i: nat, k: int)
    requires i < |gs| && gs[i].0 == k
    requires forall j :: 0 <= j < i ==> gs[j].0 != k
    ensures Lookup(gs, k) == gs[i].1
  {
    if i > 0 {
      LookupFinds(gs[1..], i - 1, k);
    }
  }

  lemma {:induction false} LookupMissing(gs: seq<(int, seq<Post>)>, k: int)
    requires forall j :: 0 <= j < |gs| ==> gs[j].0 != k
    ensures Lookup(gs, k) == []
  {
    if |gs| > 0 {
      LookupMissing(gs[1..], k);
    }
  }

  /** The logs a calendar cell shows: exactly those dated on that day, in their original order. */
  lemma CellLogs(logs: seq<Post>, k: int)
    requires Grouped(logs).Some?
    ensures Lookup(Grouped(logs).value, k) == WithKey(logs, DayKey, k)
  {
    var gs := GroupBy(logs, DayKey);
    assert Keys(gs) == Distinct(MapKey(logs, DayKey))
      && forall i :: 0 <= i < |gs| ==> gs[i].1 == WithKey(logs, DayKey, gs[i].0)
    by {
      GroupByIsPartition(logs, DayKey);
    }
    if i :| 0 <= i < |gs| && gs[i].0 == k {
      assert NoDuplicates(Keys(gs));
      forall j | 0 <= j < i ensures gs[j].0 != k {
        assert Keys(gs)[j] != Keys(gs)[i];
      }
      LookupFinds(gs, i, k);
    } else {
      LookupMissing(gs, k);
      assert k !in Keys(gs);
      WithKeyAbsent(logs, DayKey, k);
    }
  }
}

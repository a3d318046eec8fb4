/**
 * The two date-range rules the pages use. Both take the day numbers the
 * "from" and "to" date inputs name (None when blank) and reject an undated
 * log as soon as either bound is set.
 *
 *  - Through the next midnight (activity log list, dashboard): from the start
 *    day's midnight, up to but excluding the midnight after the end day.
 *    Those pages read a bare "YYYY-MM-DD" as UTC midnight; every bound here
 *    is a midnight of the model's single time line, which is exact only
 *    where local time is UTC.
 *  - Through 23:59:59 (timekeeping table): the end bound is the end day's
 *    last whole second, inclusive.
 */
module DayRange {
  import opened Options
  import opened Shift

  datatype Range = Range(startDay: Option<int>, endDay: Option<int>)

  const NoRange := Range(None, None)

  /** The end bound of the timekeeping table: 23:59:59.000 of the end day. */
  const LastSecond: nat := 86_399_000

  predicate AfterStart(range: Range, at: Option<int>) {
    range.startDay.None? || (at.Some? && at.value >= range.startDay.value * DayMs)
  }

  /** `d >= start && d < end + 1 day`. */
  predicate Within(range: Range, at: Option<int>) {
    AfterStart(range, at)
    && (range.endDay.None? || (at.Some? && at.value < range.endDay.value * DayMs + DayMs))
  }

  /** `d >= start T00:00:00 && d <= end T23:59:59`. */
  predicate WithinToLastSecond(range: Range, at: Option<int>) {
    AfterStart(range, at)
    && (range.endDay.None? || (at.Some? && at.value <= range.endDay.value * DayMs + LastSecond))
  }

  /** Through the next midnight: exactly the logs whose day lies within the range. */
  lemma WithinByDay(range: Range, at: int)
    ensures Within(range, Some(at)) <==>
      (range.startDay.None? || DayOf(at) >= range.startDay.value)
      && (range.endDay.None? || DayOf(at) <= range.endDay.value)
  {
    InstantSplits(at);
  }

  /** Through 23:59:59: the logs whose day lies within the range, less the end day's final second. */
  lemma ToLastSecondByDay(range: Range)
    ensures forall at :: WithinToLastSecond(range, Some(at)) <==>
      (range.startDay.None? || DayOf(at) >= range.startDay.value)
      && (range.endDay.None? || DayOf(at) < range.endDay.value
          || (DayOf(at) == range.endDay.value && TimeOf(at) <= LastSecond))
  {
    forall at: int {
      InstantSplits(at);
    }
  }

  /** The two rules differ only on the end day's final second, 23:59:59.001 onwards. */
  lemma RulesDiffer(range: Range, at: int)
    ensures WithinToLastSecond(range, Some(at)) ==> Within(range, Some(at))
    ensures Within(range, Some(at)) && !WithinToLastSecond(range, Some(at)) <==>
      AfterStart(range, Some(at)) && range.endDay.Some?
      && DayOf(at) == range.endDay.value && TimeOf(at) > LastSecond
  {
    InstantSplits(at);
  }

  /** An undated log passes either rule only when no bound is set. */
  lemma UndatedWithin(range: Range)
    ensures Within(range, None) <==> range == NoRange
    ensures WithinToLastSecond(range, None) <==> range == NoRange
  {
  }
}

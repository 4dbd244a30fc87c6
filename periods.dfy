/**
 * Month-granular periods.
 *
 * The dashboard turns each record's Year and Month into a first-of-month
 * timestamp.  A first-of-month timestamp is determined by its (year, month)
 * pair, so a period is modelled as the number of months since January of
 * year 0: `year * 12 + month - 1`.  Timestamp order is then integer order
 * and shifting by whole calendar months is integer subtraction.
 */
module Periods {
  import opened Wrappers

  type Period = int

  /** October 1677: the first month whose first day a nanosecond timestamp can hold. */
  const EarliestPeriod: Period := 1677 * 12 + 9
  /** April 2262: the last month whose first day a nanosecond timestamp can hold. */
  const LatestRepresentable: Period := 2262 * 12 + 3

  function YearOf(p: Period): int { p / 12 }

  function MonthOf(p: Period): (m: int)
    ensures 1 <= m <= 12
  { p % 12 + 1 }

  /** The lexicographic order on (year, month) pairs. */
  predicate CalendarBefore(y1: int, m1: int, y2: int, m2: int) {
    y1 < y2 || (y1 == y2 && m1 < m2)
  }

  /**
   * The period of a year and a month, or None when the two do not form a
   * timestamp: the month, zero-padded, must be 01..12 for the "%Y-%m" format,
   * and the first day of the month must lie in the timestamp range.
   */
  function MakePeriod(year: int, month: int): (r: Option<Period>)
    ensures r.Some? <==> 1 <= month <= 12 && EarliestPeriod <= year * 12 + month - 1 <= LatestRepresentable
    ensures r.Some? ==> YearOf(r.value) == year && MonthOf(r.value) == month
  {
    if 1 <= month <= 12 && EarliestPeriod <= year * 12 + month - 1 <= LatestRepresentable
    then Some(year * 12 + month - 1)
    else None
  }

  /** Every representable period is the period of its own year and month. */
  lemma PeriodOfItsParts(p: Period)
    requires EarliestPeriod <= p <= LatestRepresentable
    ensures MakePeriod(YearOf(p), MonthOf(p)) == Some(p)
  {
    assert YearOf(p) * 12 + MonthOf(p) - 1 == p;
  }

  /** Two (year, month) pairs give the same period exactly when they are the same pair. */
  lemma SamePeriodIffSameMonth(y1: int, m1: int, y2: int, m2: int)
    requires MakePeriod(y1, m1).Some? && MakePeriod(y2, m2).Some?
    ensures MakePeriod(y1, m1) == MakePeriod(y2, m2) <==> y1 == y2 && m1 == m2
  {
  }

  /** Period order is the chronological (year, month) order. */
  lemma PeriodOrderIsCalendarOrder(y1: int, m1: int, y2: int, m2: int)
    requires MakePeriod(y1, m1).Some? && MakePeriod(y2, m2).Some?
    ensures MakePeriod(y1, m1).value < MakePeriod(y2, m2).value <==> CalendarBefore(y1, m1, y2, m2)
  {
  }

  /** The first day of the month `k` calendar months before `p` (a month offset). */
  function MonthsBefore(p: Period, k: nat): (r: Period)
    ensures k > 0 ==> r < p
  {
    p - k
  }

  /** One calendar month back: January steps into December of the year before. */
  lemma OneMonthBefore(p: Period)
    ensures MonthOf(p) == 1 ==> YearOf(MonthsBefore(p, 1)) == YearOf(p) - 1 && MonthOf(MonthsBefore(p, 1)) == 12
    ensures MonthOf(p) > 1 ==> YearOf(MonthsBefore(p, 1)) == YearOf(p) && MonthOf(MonthsBefore(p, 1)) == MonthOf(p) - 1
  {
  }

  /** January 2024 minus one month is December 2023. */
  lemma JanuaryStepsBackToDecember()
    ensures MonthsBefore(MakePeriod(2024, 1).value, 1) == MakePeriod(2023, 12).value
  {
  }
}

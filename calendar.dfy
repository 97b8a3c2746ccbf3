/**
 * Proleptic Gregorian calendar dates with the arithmetic of Python's `datetime.date`:
 * the constructor's range checks, `toordinal()`, and date subtraction in whole days.
 */
module Calendar {
  import opened Wrappers

  const MinYear := 1
  const MaxYear := 9999

  /** A calendar date; `Valid` says it is one Python's `date` would accept. */
  datatype Date = Date(year: int, month: int, day: int) {
    predicate Valid() {
      MinYear <= year <= MaxYear && 1 <= month <= 12 && 1 <= day <= MonthLength(year, month)
    }
  }

  predicate IsLeap(year: int) {
    year % 4 == 0 && (year % 100 != 0 || year % 400 == 0)
  }

  /** Number of days in `month` of `year` (February has 29 in leap years). */
  function MonthLength(year: int, month: int): (n: int)
    requires 1 <= month <= 12
    ensures 28 <= n <= 31
    ensures month == 2 <==> n < 30
    ensures n == 29 <==> month == 2 && IsLeap(year)
  {
    if month == 2 then (if IsLeap(year) then 29 else 28)
    else if month == 4 || month == 6 || month == 9 || month == 11 then 30
    else 31
  }

  /** Python's `date(year, month, day)`: `None` where it raises `ValueError`. */
  function MakeDate(year: int, month: int, day: int): (r: Option<Date>)
    ensures r.Some? <==> Date(year, month, day).Valid()
    ensures r.Some? ==> r.value == Date(year, month, day)
  {
    if MinYear <= year <= MaxYear && 1 <= month <= 12 && 1 <= day <= MonthLength(year, month)
    then Some(Date(year, month, day))
    else None
  }

  /** Days in the years before `year` (Python's `_days_before_year`). */
  function DaysBeforeYear(year: int): int {
    var y := year - 1;
    y * 365 + y / 4 - y / 100 + y / 400
  }

  /** Days in the months of `year` before `month` (Python's `_days_before_month`). */
  function DaysBeforeMonth(year: int, month: int): int
    requires 1 <= month <= 12
  {
    var table := [0, 31, 59, 90, 120, 151, 181, 212, 243, 273, 304, 334];
    table[month - 1] + (if month > 2 && IsLeap(year) then 1 else 0)
  }

  /** Python's `date.toordinal()`: 1 January of year 1 is day 1. */
  function Ordinal(d: Date): int
    requires 1 <= d.month <= 12
  {
    DaysBeforeYear(d.year) + DaysBeforeMonth(d.year, d.month) + d.day
  }

  /** `(b - a).days` for two dates. */
  function DaysBetween(a: Date, b: Date): int
    requires 1 <= a.month <= 12 && 1 <= b.month <= 12
  {
    Ordinal(b) - Ordinal(a)
  }

  /** The order of dates, which is also the order of their ISO "YYYY-MM-DD" strings. */
  predicate Before(a: Date, b: Date) {
    a.year < b.year || (a.year == b.year && (a.month < b.month || (a.month == b.month && a.day < b.day)))
  }

  predicate AtOrAfter(a: Date, b: Date) {
    !Before(a, b)
  }

  /** `start <= d < end`, the half-open range of the attendance queries. */
  predicate InHalfOpen(d: Date, start: Date, end: Date) {
    AtOrAfter(d, start) && Before(d, end)
  }

  lemma StepBy4(a: int)
    requires a >= 0
    ensures (a + 1) / 4 - a / 4 == if (a + 1) % 4 == 0 then 1 else 0
  {
  }

  lemma StepBy100(a: int)
    requires a >= 0
    ensures (a + 1) / 100 - a / 100 == if (a + 1) % 100 == 0 then 1 else 0
  {
  }

  lemma StepBy400(a: int)
    requires a >= 0
    ensures (a + 1) / 400 - a / 400 == if (a + 1) % 400 == 0 then 1 else 0
  {
  }

  /** A year has 365 days, or 366 in a leap year. */
  lemma {:induction false} YearLength(year: int)
    requires year >= 1
    ensures DaysBeforeYear(year + 1) - DaysBeforeYear(year) == if IsLeap(year) then 366 else 365
  {
    var a := year - 1;
    StepBy4(a);
    StepBy100(a);
    StepBy400(a);
    assert DaysBeforeYear(year) == a * 365 + a / 4 - a / 100 + a / 400;
    assert DaysBeforeYear(year + 1) == (a + 1) * 365 + (a + 1) / 4 - (a + 1) / 100 + (a + 1) / 400;
  }

  /**
   * The first day of the month after `month`: the calendar variant's if/else
   * (December rolls to January of the next year), `None` where `date` raises.
   */
  function NextMonthStart(year: int, month: int): (r: Option<Date>)
    requires 1 <= month <= 12
    ensures r.Some? <==> if month == 12 then MinYear <= year + 1 <= MaxYear else MinYear <= year <= MaxYear
    ensures r.Some? ==> r.value.Valid() && r.value.day == 1
    ensures r.Some? && month == 12 ==> r.value.year == year + 1 && r.value.month == 1
    ensures r.Some? && month < 12 ==> r.value.year == year && r.value.month == month + 1
  {
    if month == 12 then MakeDate(year + 1, 1, 1) else MakeDate(year, month + 1, 1)
  }

  /** The same date built as the fixed variant does: `date(year + month // 12, month % 12 + 1, 1)`. */
  function NextMonthStartByModulo(year: int, month: int): (r: Option<Date>)
    requires 1 <= month <= 12
  {
    MakeDate(year + month / 12, month % 12 + 1, 1)
  }

  /** Both ways of computing the end of the month give the same date (and the same error). */
  lemma NextMonthStartFormsAgree(year: int, month: int)
    requires 1 <= month <= 12
    ensures NextMonthStartByModulo(year, month) == NextMonthStart(year, month)
  {
  }

  /** The payroll month: `Some((month_start, month_end))`, or `None` where Python raises. */
  function MonthRange(year: int, month: int): (r: Option<(Date, Date)>)
    ensures r.Some? <==> MinYear <= year <= MaxYear && 1 <= month <= 12 && !(year == MaxYear && month == 12)
    ensures r.Some? ==> r.value.0 == Date(year, month, 1) && r.value.0.Valid() && r.value.1.Valid()
    ensures r.Some? ==> Before(r.value.0, r.value.1)
  {
    match MakeDate(year, month, 1)
    case None => None
    case Some(start) =>
      match NextMonthStart(year, month)
      case None => None
      case Some(end) => Some((start, end))
  }

  /**
   * `(month_end - month_start).days` is the length of the month: 28 to 31, with December
   * ending on 1 January of the next year.
   */
  lemma {:induction false} MonthRangeLength(year: int, month: int)
    requires MonthRange(year, month).Some?
    ensures var (start, end) := MonthRange(year, month).value;
      DaysBetween(start, end) == MonthLength(year, month) && 28 <= DaysBetween(start, end) <= 31
  {
    if month == 12 {
      YearLength(year);
    }
  }

  /**
   * A valid date lies in a month's half-open range exactly when it is a day of that
   * month, so the range query neither drops nor adds a day.
   */
  lemma InMonthRange(d: Date, year: int, month: int)
    requires MonthRange(year, month).Some? && d.Valid()
    ensures InHalfOpen(d, MonthRange(year, month).value.0, MonthRange(year, month).value.1)
      <==> d.year == year && d.month == month
    ensures InHalfOpen(d, MonthRange(year, month).value.0, MonthRange(year, month).value.1)
      ==> 1 <= d.day <= MonthLength(year, month)
  {
  }

  /** The first `n` days of a month, as a set of dates. */
  function MonthDays(year: int, month: int, n: nat): (s: set<Date>)
    ensures |s| <= n
    ensures forall d :: d in s <==> d.year == year && d.month == month && 1 <= d.day <= n
  {
    if n == 0 then {} else
      var prev := MonthDays(year, month, n - 1);
      assert forall d :: d in prev + {Date(year, month, n)} <==> d.year == year && d.month == month && 1 <= d.day <= n;
      prev + {Date(year, month, n)}
  }

  /** At most `MonthLength` distinct valid dates fall inside a month's range. */
  lemma {:induction false} DistinctDatesInMonth(s: set<Date>, year: int, month: int)
    requires MonthRange(year, month).Some?
    requires forall d :: d in s ==> d.Valid() && InHalfOpen(d, MonthRange(year, month).value.0, MonthRange(year, month).value.1)
    ensures |s| <= MonthLength(year, month)
  {
    var all := MonthDays(year, month, MonthLength(year, month));
    forall d | d in s ensures d in all {
      InMonthRange(d, year, month);
    }
    assert s <= all;
    assert all == s + (all - s);
  }
}

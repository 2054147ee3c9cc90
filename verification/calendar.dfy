/** Proleptic Gregorian dates and timestamps, with the pieces of SQL date
    arithmetic the stores use: `ts - INTERVAL 'n MONTHS'`, `DATE_TRUNC('month', ts)`
    and `ts::date`. */
module Calendar {
  import Ordering

  datatype Date = Date(year: int, month: int, day: int)

  const MicrosPerHour: int := 3_600_000_000
  const MicrosPerDay: int := 24 * MicrosPerHour

  /** A timestamp is a date and the microseconds elapsed since its midnight. */
  datatype Timestamp = Timestamp(date: Date, micros: int)

  predicate IsLeapYear(year: int) {
    year % 4 == 0 && (year % 100 != 0 || year % 400 == 0)
  }

  function DaysInMonth(year: int, month: int): (n: int)
    requires 1 <= month <= 12
    ensures 28 <= n <= 31
    ensures month == 2 ==> (n == 29 <==> IsLeapYear(year))
  {
    if month == 2 then (if IsLeapYear(year) then 29 else 28)
    else if month == 4 || month == 6 || month == 9 || month == 11 then 30
    else 31
  }

  predicate ValidDate(d: Date) {
    1 <= d.month <= 12 && 1 <= d.day <= DaysInMonth(d.year, d.month)
  }

  predicate ValidTimestamp(t: Timestamp) {
    ValidDate(t.date) && 0 <= t.micros < MicrosPerDay
  }

  /** Chronological order on dates. */
  predicate DateLe(a: Date, b: Date) {
    || a.year < b.year
    || (a.year == b.year && a.month < b.month)
    || (a.year == b.year && a.month == b.month && a.day <= b.day)
  }

  /** Chronological order on timestamps. */
  predicate TimestampLe(a: Timestamp, b: Timestamp) {
    if a.date == b.date then a.micros <= b.micros else DateLe(a.date, b.date)
  }

  /** Strictly earlier. */
  predicate Before(a: Timestamp, b: Timestamp) {
    !TimestampLe(b, a)
  }

  lemma DateLeIsTotalPreorder()
    ensures Ordering.TotalPreorder(DateLe)
  {
  }

  /** The wall-clock hour, 0 to 23. */
  function Hour(t: Timestamp): (h: int)
    requires ValidTimestamp(t)
    ensures 0 <= h < 24
    ensures h * MicrosPerHour <= t.micros < (h + 1) * MicrosPerHour
  {
    t.micros / MicrosPerHour
  }

  /** `DATE_TRUNC('month', a) = DATE_TRUNC('month', b)`. */
  predicate SameMonth(a: Timestamp, b: Timestamp) {
    a.date.year == b.date.year && a.date.month == b.date.month
  }

  /** Months elapsed since January of year 0. */
  function MonthIndex(d: Date): int {
    d.year * 12 + (d.month - 1)
  }

  /** `t - INTERVAL 'n MONTHS'`: move the year and month back by `n` months and
      clamp the day to the length of the month reached. */
  function MinusMonths(t: Timestamp, n: int): (r: Timestamp)
    requires ValidTimestamp(t)
    ensures ValidTimestamp(r)
    ensures MonthIndex(r.date) == MonthIndex(t.date) - n
    ensures r.micros == t.micros
    ensures r.date.day <= t.date.day
    ensures r.date.day < t.date.day ==> r.date.day == DaysInMonth(r.date.year, r.date.month)
  {
    var total := MonthIndex(t.date) - n;
    var year := total / 12;
    var month := total % 12 + 1;
    var day := if t.date.day <= DaysInMonth(year, month) then t.date.day else DaysInMonth(year, month);
    Timestamp(Date(year, month, day), t.micros)
  }

  /** An earlier month index means an earlier (year, month) pair. */
  lemma EarlierMonthIndex(a: Date, b: Date)
    requires 1 <= a.month <= 12 && 1 <= b.month <= 12
    requires MonthIndex(a) < MonthIndex(b)
    ensures a.year < b.year || (a.year == b.year && a.month < b.month)
  {
  }

  /** A window reaching back a positive number of months starts strictly before `t`,
      and reaching back zero months starts at `t` itself. */
  lemma MinusMonthsIsEarlier(t: Timestamp, n: int)
    requires ValidTimestamp(t) && n >= 0
    ensures n > 0 ==> Before(MinusMonths(t, n), t)
    ensures n == 0 ==> MinusMonths(t, n) == t
  {
    var r := MinusMonths(t, n);
    if n > 0 {
      EarlierMonthIndex(r.date, t.date);
    } else {
      assert r.date.year == t.date.year && r.date.month == t.date.month;
    }
  }
}

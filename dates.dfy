/** Python's `datetime.date` as (year, month, day) integers: Gregorian leap
    rules, the range 0001-01-01 .. 9999-12-31, day arithmetic that fails at
    the ends of that range, and `isoformat`. */
module Dates {
  import opened Wrappers
  import opened Strings

  const MinYear := 1
  const MaxYear := 9999

  /** The exceptions `datetime` raises. */
  datatype DateError = ValueError | OverflowError

  datatype Date = Date(year: int, month: int, day: int)

  predicate IsLeapYear(y: int) {
    y % 4 == 0 && (y % 100 != 0 || y % 400 == 0)
  }

  function DaysInMonth(y: int, m: int): (n: int)
    requires 1 <= m <= 12
    ensures 28 <= n <= 31
    ensures n == 29 <==> m == 2 && IsLeapYear(y)
  {
    if m == 2 then (if IsLeapYear(y) then 29 else 28)
    else if m == 4 || m == 6 || m == 9 || m == 11 then 30
    else 31
  }

  predicate ValidDate(d: Date) {
    MinYear <= d.year <= MaxYear && 1 <= d.month <= 12 && 1 <= d.day <= DaysInMonth(d.year, d.month)
  }

  /** `a < b` on dates. */
  predicate Before(a: Date, b: Date) {
    a.year < b.year
    || (a.year == b.year && (a.month < b.month || (a.month == b.month && a.day < b.day)))
  }

  /** `d + timedelta(days=1)`; Python raises OverflowError past 9999-12-31. */
  function NextDay(d: Date): (r: Option<Date>)
    requires ValidDate(d)
    ensures r.Some? <==> d != Date(MaxYear, 12, 31)
    ensures r.Some? ==> ValidDate(r.value) && Before(d, r.value)
  {
    if d.day < DaysInMonth(d.year, d.month) then Some(Date(d.year, d.month, d.day + 1))
    else if d.month < 12 then Some(Date(d.year, d.month + 1, 1))
    else if d.year < MaxYear then Some(Date(d.year + 1, 1, 1))
    else None
  }

  /** `d - timedelta(days=1)`; Python raises OverflowError before 0001-01-01. */
  function PrevDay(d: Date): (r: Option<Date>)
    requires ValidDate(d)
    ensures r.Some? <==> d != Date(MinYear, 1, 1)
    ensures r.Some? ==> ValidDate(r.value) && Before(r.value, d)
  {
    if d.day > 1 then Some(Date(d.year, d.month, d.day - 1))
    else if d.month > 1 then Some(Date(d.year, d.month - 1, DaysInMonth(d.year, d.month - 1)))
    else if d.year > MinYear then Some(Date(d.year - 1, 12, 31))
    else None
  }

  /** The next day is the immediate successor: no valid date lies strictly
      between a date and its next day. */
  lemma NextDayIsSuccessor(d: Date, e: Date)
    requires ValidDate(d) && ValidDate(e) && NextDay(d).Some?
    ensures Before(d, e) <==> !Before(e, NextDay(d).value)
  {
  }

  /** Subtracting a day undoes adding one. */
  lemma PrevOfNext(d: Date)
    requires ValidDate(d) && NextDay(d).Some?
    ensures PrevDay(NextDay(d).value) == Some(d)
  {
  }

  /** `d.isoformat()`: "YYYY-MM-DD" with every field zero-padded. */
  function IsoFormat(d: Date): string
    requires ValidDate(d)
  {
    PadZeros(NatToString(d.year), 4) + "-" + PadZeros(NatToString(d.month), 2) + "-"
    + PadZeros(NatToString(d.day), 2)
  }

  /** A `datetime` reduced to its date and the second of that day (the
      fraction of a second plays no part in the core). */
  datatype DateTime = DateTime(date: Date, second: int)

  predicate ValidDateTime(t: DateTime) {
    ValidDate(t.date) && 0 <= t.second < 86400
  }

  /** `t >= d` for a datetime and a date, as SQL compares them: the date
      stands for its midnight. */
  predicate AtOrAfter(t: DateTime, d: Date) {
    !Before(t.date, d)
  }

  /** `t < d` for a datetime and a date. */
  predicate BeforeDate(t: DateTime, d: Date) {
    Before(t.date, d)
  }
}

/** `DateMonth` and `daterange_by_month` (twitterscraper/utils.py). */
module DateMonths {
  import opened Wrappers
  import opened Strings
  import opened Dates

  /** A calendar month. Like the pydantic model, the fields are plain
      integers; only the date-valued properties check them. */
  datatype DateMonth = DateMonth(year: int, month: int)

  predicate ValidMonth(m: DateMonth) {
    MinYear <= m.year <= MaxYear && 1 <= m.month <= 12
  }

  /** `date_start`: `datetime.date(year, month, 1)`, which raises ValueError
      for a year or month out of range. */
  function DateStart(m: DateMonth): (r: Result<Date, DateError>)
    ensures r.Ok? <==> ValidMonth(m)
    ensures r.Ok? ==> ValidDate(r.value) && r.value.day == 1
  {
    if ValidMonth(m) then Ok(Date(m.year, m.month, 1)) else Err(ValueError)
  }

  /** `date_end_exclusive`: `date_start + relativedelta(months=1)`; adding a
      month to December 9999 leaves the year range and raises ValueError. */
  function DateEndExclusive(m: DateMonth): (r: Result<Date, DateError>)
  {
    match DateStart(m)
    case Err(e) => Err(e)
    case Ok(s) =>
      if s.month < 12 then Ok(Date(s.year, s.month + 1, 1))
      else if s.year < MaxYear then Ok(Date(s.year + 1, 1, 1))
      else Err(ValueError)
  }

  /** `date_end_inclusive`: `date_end_exclusive - timedelta(days=1)`. */
  function DateEndInclusive(m: DateMonth): (r: Result<Date, DateError>)
  {
    match DateEndExclusive(m)
    case Err(e) => Err(e)
    case Ok(x) =>
      if ValidDate(x) then
        match PrevDay(x)
        case Some(p) => Ok(p)
        case None => Err(OverflowError)
      else Err(ValueError)
  }

  /** The month after `m`, rolling December over into January. */
  function NextMonth(m: DateMonth): DateMonth {
    if m.month < 12 then DateMonth(m.year, m.month + 1) else DateMonth(m.year + 1, 1)
  }

  /** `date_end_exclusive` is the first day of the following month, with
      December rolling over into January of the next year; it fails exactly
      for invalid months and for December 9999. */
  lemma EndExclusiveIsNextMonthStart(m: DateMonth)
    ensures DateEndExclusive(m).Ok? <==> ValidMonth(m) && m != DateMonth(MaxYear, 12)
    ensures DateEndExclusive(m).Ok? ==>
      DateEndExclusive(m) == DateStart(NextMonth(m))
      && (m.month == 12 ==> DateEndExclusive(m).value == Date(m.year + 1, 1, 1))
  {
  }

  /** `date_end_inclusive` is the last day of the month (28, 29, 30 or 31 by
      the Gregorian rules) and exactly one day before `date_end_exclusive`. */
  lemma EndInclusiveIsLastDay(m: DateMonth)
    requires ValidMonth(m) && m != DateMonth(MaxYear, 12)
    ensures DateEndInclusive(m).Ok?
    ensures DateEndInclusive(m).value == Date(m.year, m.month, DaysInMonth(m.year, m.month))
    ensures NextDay(DateEndInclusive(m).value) == Some(DateEndExclusive(m).value)
  {
    EndExclusiveIsNextMonthStart(m);
  }

  /** Consecutive months tile the calendar: each month's exclusive end is
      the next month's start. */
  lemma MonthsAreContiguous(m: DateMonth)
    requires ValidMonth(m) && m != DateMonth(MaxYear, 12)
    ensures DateStart(NextMonth(m)).Ok?
    ensures DateEndExclusive(m) == DateStart(NextMonth(m))
    ensures Before(DateStart(m).value, DateStart(NextMonth(m)).value)
  {
    EndExclusiveIsNextMonthStart(m);
  }

  /** Python's f"{i:02d}": zero padding, but a negative number only gets its
      sign (it is already two characters wide). */
  function PadInt2(i: int): string {
    if i < 0 then "-" + NatToString(-i) else PadZeros(NatToString(i), 2)
  }

  function IntToString(i: int): string {
    if i < 0 then "-" + NatToString(-i) else NatToString(i)
  }

  /** `isoformat`: f"{year}-{month:02d}". */
  function IsoFormat(m: DateMonth): string {
    IntToString(m.year) + "-" + PadInt2(m.month)
  }

  /** Why `from_isoformat` failed: too few chunks (IndexError) or a chunk
      that is not a number (pydantic's ValidationError). */
  datatype ParseError = IndexError | ValidationError

  /** `from_isoformat`: split on "-" and read the first two chunks as the
      year and the month. */
  function FromIsoFormat(s: string): (r: Result<DateMonth, ParseError>)
  {
    var chunks := Split(s, '-');
    if |chunks| < 2 then Err(IndexError)
    else match (ParseNat(chunks[0]), ParseNat(chunks[1]))
      case (Some(y), Some(mo)) => Ok(DateMonth(y, mo))
      case _ => Err(ValidationError)
  }

  /** `from_date`: the month of a date, read back from `d.isoformat()`. */
  function FromDate(d: Date): Result<DateMonth, ParseError>
    requires ValidDate(d)
  {
    FromIsoFormat(Dates.IsoFormat(d))
  }

  lemma {:induction false} SplitWithoutSeparator(a: string, sep: char)
    requires sep !in a
    ensures Split(a, sep) == [a]
    decreases |a|
  {
    if a != [] {
      SplitWithoutSeparator(a[1..], sep);
      assert [a[0]] + a[1..] == a;
    }
  }

  lemma {:induction false} SplitAtFirstSeparator(a: string, sep: char, b: string)
    requires sep !in a
    ensures Split(a + [sep] + b, sep) == [a] + Split(b, sep)
    decreases |a|
  {
    if a == [] {
      assert a + [sep] + b == [sep] + b;
      assert ([sep] + b)[1..] == b;
    } else {
      var s := a + [sep] + b;
      assert s[1..] == a[1..] + [sep] + b;
      SplitAtFirstSeparator(a[1..], sep, b);
      assert [a[0]] + a[1..] == a;
    }
  }

  /** `from_isoformat(isoformat)` gives back the same (year, month) for
      every month whose fields are not negative. */
  lemma IsoFormatRoundTrip(m: DateMonth)
    requires m.year >= 0 && m.month >= 0
    ensures FromIsoFormat(IsoFormat(m)) == Ok(m)
  {
    var y := NatToString(m.year);
    var mo := PadZeros(NatToString(m.month), 2);
    assert IsoFormat(m) == y + ['-'] + mo;
    SplitAtFirstSeparator(y, '-', mo);
    SplitWithoutSeparator(mo, '-');
    ParseNatToString(m.year);
    ParsePadded(m.month, 2);
  }

  /** `from_date(d)` is the month (d.year, d.month). */
  lemma FromDateIsMonthOfDate(d: Date)
    requires ValidDate(d)
    ensures FromDate(d) == Ok(DateMonth(d.year, d.month))
  {
    var y := PadZeros(NatToString(d.year), 4);
    var mo := PadZeros(NatToString(d.month), 2);
    var dd := PadZeros(NatToString(d.day), 2);
    assert Dates.IsoFormat(d) == y + ['-'] + (mo + ['-'] + dd);
    SplitAtFirstSeparator(y, '-', mo + ['-'] + dd);
    SplitAtFirstSeparator(mo, '-', dd);
    ParsePadded(d.year, 4);
    ParsePadded(d.month, 2);
  }

  // ---------------------------------------------------------------------
  // daterange_by_month

  /** Months counted from year 0: (y, m) is month number y * 12 + m - 1. */
  function MonthIndex(y: int, m: int): int {
    y * 12 + (m - 1)
  }

  function MonthOfIndex(i: int): (m: DateMonth)
    ensures 1 <= m.month <= 12 && MonthIndex(m.year, m.month) == i
  {
    DateMonth(i / 12, i % 12 + 1)
  }

  /** The date rrule(MONTHLY) proposes in month `m` when it keeps the
      start's day of month; only months that have that day are proposed. */
  predicate HasDay(m: DateMonth, day: int)
    requires 1 <= m.month <= 12
  {
    1 <= day <= DaysInMonth(m.year, m.month)
  }

  /** The months with index in [i, last] whose date on `day` exists and is
      not after `endInc`, in increasing order. */
  function MonthlyFrom(i: int, last: int, day: int, endInc: Date): (r: seq<DateMonth>)
    decreases last - i
  {
    if i > last then []
    else
      var m := MonthOfIndex(i);
      var rest := MonthlyFrom(i + 1, last, day, endInc);
      if HasDay(m, day) && !Before(endInc, Date(m.year, m.month, day)) then [m] + rest else rest
  }

  /** `daterange_by_month(start_date, end_date_inc)`: the months of
      `rrule(MONTHLY, dtstart=start_date, until=end_date_inc)`. The rule
      keeps `start_date`'s day of month, so months without that day are
      skipped and the last month is included only when its date on that day
      is not after `end_date_inc`. The caller supplies `end_date_inc`; the
      Python default, today's date, is a parameter of the callers. */
  function DaterangeByMonth(start: Date, endInc: Date): seq<DateMonth>
    requires ValidDate(start) && ValidDate(endInc)
  {
    MonthlyFrom(MonthIndex(start.year, start.month), MonthIndex(endInc.year, endInc.month), start.day, endInc)
  }

  /** The month with index `i` is yielded exactly when it lies in the
      scanned range, has the day, and that date is not after the end. */
  lemma {:induction false} MonthlyFromMembership(i: int, last: int, day: int, endInc: Date, m: DateMonth)
    ensures m in MonthlyFrom(i, last, day, endInc) <==>
      1 <= m.month <= 12 && i <= MonthIndex(m.year, m.month) <= last
      && HasDay(m, day) && !Before(endInc, Date(m.year, m.month, day))
    decreases last - i
  {
    if i <= last {
      MonthlyFromMembership(i + 1, last, day, endInc, m);
      var h := MonthOfIndex(i);
      if 1 <= m.month <= 12 && MonthIndex(m.year, m.month) == i {
        assert m == h;
      }
    }
  }

  /** Every yielded month comes after all months before index `i`. */
  lemma {:induction false} MonthlyFromBounds(i: int, last: int, day: int, endInc: Date)
    ensures forall k | 0 <= k < |MonthlyFrom(i, last, day, endInc)| ::
      var m := MonthlyFrom(i, last, day, endInc)[k];
      1 <= m.month <= 12 && i <= MonthIndex(m.year, m.month) <= last
    decreases last - i
  {
    if i <= last { MonthlyFromBounds(i + 1, last, day, endInc); }
  }

  /** Strictly increasing month numbers. */
  predicate Increasing(r: seq<DateMonth>) {
    forall a, b | 0 <= a < b < |r| ::
      MonthIndex(r[a].year, r[a].month) < MonthIndex(r[b].year, r[b].month)
  }

  lemma {:induction false} MonthlyFromIncreasing(i: int, last: int, day: int, endInc: Date)
    ensures Increasing(MonthlyFrom(i, last, day, endInc))
    decreases last - i
  {
    if i <= last {
      var m := MonthOfIndex(i);
      var rest := MonthlyFrom(i + 1, last, day, endInc);
      MonthlyFromIncreasing(i + 1, last, day, endInc);
      MonthlyFromBounds(i + 1, last, day, endInc);
      if HasDay(m, day) && !Before(endInc, Date(m.year, m.month, day)) {
        var r := [m] + rest;
        forall a, b | 0 <= a < b < |r|
          ensures MonthIndex(r[a].year, r[a].month) < MonthIndex(r[b].year, r[b].month)
        {
          assert r[b] == rest[b - 1];
          if a > 0 {
            assert r[a] == rest[a - 1];
          } else {
            assert i + 1 <= MonthIndex(rest[b - 1].year, rest[b - 1].month);
          }
        }
        assert MonthlyFrom(i, last, day, endInc) == r;
      }
    }
  }

  /** An empty span yields nothing. */
  lemma EmptyWhenStartAfterEnd(start: Date, endInc: Date)
    requires ValidDate(start) && ValidDate(endInc) && Before(endInc, start)
    ensures DaterangeByMonth(start, endInc) == []
  {
    var r := DaterangeByMonth(start, endInc);
    if r != [] {
      var m := r[0];
      MonthlyFromMembership(MonthIndex(start.year, start.month),
        MonthIndex(endInc.year, endInc.month), start.day, endInc, m);
      assert false;
    }
  }

  /** For a non-empty span the first month is the start's month; months
      strictly increase; each one has a valid date on the start's day of
      month, and that date is not after the end. */
  lemma DaterangeByMonthShape(start: Date, endInc: Date)
    requires ValidDate(start) && ValidDate(endInc) && !Before(endInc, start)
    ensures var r := DaterangeByMonth(start, endInc);
      r != [] && r[0] == DateMonth(start.year, start.month) && Increasing(r)
      && (forall k | 0 <= k < |r| ::
            ValidMonth(r[k]) && ValidDate(Date(r[k].year, r[k].month, start.day))
            && !Before(endInc, Date(r[k].year, r[k].month, start.day)))
  {
    var i := MonthIndex(start.year, start.month);
    var last := MonthIndex(endInc.year, endInc.month);
    var r := DaterangeByMonth(start, endInc);
    assert MonthOfIndex(i) == DateMonth(start.year, start.month);
    assert r[0] == DateMonth(start.year, start.month);
    MonthlyFromIncreasing(i, last, start.day, endInc);
    forall k | 0 <= k < |r|
      ensures ValidMonth(r[k]) && ValidDate(Date(r[k].year, r[k].month, start.day))
        && !Before(endInc, Date(r[k].year, r[k].month, start.day))
    {
      MonthlyFromMembership(i, last, start.day, endInc, r[k]);
    }
  }

  /** The months yielded are exactly the months from the start's month on
      that have the start's day of month on or before the end date. */
  lemma DaterangeByMonthMembership(start: Date, endInc: Date, m: DateMonth)
    requires ValidDate(start) && ValidDate(endInc)
    ensures m in DaterangeByMonth(start, endInc) <==>
      1 <= m.month <= 12 && MonthIndex(start.year, start.month) <= MonthIndex(m.year, m.month)
      && HasDay(m, start.day) && !Before(endInc, Date(m.year, m.month, start.day))
  {
    MonthlyFromMembership(MonthIndex(start.year, start.month),
      MonthIndex(endInc.year, endInc.month), start.day, endInc, m);
  }

  /** Despite what its comment promises, the generator can leave out the end
      date's month, and it skips months without the start's day: from
      2020-01-31 to 2020-03-15 it yields January 2020 only. */
  lemma SkipsMonthsAndEndMonth()
    ensures DaterangeByMonth(Date(2020, 1, 31), Date(2020, 3, 15)) == [DateMonth(2020, 1)]
  {
    var endInc := Date(2020, 3, 15);
    var i := MonthIndex(2020, 1);
    assert i == 24240;
    assert MonthOfIndex(24242) == DateMonth(2020, 3);
    assert MonthlyFrom(24243, 24242, 31, endInc) == [];
    assert MonthlyFrom(24242, 24242, 31, endInc) == [];
    assert MonthOfIndex(24241) == DateMonth(2020, 2);
    assert !HasDay(DateMonth(2020, 2), 31);
    assert MonthlyFrom(24241, 24242, 31, endInc) == [];
    assert MonthOfIndex(24240) == DateMonth(2020, 1);
    assert MonthlyFrom(24240, 24242, 31, endInc) == [DateMonth(2020, 1)];
  }
}

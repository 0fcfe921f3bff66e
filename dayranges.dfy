/** Day windows in Unix seconds (UTC): the midnight of a date, and the
    per-day splitting `date_to_datetime_range` performs from a date up to
    an instant. The helper itself is not part of this model's source; its
    behaviour here is the one its test cases fix
    (twitterscraper/tests/test_utils.py). */
module DayRanges {
  import opened Dates

  const SecondsPerDay := 86400

  /** `date.toordinal()` of 1970-01-01. */
  const EpochOrdinal := 719163

  /** A window `[fromTs, toTs)` of at most one day. */
  datatype DayWindow = DayWindow(fromTs: int, toTs: int)

  /** Days in the years before `y`, as `date.toordinal` counts them. */
  function DaysBeforeYear(y: int): int
    requires y >= 1
  {
    var p := y - 1;
    p * 365 + p / 4 - p / 100 + p / 400
  }

  /** Days in the months of year `y` before month `m`. */
  function DaysBeforeMonth(y: int, m: int): (n: int)
    requires 1 <= m <= 12
    ensures 0 <= n <= 31 * (m - 1)
  {
    if m == 1 then 0 else DaysBeforeMonth(y, m - 1) + DaysInMonth(y, m - 1)
  }

  /** `date.toordinal()`: 0001-01-01 is day 1. */
  function Ordinal(d: Date): int
    requires ValidDate(d)
  {
    DaysBeforeYear(d.year) + DaysBeforeMonth(d.year, d.month) + d.day
  }

  /** The Unix timestamp of a date's UTC midnight. */
  function DayStart(d: Date): int
    requires ValidDate(d)
  {
    (Ordinal(d) - EpochOrdinal) * SecondsPerDay
  }

  /** A year has 365 days, 366 when it is a leap year. */
  lemma YearLength(y: int)
    requires y >= 1
    ensures DaysBeforeYear(y + 1) - DaysBeforeYear(y) == if IsLeapYear(y) then 366 else 365
  {
    assert y / 4 - (y - 1) / 4 == if y % 4 == 0 then 1 else 0;
    assert y / 100 - (y - 1) / 100 == if y % 100 == 0 then 1 else 0;
    assert y / 400 - (y - 1) / 400 == if y % 400 == 0 then 1 else 0;
  }

  /** The months before December hold 334 days, 335 in a leap year. */
  lemma DaysBeforeDecember(y: int)
    ensures DaysBeforeMonth(y, 12) == if IsLeapYear(y) then 335 else 334
  {
    assert DaysBeforeMonth(y, 2) == 31;
    assert DaysBeforeMonth(y, 3) == 31 + DaysInMonth(y, 2);
    assert DaysBeforeMonth(y, 4) == 62 + DaysInMonth(y, 2);
    assert DaysBeforeMonth(y, 5) == 92 + DaysInMonth(y, 2);
    assert DaysBeforeMonth(y, 6) == 123 + DaysInMonth(y, 2);
    assert DaysBeforeMonth(y, 7) == 153 + DaysInMonth(y, 2);
    assert DaysBeforeMonth(y, 8) == 184 + DaysInMonth(y, 2);
    assert DaysBeforeMonth(y, 9) == 215 + DaysInMonth(y, 2);
    assert DaysBeforeMonth(y, 10) == 245 + DaysInMonth(y, 2);
    assert DaysBeforeMonth(y, 11) == 276 + DaysInMonth(y, 2);
  }

  /** The next day's midnight is one day of seconds later. */
  lemma NextDayStart(d: Date)
    requires ValidDate(d) && NextDay(d).Some?
    ensures DayStart(NextDay(d).value) == DayStart(d) + SecondsPerDay
  {
    if d.day == DaysInMonth(d.year, d.month) && d.month == 12 {
      YearLength(d.year);
      DaysBeforeDecember(d.year);
    }
  }

  /** The windows from `fromTs` up to `endTs`: one per day, the last one
      cut at `endTs`; none when `endTs` is not after `fromTs`. */
  function DayIntervals(fromTs: int, endTs: int): (ws: seq<DayWindow>)
    ensures |ws| == if fromTs >= endTs then 0 else (endTs - fromTs + SecondsPerDay - 1) / SecondsPerDay
    ensures forall i | 0 <= i < |ws| :: ws[i].fromTs == fromTs + SecondsPerDay * i
    ensures forall i | 0 <= i < |ws| ::
      ws[i].toTs == if ws[i].fromTs + SecondsPerDay < endTs then ws[i].fromTs + SecondsPerDay else endTs
    decreases endTs - fromTs
  {
    if fromTs >= endTs then []
    else
      var toTs := if fromTs + SecondsPerDay < endTs then fromTs + SecondsPerDay else endTs;
      [DayWindow(fromTs, toTs)] + DayIntervals(fromTs + SecondsPerDay, endTs)
  }

  /** `date_to_datetime_range(start_date, end_datetime)`: the day windows
      from the start date's midnight up to the end instant. */
  function DateToDatetimeRange(start: Date, endTs: int): seq<DayWindow>
    requires ValidDate(start)
  {
    DayIntervals(DayStart(start), endTs)
  }

  /** The windows are non-empty, follow each other without gap or overlap,
      begin at the start, end at the end, and only the last may be shorter
      than a day. */
  lemma DayIntervalsChain(fromTs: int, endTs: int)
    ensures var ws := DayIntervals(fromTs, endTs);
      (forall i | 0 <= i < |ws| :: ws[i].fromTs < ws[i].toTs)
      && (forall i | 0 <= i < |ws| - 1 :: ws[i].toTs == ws[i + 1].fromTs)
      && (forall i | 0 <= i < |ws| - 1 :: ws[i].toTs - ws[i].fromTs == SecondsPerDay)
      && (ws != [] <==> fromTs < endTs)
      && (ws != [] ==> ws[0].fromTs == fromTs && ws[|ws| - 1].toTs == endTs)
  {
    var ws := DayIntervals(fromTs, endTs);
    if ws != [] {
      var n := |ws|;
      var last := ws[n - 1];
      assert n == (endTs - fromTs + SecondsPerDay - 1) / SecondsPerDay;
      assert last.fromTs == fromTs + SecondsPerDay * (n - 1);
      assert !(last.fromTs + SecondsPerDay < endTs);
      forall i | 0 <= i < n - 1
        ensures ws[i].fromTs + SecondsPerDay < endTs
      {
        assert ws[i].fromTs + SecondsPerDay <= last.fromTs;
      }
    }
  }

  /** The dates of the test cases, as midnights. */
  lemma KnownMidnights()
    ensures DayStart(Date(2019, 12, 30)) == 1577664000
    ensures DayStart(Date(2020, 1, 1)) == 1577836800
    ensures DayStart(Date(2020, 1, 2)) == 1577923200
    ensures DayStart(Date(2020, 1, 3)) == 1578009600
  {
    DaysBeforeDecember(2019);
  }

  /** The five cases the test suite fixes: a whole day, an empty range, a
      range over a year end, and two ranges that end inside a day. */
  lemma DateToDatetimeRangeScenarios()
    ensures DateToDatetimeRange(Date(2020, 1, 1), 1577923200) == [DayWindow(1577836800, 1577923200)]
    ensures DateToDatetimeRange(Date(2020, 1, 1), 1577836800) == []
    ensures DateToDatetimeRange(Date(2019, 12, 30), 1577923200)
      == [DayWindow(1577664000, 1577750400), DayWindow(1577750400, 1577836800), DayWindow(1577836800, 1577923200)]
    ensures DateToDatetimeRange(Date(2020, 1, 1), 1578049933)
      == [DayWindow(1577836800, 1577923200), DayWindow(1577923200, 1578009600), DayWindow(1578009600, 1578049933)]
    ensures DateToDatetimeRange(Date(2020, 1, 1), 1577923201)
      == [DayWindow(1577836800, 1577923200), DayWindow(1577923200, 1577923201)]
  {
    KnownMidnights();
    var a := DayIntervals(1577836800, 1577923200);
    assert |a| == 1;
    var c := DayIntervals(1577664000, 1577923200);
    assert |c| == 3;
    var d := DayIntervals(1577836800, 1578049933);
    assert |d| == 3;
    var e := DayIntervals(1577836800, 1577923201);
    assert |e| == 2;
  }
}

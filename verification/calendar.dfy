/** Python's proleptic Gregorian `datetime.date`: validity, `toordinal()`,
    `weekday()` and subtracting `timedelta(days=1)`. */
module Calendar {
  import opened Wrappers

  const MinYear := 1
  const MaxYear := 9999

  datatype Date = Date(year: int, month: int, day: int)

  predicate IsLeap(y: int)
  {
    y % 4 == 0 && (y % 100 != 0 || y % 400 == 0)
  }

  function DaysInMonth(y: int, m: int): (r: int)
    requires 1 <= m <= 12
    ensures 28 <= r <= 31
    ensures m == 2 ==> (r == 29 <==> IsLeap(y))
  {
    if m == 2 then (if IsLeap(y) then 29 else 28)
    else if m == 4 || m == 6 || m == 9 || m == 11 then 30
    else 31
  }

  /** A date Python's `datetime.date` can represent. */
  predicate Valid(d: Date)
  {
    MinYear <= d.year <= MaxYear && 1 <= d.month <= 12 && 1 <= d.day <= DaysInMonth(d.year, d.month)
  }

  /** Days in the year before the first of month `m`. */
  function DaysBeforeMonth(y: int, m: int): (r: int)
    requires 1 <= m <= 12
    ensures r >= 0
  {
    if m == 1 then 0 else DaysBeforeMonth(y, m - 1) + DaysInMonth(y, m - 1)
  }

  /** The month sums agree with Python's `_DAYS_BEFORE_MONTH` table plus the leap day. */
  lemma {:induction false} DaysBeforeMonthTable(y: int, m: int)
    requires 1 <= m <= 12
    ensures DaysBeforeMonth(y, m)
      == [0, 31, 59, 90, 120, 151, 181, 212, 243, 273, 304, 334][m - 1] + (if m > 2 && IsLeap(y) then 1 else 0)
  {
    if m > 1 {
      DaysBeforeMonthTable(y, m - 1);
    }
  }

  function DaysInYear(y: int): int
  {
    if IsLeap(y) then 366 else 365
  }

  /** Days before January 1 of year `y`, counting from January 1 of year 1,
      as the sum of the lengths of the years before it. */
  function DaysBeforeYear(y: int): (r: int)
    ensures y >= 1 ==> r >= 0
    decreases y
  {
    if y <= 1 then 0 else DaysBeforeYear(y - 1) + DaysInYear(y - 1)
  }

  /** Python's closed form `y*365 + y//4 - y//100 + y//400` (with `y = year - 1`)
      counts the same days as the year-by-year sum. */
  lemma {:induction false} DaysBeforeYearClosedForm(y: int)
    requires y >= 1
    ensures var y1 := y - 1; DaysBeforeYear(y) == y1 * 365 + y1 / 4 - y1 / 100 + y1 / 400
    decreases y
  {
    if y > 1 {
      DaysBeforeYearClosedForm(y - 1);
      YearStep(y - 1);
    }
  }

  /** `date.toordinal()`: 0001-01-01 is day 1. */
  function ToOrdinal(d: Date): (r: int)
    requires Valid(d)
    ensures r >= 1
  {
    DaysBeforeYear(d.year) + DaysBeforeMonth(d.year, d.month) + d.day
  }

  /** The weekday of an ordinal: 0 is Monday, 6 is Sunday. */
  function WeekdayOf(ordinal: int): (w: int)
    ensures 0 <= w < 7
  {
    (ordinal + 6) % 7
  }

  /** The day before a Monday is a Sunday, and so on round the week. */
  lemma WeekdayStep(ordinal: int)
    ensures WeekdayOf(ordinal - 1) == if WeekdayOf(ordinal) == 0 then 6 else WeekdayOf(ordinal) - 1
  {
  }

  /** `date.weekday()`. */
  function Weekday(d: Date): (w: int)
    requires Valid(d)
    ensures 0 <= w < 7
  {
    WeekdayOf(ToOrdinal(d))
  }

  /** Monday to Friday: `weekday() < 5`. */
  predicate IsBusinessOrdinal(ordinal: int)
  {
    WeekdayOf(ordinal) < 5
  }

  predicate IsBusinessDay(d: Date)
    requires Valid(d)
  {
    IsBusinessOrdinal(ToOrdinal(d))
  }

  lemma Div4Step(y: int)
    ensures y / 4 - (y - 1) / 4 == if y % 4 == 0 then 1 else 0
  {
  }

  lemma Div100Step(y: int)
    ensures y / 100 - (y - 1) / 100 == if y % 100 == 0 then 1 else 0
  {
  }

  lemma Div400Step(y: int)
    ensures y / 400 - (y - 1) / 400 == if y % 400 == 0 then 1 else 0
  {
  }

  lemma DivisibilityChain(y: int)
    ensures y % 400 == 0 ==> y % 100 == 0
    ensures y % 100 == 0 ==> y % 4 == 0
  {
    if y % 400 == 0 {
      var k := 4 * (y / 400);
      assert y == 100 * k;
      assert 100 * (k - y / 100) == y % 100;
    }
    if y % 100 == 0 {
      var k := 25 * (y / 100);
      assert y == 4 * k;
      assert 4 * (k - y / 4) == y % 4;
    }
  }

  /** In the closed form, a year adds 365 days, 366 if it is a leap year. */
  lemma YearStep(y: int)
    ensures var y1 := y - 1;
      y * 365 + y / 4 - y / 100 + y / 400 == y1 * 365 + y1 / 4 - y1 / 100 + y1 / 400 + DaysInYear(y)
  {
    Div4Step(y);
    Div100Step(y);
    Div400Step(y);
    DivisibilityChain(y);
  }

  /** The day before a day other than the first of its month. */
  lemma PrevDayInMonth(d: Date)
    requires Valid(d) && d.day > 1
    ensures Valid(Date(d.year, d.month, d.day - 1))
    ensures ToOrdinal(Date(d.year, d.month, d.day - 1)) == ToOrdinal(d) - 1
  {
  }

  /** The day before the first of a month other than January. */
  lemma PrevDayAcrossMonth(d: Date)
    requires Valid(d) && d.day == 1 && d.month > 1
    ensures Valid(Date(d.year, d.month - 1, DaysInMonth(d.year, d.month - 1)))
    ensures ToOrdinal(Date(d.year, d.month - 1, DaysInMonth(d.year, d.month - 1))) == ToOrdinal(d) - 1
  {
    assert DaysBeforeMonth(d.year, d.month) == DaysBeforeMonth(d.year, d.month - 1) + DaysInMonth(d.year, d.month - 1);
  }

  /** December 31 closes the year. */
  lemma DecemberEnd(y: int)
    ensures DaysBeforeMonth(y, 12) + 31 == DaysInYear(y)
  {
    DaysBeforeMonthTable(y, 12);
  }

  /** The day before January 1 is December 31 of the year before. */
  lemma PrevDayAcrossYear(d: Date)
    requires Valid(d) && d.day == 1 && d.month == 1 && d.year > MinYear
    ensures Valid(Date(d.year - 1, 12, 31))
    ensures ToOrdinal(Date(d.year - 1, 12, 31)) == ToOrdinal(d) - 1
  {
    DecemberEnd(d.year - 1);
    assert DaysBeforeYear(d.year) == DaysBeforeYear(d.year - 1) + DaysInYear(d.year - 1);
  }

  /** Ordinal 1 is 0001-01-01, and no other date. */
  lemma FirstDay(d: Date)
    requires Valid(d)
    ensures d == Date(MinYear, 1, 1) <==> ToOrdinal(d) == 1
  {
    if d.year > MinYear {
      assert DaysBeforeYear(d.year) >= DaysInYear(d.year - 1) by {
        assert DaysBeforeYear(d.year) == DaysBeforeYear(d.year - 1) + DaysInYear(d.year - 1);
      }
    } else if d.month > 1 {
      assert DaysBeforeMonth(d.year, d.month) >= DaysInMonth(d.year, d.month - 1);
    }
  }

  /** `d - timedelta(days=1)`; None is the OverflowError raised below 0001-01-01. */
  function PrevDay(d: Date): (r: Option<Date>)
    requires Valid(d)
    ensures r.None? <==> d == Date(MinYear, 1, 1)
    ensures r.Some? ==> Valid(r.value) && ToOrdinal(r.value) == ToOrdinal(d) - 1
  {
    if d.day > 1 then
      PrevDayInMonth(d);
      Some(Date(d.year, d.month, d.day - 1))
    else if d.month > 1 then
      PrevDayAcrossMonth(d);
      Some(Date(d.year, d.month - 1, DaysInMonth(d.year, d.month - 1)))
    else if d.year > MinYear then
      PrevDayAcrossYear(d);
      Some(Date(d.year - 1, 12, 31))
    else
      None
  }
}

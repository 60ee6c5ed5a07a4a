/** The proleptic Gregorian calendar as Python's `datetime.date` uses it:
    leap years, month lengths, the day ordinal (0001-01-01 is day 1) and the
    English month and weekday names pandas' `month_name()` and `day_name()` give. */
module Calendar {

  datatype Date = Date(year: int, month: int, day: int)

  /** Leap-year rule of RFC 3339, Appendix C. */
  predicate IsLeapYear(y: int) {
    y % 4 == 0 && (y % 100 != 0 || y % 400 == 0)
  }

  function DaysInMonth(y: int, m: int): (n: int)
    requires 1 <= m <= 12
    ensures 28 <= n <= 31
    ensures m == 2 ==> (n == 29 <==> IsLeapYear(y))
  {
    if m == 2 then (if IsLeapYear(y) then 29 else 28)
    else if m == 4 || m == 6 || m == 9 || m == 11 then 30
    else 31
  }

  /** A date `datetime.date` accepts: years 1 to 9999 (MINYEAR, MAXYEAR). */
  predicate ValidDate(d: Date) {
    1 <= d.year <= 9999 && 1 <= d.month <= 12 && 1 <= d.day <= DaysInMonth(d.year, d.month)
  }

  /** Days in the months of year y before month m. */
  function DaysBeforeMonth(y: int, m: int): nat
    requires 1 <= m <= 12
  {
    if m == 1 then 0 else DaysBeforeMonth(y, m - 1) + DaysInMonth(y, m - 1)
  }

  /** Days in the years before year y. */
  function DaysBeforeYear(y: int): int
    requires y >= 1
  {
    var p := y - 1;
    365 * p + p / 4 - p / 100 + p / 400
  }

  /** `date.toordinal()`: 0001-01-01 is day 1, each following day one more. */
  function Ordinal(d: Date): int
    requires ValidDate(d)
  {
    DaysBeforeYear(d.year) + DaysBeforeMonth(d.year, d.month) + d.day
  }

  /** `date.weekday()`: 0 is Monday, 6 is Sunday. */
  function Weekday(d: Date): (w: nat)
    requires ValidDate(d)
    ensures w < 7
  {
    (Ordinal(d) + 6) % 7
  }

  const MonthNames: seq<string> := ["January", "February", "March", "April", "May", "June",
    "July", "August", "September", "October", "November", "December"]

  const DayNames: seq<string> := ["Monday", "Tuesday", "Wednesday", "Thursday", "Friday",
    "Saturday", "Sunday"]

  /** `Timestamp.month_name()` */
  function MonthName(m: int): string
    requires 1 <= m <= 12
  {
    MonthNames[m - 1]
  }

  /** `Timestamp.day_name()` */
  function DayName(d: Date): string
    requires ValidDate(d)
  {
    DayNames[Weekday(d)]
  }

  /** The calendar day after d. */
  function NextDay(d: Date): (r: Date)
    requires ValidDate(d) && d != Date(9999, 12, 31)
    ensures ValidDate(r)
  {
    if d.day < DaysInMonth(d.year, d.month) then Date(d.year, d.month, d.day + 1)
    else if d.month < 12 then Date(d.year, d.month + 1, 1)
    else Date(d.year + 1, 1, 1)
  }

  /** A year's months add up to 365 days, 366 in a leap year. */
  lemma DaysInYear(y: int)
    ensures DaysBeforeMonth(y, 12) + DaysInMonth(y, 12) == if IsLeapYear(y) then 366 else 365
  {
    var leap := if IsLeapYear(y) then 1 else 0;
    assert DaysBeforeMonth(y, 2) == 31;
    assert DaysBeforeMonth(y, 3) == 59 + leap;
    assert DaysBeforeMonth(y, 4) == 90 + leap;
    assert DaysBeforeMonth(y, 5) == 120 + leap;
    assert DaysBeforeMonth(y, 6) == 151 + leap;
    assert DaysBeforeMonth(y, 7) == 181 + leap;
    assert DaysBeforeMonth(y, 8) == 212 + leap;
    assert DaysBeforeMonth(y, 9) == 243 + leap;
    assert DaysBeforeMonth(y, 10) == 273 + leap;
    assert DaysBeforeMonth(y, 11) == 304 + leap;
    assert DaysBeforeMonth(y, 12) == 334 + leap;
  }

  /** Among 1..y, the multiples of 4 number one more than among 1..y-1
      exactly when y is one; likewise for 100 and 400. */
  lemma DivSteps(y: int)
    requires y >= 1
    ensures y / 4 - (y - 1) / 4 == if y % 4 == 0 then 1 else 0
    ensures y / 100 - (y - 1) / 100 == if y % 100 == 0 then 1 else 0
    ensures y / 400 - (y - 1) / 400 == if y % 400 == 0 then 1 else 0
  {
  }

  /** A year has 365 days, 366 when it is a leap year. */
  lemma DaysBeforeNextYear(y: int)
    requires y >= 1
    ensures DaysBeforeYear(y + 1) == DaysBeforeYear(y) + if IsLeapYear(y) then 366 else 365
  {
    DivSteps(y);
    ModDivides(y);
    var a, b := DaysBeforeYear(y + 1), DaysBeforeYear(y);
    assert a - b == 365 + (y / 4 - (y - 1) / 4) - (y / 100 - (y - 1) / 100) + (y / 400 - (y - 1) / 400);
  }

  lemma ModDivides(y: int)
    ensures y % 400 == 0 ==> y % 100 == 0
    ensures y % 100 == 0 ==> y % 4 == 0
  {
    if y % 400 == 0 { HundredDivides(y / 400); }
    if y % 100 == 0 { FourDivides(y / 100); }
  }

  lemma HundredDivides(k: int)
    ensures (400 * k) % 100 == 0
  {
    assert 400 * k == 100 * (4 * k);
  }

  lemma FourDivides(k: int)
    ensures (100 * k) % 4 == 0
  {
    assert 100 * k == 4 * (25 * k);
  }

  /** The ordinal counts days: the next day's ordinal is one more. */
  lemma OrdinalNextDay(d: Date)
    requires ValidDate(d) && d != Date(9999, 12, 31)
    ensures Ordinal(NextDay(d)) == Ordinal(d) + 1
  {
    if d.day == DaysInMonth(d.year, d.month) && d.month == 12 {
      DaysInYear(d.year);
      DaysBeforeNextYear(d.year);
    }
  }

  /** Weekday names follow each other day by day, so they agree with the
      Gregorian calendar once one date is right. */
  lemma WeekdayNextDay(d: Date)
    requires ValidDate(d) && d != Date(9999, 12, 31)
    ensures Weekday(NextDay(d)) == (Weekday(d) + 1) % 7
  {
    OrdinalNextDay(d);
    ModSevenSucc(Ordinal(d) + 6);
  }

  lemma ModSevenSucc(x: int)
    ensures (x + 1) % 7 == (x % 7 + 1) % 7
  {
    if x % 7 == 6 {
      assert x + 1 == 7 * (x / 7 + 1);
    } else {
      assert x + 1 == 7 * (x / 7) + (x % 7 + 1);
    }
  }

  /** 2024-01-01 was a Monday, and 2000-02-29 a Tuesday. */
  lemma WeekdayExamples()
    ensures DayName(Date(2024, 1, 1)) == "Monday" && MonthName(1) == "January"
    ensures ValidDate(Date(2000, 2, 29)) && DayName(Date(2000, 2, 29)) == "Tuesday"
    ensures !ValidDate(Date(1900, 2, 29))
  {
    assert Ordinal(Date(2024, 1, 1)) == 738886;
    assert DaysBeforeMonth(2000, 2) == 31;
    assert Ordinal(Date(2000, 2, 29)) == 730179;
  }
}

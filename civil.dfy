/**
  Proleptic Gregorian calendar dates as day numbers. Day 0 is 1970-01-01, the
  day JavaScript's `Date` counts from; every date used by the journal is a day
  number read back as a civil (year, month, day) triple. With a zero UTC offset
  the local and the UTC reading of a `Date` at midnight agree, so a single
  conversion serves `getFullYear`/`getMonth`/`getDate` and `toISOString`.
 */
module Civil {

  /** A civil date; `month` is 1..12 (JavaScript's `getMonth()` is this minus one). */
  datatype Date = Date(year: int, month: int, day: int)

  predicate IsLeapYear(y: int)
  {
    y % 4 == 0 && (y % 100 != 0 || y % 400 == 0)
  }

  function DaysInYear(y: int): int
  {
    if IsLeapYear(y) then 366 else 365
  }

  function DaysInMonth(y: int, m: int): (n: int)
    requires 1 <= m <= 12
    ensures 28 <= n <= 31
    ensures n == 29 <==> m == 2 && IsLeapYear(y)
  {
    if m == 2 then (if IsLeapYear(y) then 29 else 28)
    else if m == 4 || m == 6 || m == 9 || m == 11 then 30
    else 31
  }

  predicate ValidDate(d: Date)
  {
    1 <= d.month <= 12 && 1 <= d.day <= DaysInMonth(d.year, d.month)
  }

  /** Days from 0000-01-01 to January 1 of year `y` (negative before year 0):
      365 per year plus one per leap year in between. */
  function DaysBeforeYear(y: int): int
  {
    365 * y + (y + 3) / 4 - (y + 99) / 100 + (y + 399) / 400
  }

  /** Days from January 1 of year `y` to the first of month `m`. */
  function DaysBeforeMonth(y: int, m: int): (n: int)
    requires 1 <= m <= 12
    ensures 0 <= n <= 335
    ensures m == 1 ==> n == 0
  {
    [0, 31, 59, 90, 120, 151, 181, 212, 243, 273, 304, 334][m - 1]
      + (if m > 2 && IsLeapYear(y) then 1 else 0)
  }

  /** Each month starts where the previous one ends, and December ends the year. */
  lemma DaysBeforeMonthStep(y: int, m: int)
    requires 1 <= m <= 12
    ensures m < 12 ==> DaysBeforeMonth(y, m + 1) == DaysBeforeMonth(y, m) + DaysInMonth(y, m)
    ensures m == 12 ==> DaysBeforeMonth(y, m) + DaysInMonth(y, m) == DaysInYear(y)
  {
  }

  /** Day number of 1970-01-01 counted from 0000-01-01. */
  const UnixEpochDays := 719528

  lemma EpochIsDaysBefore1970()
    ensures DaysBeforeYear(1970) == UnixEpochDays
  {
  }

  /** One more year adds a multiple of `n` exactly when the year is one. */
  lemma CountStep4(y: int)
    ensures (y + 4) / 4 == (y + 3) / 4 + (if y % 4 == 0 then 1 else 0)
  {
    var q, r := y / 4, y % 4;
    assert y == 4 * q + r && 0 <= r < 4;
    assert (y + 4) / 4 == q + 1;
    assert (y + 3) / 4 == if r == 0 then q else q + 1;
  }

  lemma CountStep100(y: int)
    ensures (y + 100) / 100 == (y + 99) / 100 + (if y % 100 == 0 then 1 else 0)
  {
    var q, r := y / 100, y % 100;
    assert y == 100 * q + r && 0 <= r < 100;
    assert (y + 100) / 100 == q + 1;
    assert (y + 99) / 100 == if r == 0 then q else q + 1;
  }

  lemma CountStep400(y: int)
    ensures (y + 400) / 400 == (y + 399) / 400 + (if y % 400 == 0 then 1 else 0)
  {
    var q, r := y / 400, y % 400;
    assert y == 400 * q + r && 0 <= r < 400;
    assert (y + 400) / 400 == q + 1;
    assert (y + 399) / 400 == if r == 0 then q else q + 1;
  }

  /** Consecutive years are `DaysInYear` apart. */
  lemma DaysBeforeYearStep(y: int)
    ensures DaysBeforeYear(y + 1) == DaysBeforeYear(y) + DaysInYear(y)
  {
    CountStep4(y);
    CountStep100(y);
    CountStep400(y);
    DivisorsChain(y);
  }

  /** A multiple of 400 is one of 100, and a multiple of 100 one of 4. */
  lemma DivisorsChain(y: int)
    ensures y % 400 == 0 ==> y % 100 == 0
    ensures y % 100 == 0 ==> y % 4 == 0
  {
    if y % 400 == 0 {
      var q := y / 400;
      assert y == 100 * (4 * q);
    }
    if y % 100 == 0 {
      var q := y / 100;
      assert y == 4 * (25 * q);
    }
  }

  /** `DaysBeforeYear(y)` stays within two days of 365.2425 * y. */
  lemma DaysBeforeYearBounds(y: int)
    ensures 146097 * y - 396 <= 400 * DaysBeforeYear(y) <= 146097 * y + 699
  {
  }

  /** A later year starts after an earlier one ends. */
  lemma {:induction false} DaysBeforeYearMonotone(y1: int, y2: int)
    requires y1 < y2
    ensures DaysBeforeYear(y1) + DaysInYear(y1) <= DaysBeforeYear(y2)
  {
    DaysBeforeYearStep(y1);
    if y2 > y1 + 1 {
      DaysBeforeYearBounds(y1 + 1);
      DaysBeforeYearBounds(y2);
    }
  }

  /** A later month of the same year starts after an earlier one ends. */
  lemma {:induction false} DaysBeforeMonthMonotone(y: int, m1: int, m2: int)
    requires 1 <= m1 < m2 <= 12
    ensures DaysBeforeMonth(y, m1) + DaysInMonth(y, m1) <= DaysBeforeMonth(y, m2)
    decreases m2 - m1
  {
    if m1 + 1 < m2 {
      DaysBeforeMonthMonotone(y, m1 + 1, m2);
    }
  }

  /** The year containing day `n` counted from 0000-01-01. */
  function YearOf(n: int): (y: int)
    ensures DaysBeforeYear(y) <= n < DaysBeforeYear(y) + DaysInYear(y)
  {
    var e := 400 * n / 146097;
    DaysBeforeYearBounds(e - 1);
    DaysBeforeYearBounds(e + 2);
    DaysBeforeYearStep(e - 1);
    DaysBeforeYearStep(e);
    DaysBeforeYearStep(e + 1);
    if n < DaysBeforeYear(e) then e - 1
    else if n >= DaysBeforeYear(e + 1) then e + 1
    else e
  }

  /** The month, searched upwards from `m`, that contains day-of-year `doy`. */
  function MonthOf(y: int, doy: int, m: int): (r: int)
    requires 0 <= doy < DaysInYear(y)
    requires 1 <= m <= 12 && DaysBeforeMonth(y, m) <= doy
    ensures m <= r <= 12
    ensures DaysBeforeMonth(y, r) <= doy < DaysBeforeMonth(y, r) + DaysInMonth(y, r)
    decreases 12 - m
  {
    if m == 12 || doy < DaysBeforeMonth(y, m + 1) then m else MonthOf(y, doy, m + 1)
  }

  /** Day number of a civil date, counted from 1970-01-01; days past the end
      of the month run on into the next ones, as the `MakeDay` step of
      `setMonth` and `setDate` does. (The `Date` constructor first takes a
      year in 0..99 as 1900 + year; see `CalendarView.ConstructedMonth`.) */
  function DaysFromCivil(d: Date): (z: int)
    requires 1 <= d.month <= 12
    ensures d == Date(1970, 1, 1) ==> z == 0
  {
    EpochIsDaysBefore1970();
    DaysBeforeYear(d.year) + DaysBeforeMonth(d.year, d.month) + d.day - 1 - UnixEpochDays
  }

  /** The civil date of day number `z`. */
  function CivilFromDays(z: int): (d: Date)
    ensures ValidDate(d)
    ensures DaysFromCivil(d) == z
  {
    var n := z + UnixEpochDays;
    var y := YearOf(n);
    var doy := n - DaysBeforeYear(y);
    var m := MonthOf(y, doy, 1);
    Date(y, m, doy - DaysBeforeMonth(y, m) + 1)
  }

  /** A date's place in its year: before the end of the year. */
  lemma DayOfYearBound(d: Date)
    requires ValidDate(d)
    ensures 0 <= DaysBeforeMonth(d.year, d.month) + d.day - 1 < DaysInYear(d.year)
  {
    if d.month < 12 {
      DaysBeforeMonthMonotone(d.year, d.month, 12);
    }
  }

  /** Distinct valid dates have distinct day numbers. */
  lemma DaysFromCivilInjective(a: Date, b: Date)
    requires ValidDate(a) && ValidDate(b)
    requires DaysFromCivil(a) == DaysFromCivil(b)
    ensures a == b
  {
    DayOfYearBound(a);
    DayOfYearBound(b);
    if a.year < b.year {
      DaysBeforeYearMonotone(a.year, b.year);
    } else if b.year < a.year {
      DaysBeforeYearMonotone(b.year, a.year);
    }
    assert a.year == b.year;
    if a.month < b.month {
      DaysBeforeMonthMonotone(a.year, a.month, b.month);
    } else if b.month < a.month {
      DaysBeforeMonthMonotone(a.year, b.month, a.month);
    }
  }

  /** Reading a valid date's day number back gives the same date. */
  lemma CivilRoundTrip(d: Date)
    requires ValidDate(d)
    ensures CivilFromDays(DaysFromCivil(d)) == d
  {
    DaysFromCivilInjective(CivilFromDays(DaysFromCivil(d)), d);
  }

  /** Day numbers order valid dates as (year, month, day) does. */
  lemma DaysFromCivilOrder(a: Date, b: Date)
    requires ValidDate(a) && ValidDate(b)
    ensures DaysFromCivil(a) < DaysFromCivil(b) <==>
      a.year < b.year ||
      (a.year == b.year && (a.month < b.month || (a.month == b.month && a.day < b.day)))
  {
    DayOfYearBound(a);
    DayOfYearBound(b);
    if a.year < b.year {
      DaysBeforeYearMonotone(a.year, b.year);
    } else if b.year < a.year {
      DaysBeforeYearMonotone(b.year, a.year);
    } else if a.month < b.month {
      DaysBeforeMonthMonotone(a.year, a.month, b.month);
    } else if b.month < a.month {
      DaysBeforeMonthMonotone(a.year, b.month, a.month);
    }
  }

  /** Day of the week, 0 = Sunday .. 6 = Saturday, as `Date.prototype.getDay`;
      1970-01-01 was a Thursday. */
  function Weekday(z: int): (w: int)
    ensures 0 <= w < 7
    ensures z == 0 ==> w == 4
  {
    (z + 4) % 7
  }

  /** The next day is the next weekday, Saturday followed by Sunday. */
  lemma WeekdayStep(z: int)
    ensures Weekday(z + 1) == (Weekday(z) + 1) % 7
  {
  }

  /** The largest magnitude of a JavaScript time value, in days (8.64e15 ms). */
  const MaxDays := 100_000_000

  /** Every date JavaScript can represent has a year of at most six digits. */
  lemma {:induction false} YearOfRepresentableDay(z: int)
    requires -MaxDays <= z <= MaxDays
    ensures -300000 < CivilFromDays(z).year < 300000
  {
    var y := CivilFromDays(z).year;
    DaysBeforeYearBounds(y);
    DaysBeforeYearBounds(y + 1);
    DaysBeforeYearStep(y);
    DayOfYearBound(CivilFromDays(z));
  }

  /** A calendar month: `month` in 1..12 of `year`. */
  datatype YearMonth = YearMonth(year: int, month: int)

  predicate ValidMonth(ym: YearMonth) { 1 <= ym.month <= 12 }

  /** Months counted consecutively across years. */
  function MonthIndex(ym: YearMonth): int
  {
    ym.year * 12 + ym.month - 1
  }

  lemma MonthIndexInjective(a: YearMonth, b: YearMonth)
    requires ValidMonth(a) && ValidMonth(b) && MonthIndex(a) == MonthIndex(b)
    ensures a == b
  {
  }

  function NextMonth(ym: YearMonth): (r: YearMonth)
    requires ValidMonth(ym)
    ensures ValidMonth(r) && MonthIndex(r) == MonthIndex(ym) + 1
  {
    if ym.month == 12 then YearMonth(ym.year + 1, 1) else YearMonth(ym.year, ym.month + 1)
  }

  function PrevMonth(ym: YearMonth): (r: YearMonth)
    requires ValidMonth(ym)
    ensures ValidMonth(r) && MonthIndex(r) == MonthIndex(ym) - 1
  {
    if ym.month == 1 then YearMonth(ym.year - 1, 12) else YearMonth(ym.year, ym.month - 1)
  }

  function DaysInYearMonth(ym: YearMonth): (n: int)
    requires ValidMonth(ym)
    ensures 28 <= n <= 31
  {
    DaysInMonth(ym.year, ym.month)
  }

  /** Day number of the first of a month. */
  function FirstDay(ym: YearMonth): int
    requires ValidMonth(ym)
  {
    DaysFromCivil(Date(ym.year, ym.month, 1))
  }

  /** The next month begins the day after this one ends. */
  lemma NextMonthStart(ym: YearMonth)
    requires ValidMonth(ym)
    ensures FirstDay(NextMonth(ym)) == FirstDay(ym) + DaysInYearMonth(ym)
  {
    if ym.month == 12 {
      DaysBeforeYearStep(ym.year);
    }
  }

  /** A day inside a month's span is that month's date `z - FirstDay + 1`. */
  lemma DayInMonth(ym: YearMonth, z: int)
    requires ValidMonth(ym) && FirstDay(ym) <= z < FirstDay(ym) + DaysInYearMonth(ym)
    ensures CivilFromDays(z) == Date(ym.year, ym.month, z - FirstDay(ym) + 1)
  {
    var d := Date(ym.year, ym.month, z - FirstDay(ym) + 1);
    DaysFromCivilInjective(CivilFromDays(z), d);
  }
}

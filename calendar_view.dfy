/**
  The month grid of src/components/CalendarView.tsx: the lookup table built
  from the entries, the 42 consecutive days shown from the Sunday on or before
  the first of the displayed month, and the displayed month itself.
 */
module CalendarView {
  import opened Wrappers
  import opened Civil
  import opened IsoDate
  import opened MoodStorage

  /** The entry a lookup table built from `entries` front to back holds for
      `date`: the last one with that date. */
  function LastWithDate(entries: seq<Entry>, date: string): (r: Option<Entry>)
    ensures r.Some? <==> exists i :: 0 <= i < |entries| && entries[i].date == date
    ensures r.Some? ==> exists i :: (0 <= i < |entries| && entries[i] == r.value && r.value.date == date
      && forall j :: i < j < |entries| ==> entries[j].date != date)
    decreases |entries|
  {
    if |entries| == 0 then None
    else
      var n := |entries| - 1;
      if entries[n].date == date then Some(entries[n])
      else
        var r := LastWithDate(entries[..n], date);
        assert forall i :: 0 <= i < n ==> entries[..n][i] == entries[i];
        r
  }

  /** `entryMap`: each entry stored under its date, later entries replacing
      earlier ones with the same date. */
  method BuildEntryMap(entries: seq<Entry>) returns (m: map<string, Entry>)
    ensures forall date :: Lookup(m, date) == LastWithDate(entries, date)
  {
    m := map[];
    var i := 0;
    while i < |entries|
      invariant 0 <= i <= |entries|
      invariant forall date :: Lookup(m, date) == LastWithDate(entries[..i], date)
    {
      assert entries[..i + 1][..i] == entries[..i];
      m := m[entries[i].date := entries[i]];
      i := i + 1;
    }
    assert entries[..|entries|] == entries;
  }

  /** One cell of the grid: its day number (the cell's `Date`), the date text
      it is looked up by, and its tags. */
  datatype Cell = Cell(day: int, dateString: string, isCurrentMonth: bool, isToday: bool,
                       entry: Option<Entry>)

  /** The month of `new Date(year, month, 1)` for the displayed `year` and
      `month`: the `Date` constructor of ECMA-262 (section 21.4.2.1) takes a
      year in 0..99 as 1900 + year, so the grid of a month of such a year is
      built around the same month of the 1900s. */
  function ConstructedMonth(ym: YearMonth): (r: YearMonth)
    requires ValidMonth(ym)
    ensures ValidMonth(r) && r.month == ym.month
    ensures 0 <= ym.year <= 99 ==> r.year == 1900 + ym.year
    ensures !(0 <= ym.year <= 99) ==> r == ym
  {
    if 0 <= ym.year <= 99 then YearMonth(1900 + ym.year, ym.month) else ym
  }

  /** The Sunday on or before the first of the month. */
  function GridStart(ym: YearMonth): (z: int)
    requires ValidMonth(ym)
    ensures Weekday(z) == 0
    ensures FirstDay(ym) - z == Weekday(FirstDay(ym))
  {
    SundayOnOrBefore(FirstDay(ym));
    FirstDay(ym) - Weekday(FirstDay(ym))
  }

  lemma SundayOnOrBefore(x: int)
    ensures Weekday(x - Weekday(x)) == 0
  {
    var q := (x + 4) / 7;
    assert x - Weekday(x) + 4 == 7 * q;
  }

  /** All 42 days of the grid are days JavaScript can represent. */
  predicate GridInRange(ym: YearMonth)
    requires ValidMonth(ym)
  {
    -MaxDays <= GridStart(ym) && GridStart(ym) + 41 <= MaxDays
  }

  /** Counting on from a Sunday, the `k`-th day is weekday `k % 7`. */
  lemma WeekdayFromSunday(z: int, k: nat)
    requires Weekday(z) == 0
    ensures Weekday(z + k) == k % 7
  {
    var q, p, r := (z + 4) / 7, k / 7, k % 7;
    assert z + 4 == 7 * q;
    assert z + k + 4 == 7 * (q + p) + r && 0 <= r < 7;
  }

  /** Going back a month and forward again returns to the month. */
  lemma PrevThenNext(ym: YearMonth)
    requires ValidMonth(ym)
    ensures NextMonth(PrevMonth(ym)) == ym
  {
    MonthIndexInjective(NextMonth(PrevMonth(ym)), ym);
  }

  /** The cells before the run of the displayed month show the end of the previous month. */
  lemma GridBeforeMonth(ym: YearMonth, z: int)
    requires ValidMonth(ym) && FirstDay(ym) - 6 <= z < FirstDay(ym)
    ensures YearMonth(CivilFromDays(z).year, CivilFromDays(z).month) == PrevMonth(ym)
  {
    var p := PrevMonth(ym);
    NextMonthStart(p);
    PrevThenNext(ym);
    DayInMonth(p, z);
  }

  /** The cells after the run show the start of the next month. */
  lemma GridAfterMonth(ym: YearMonth, z: int)
    requires ValidMonth(ym) && FirstDay(ym) + DaysInYearMonth(ym) <= z < FirstDay(ym) + 42
    ensures YearMonth(CivilFromDays(z).year, CivilFromDays(z).month) == NextMonth(ym)
  {
    var q := NextMonth(ym);
    NextMonthStart(ym);
    DayInMonth(q, z);
  }

  /** Cell `k`, day `z`, lies in the displayed month exactly when it is in the
      run of `DaysInYearMonth` cells starting at the weekday of the first;
      comparing the month number alone, as the source does, tells the same,
      because the cells outside the run belong to the previous and the next
      month. */
  lemma GridMonthRun(ym: YearMonth, k: int, z: int)
    requires ValidMonth(ym) && 0 <= k < 42 && z == GridStart(ym) + k
    ensures var off := Weekday(FirstDay(ym));
      && (CivilFromDays(z).month == ym.month <==> off <= k < off + DaysInYearMonth(ym))
      && (YearMonth(CivilFromDays(z).year, CivilFromDays(z).month) == ym <==>
          off <= k < off + DaysInYearMonth(ym))
      && (off <= k < off + DaysInYearMonth(ym) ==>
          CivilFromDays(z) == Date(ym.year, ym.month, k - off + 1))
  {
    var off := Weekday(FirstDay(ym));
    if k < off {
      GridBeforeMonth(ym, z);
    } else if k < off + DaysInYearMonth(ym) {
      DayInMonth(ym, z);
    } else {
      GridAfterMonth(ym, z);
    }
  }

  /** The date text of a representable day parses back to that day. */
  lemma DayText(z: int)
    requires -MaxDays <= z <= MaxDays
    ensures Formattable(CivilFromDays(z))
    ensures Parse(Format(CivilFromDays(z))) == Some(CivilFromDays(z))
  {
    YearOfRepresentableDay(z);
    ParseFormat(CivilFromDays(z));
  }

  /** A day's text equals today's text exactly on today. */
  lemma TodayText(z: int, now: int)
    requires -MaxDays <= z <= MaxDays && ValidTime(now)
    ensures Formattable(CivilFromDays(z))
    ensures Format(CivilFromDays(z)) == TodayDate(now) <==> z == DayOfTime(now)
  {
    var c, t := CivilFromDays(z), CivilFromDays(DayOfTime(now));
    YearOfRepresentableDay(z);
    YearOfRepresentableDay(DayOfTime(now));
    if Format(c) == Format(t) {
      FormatInjective(c, t);
    }
  }

  /** The cell one turn of the loop in `getCalendarDays` builds for day `z`:
      its date text, whether its month number is the displayed one, whether
      its text is today's, and the entry stored under that text. */
  function CellOf(ym: YearMonth, entryMap: map<string, Entry>, today: string, z: int): (c: Cell)
    requires -MaxDays <= z <= MaxDays
    ensures c.day == z && Parse(c.dateString) == Some(CivilFromDays(z))
  {
    DayText(z);
    var dateString := Format(CivilFromDays(z));
    Cell(z, dateString, CivilFromDays(z).month == ym.month, dateString == today,
         Lookup(entryMap, dateString))
  }

  /** The month tag of cell `i`: inside the run of the displayed month, and
      only there; the run holds the month's days in order. */
  lemma CellMonth(ym: YearMonth, entryMap: map<string, Entry>, today: string, i: int, c: Cell)
    requires ValidMonth(ym) && GridInRange(ym) && 0 <= i < 42
    requires c.day == GridStart(ym) + i && c == CellOf(ym, entryMap, today, c.day)
    ensures var off := Weekday(FirstDay(ym));
      && (c.isCurrentMonth <==> off <= i < off + DaysInYearMonth(ym))
      && (c.isCurrentMonth <==> YearMonth(CivilFromDays(c.day).year, CivilFromDays(c.day).month) == ym)
      && (off <= i < off + DaysInYearMonth(ym) ==>
          CivilFromDays(c.day) == Date(ym.year, ym.month, i - off + 1))
  {
    GridMonthRun(ym, i, c.day);
  }

  /** The today tag of cell `i`: set exactly on the day of the clock reading. */
  lemma CellToday(ym: YearMonth, entryMap: map<string, Entry>, now: int, i: int, c: Cell)
    requires ValidMonth(ym) && GridInRange(ym) && ValidTime(now) && 0 <= i < 42
    requires c.day == GridStart(ym) + i && c == CellOf(ym, entryMap, TodayDate(now), c.day)
    ensures c.isToday <==> c.day == DayOfTime(now)
  {
    TodayText(c.day, now);
  }

  /** The first `n` cells are of the consecutive days from `start` on. */
  ghost predicate ConsecutiveFrom(days: seq<Cell>, start: int, n: int)
    requires 0 <= n <= |days|
  {
    forall j :: 0 <= j < n ==> days[j].day == start + j
  }

  /** Each of the first `n` cells is what the loop of `getCalendarDays`
      builds for its day. */
  ghost predicate CellsOfDays(ym: YearMonth, entryMap: map<string, Entry>, today: string,
                              days: seq<Cell>, n: int)
    requires 0 <= n <= |days|
  {
    forall j :: 0 <= j < n ==>
      -MaxDays <= days[j].day <= MaxDays && days[j] == CellOf(ym, entryMap, today, days[j].day)
  }

  lemma ConsecutiveAppend(days: seq<Cell>, start: int, c: Cell)
    requires ConsecutiveFrom(days, start, |days|) && c.day == start + |days|
    ensures ConsecutiveFrom(days + [c], start, |days| + 1)
  {
    assert forall j :: 0 <= j < |days| ==> (days + [c])[j] == days[j];
  }

  lemma CellsAppend(ym: YearMonth, entryMap: map<string, Entry>, today: string,
                    days: seq<Cell>, c: Cell)
    requires CellsOfDays(ym, entryMap, today, days, |days|)
    requires -MaxDays <= c.day <= MaxDays && c == CellOf(ym, entryMap, today, c.day)
    ensures CellsOfDays(ym, entryMap, today, days + [c], |days| + 1)
  {
    assert forall j :: 0 <= j < |days| ==> (days + [c])[j] == days[j];
  }

  /** The grid's days: 42 consecutive days from a Sunday at most six days
      before the first of the month, each weekday in its column. */
  lemma GridDays(ym: YearMonth, days: seq<Cell>)
    requires ValidMonth(ym) && |days| == 42 && ConsecutiveFrom(days, GridStart(ym), 42)
    ensures Weekday(days[0].day) == 0
    ensures FirstDay(ym) - 6 <= days[0].day <= FirstDay(ym)
    ensures forall i :: 0 <= i < 42 ==> days[i].day == days[0].day + i
    ensures forall i :: 0 <= i < 42 ==> Weekday(days[i].day) == i % 7
  {
    forall i | 0 <= i < 42
      ensures Weekday(days[i].day) == i % 7
    {
      WeekdayFromSunday(GridStart(ym), i);
    }
  }

  /** The grid's texts: each parses back to its cell's day, and each entry
      is the one stored under its text. */
  lemma GridText(ym: YearMonth, entryMap: map<string, Entry>, today: string, days: seq<Cell>)
    requires |days| == 42 && CellsOfDays(ym, entryMap, today, days, 42)
    ensures forall i :: 0 <= i < 42 ==> Parse(days[i].dateString) == Some(CivilFromDays(days[i].day))
    ensures forall i :: 0 <= i < 42 ==> days[i].entry == Lookup(entryMap, days[i].dateString)
  {
  }

  /** The grid's month tags: set on the run of the displayed month and only
      there, which holds the month's days in order. */
  lemma GridMonth(ym: YearMonth, entryMap: map<string, Entry>, today: string, days: seq<Cell>)
    requires ValidMonth(ym) && GridInRange(ym) && |days| == 42
    requires ConsecutiveFrom(days, GridStart(ym), 42) && CellsOfDays(ym, entryMap, today, days, 42)
    ensures forall i :: 0 <= i < 42 ==>
      (days[i].isCurrentMonth <==> Weekday(FirstDay(ym)) <= i < Weekday(FirstDay(ym)) + DaysInYearMonth(ym))
    ensures forall i :: 0 <= i < 42 ==> (days[i].isCurrentMonth <==>
      YearMonth(CivilFromDays(days[i].day).year, CivilFromDays(days[i].day).month) == ym)
  {
    forall i | 0 <= i < 42
      ensures (days[i].isCurrentMonth <==> Weekday(FirstDay(ym)) <= i < Weekday(FirstDay(ym)) + DaysInYearMonth(ym))
      ensures (days[i].isCurrentMonth <==>
        YearMonth(CivilFromDays(days[i].day).year, CivilFromDays(days[i].day).month) == ym)
    {
      CellMonth(ym, entryMap, today, i, days[i]);
    }
  }

  /** Day `d` of the displayed month is in column `d - 1` after the weekday
      of the first. */
  lemma GridMonthDays(ym: YearMonth, entryMap: map<string, Entry>, today: string, days: seq<Cell>)
    requires ValidMonth(ym) && GridInRange(ym) && |days| == 42
    requires ConsecutiveFrom(days, GridStart(ym), 42) && CellsOfDays(ym, entryMap, today, days, 42)
    ensures forall d :: 1 <= d <= DaysInYearMonth(ym) ==>
      CivilFromDays(days[Weekday(FirstDay(ym)) + d - 1].day) == Date(ym.year, ym.month, d)
  {
    forall d | 1 <= d <= DaysInYearMonth(ym)
      ensures CivilFromDays(days[Weekday(FirstDay(ym)) + d - 1].day) == Date(ym.year, ym.month, d)
    {
      var i := Weekday(FirstDay(ym)) + d - 1;
      CellMonth(ym, entryMap, today, i, days[i]);
    }
  }

  /** The grid's today tags: set on the cell of the clock's day, hence on at
      most one cell. */
  lemma GridToday(ym: YearMonth, entryMap: map<string, Entry>, now: int, days: seq<Cell>)
    requires ValidMonth(ym) && GridInRange(ym) && ValidTime(now) && |days| == 42
    requires ConsecutiveFrom(days, GridStart(ym), 42)
    requires CellsOfDays(ym, entryMap, TodayDate(now), days, 42)
    ensures forall i :: 0 <= i < 42 ==> (days[i].isToday <==> days[i].day == DayOfTime(now))
    ensures forall i, j :: 0 <= i < 42 && 0 <= j < 42 && days[i].isToday && days[j].isToday ==> i == j
  {
    forall i | 0 <= i < 42
      ensures days[i].isToday <==> days[i].day == DayOfTime(now)
    {
      CellToday(ym, entryMap, now, i, days[i]);
    }
  }

  /** `getCalendarDays` for the displayed month `ym`, read against the clock
      `now`: the 42 cells of the days from the grid start of the month the
      constructor builds, `ConstructedMonth(ym)`. Its month number is that of
      `ym`, so the month tags are those of that month. `GridDays`, `GridText`,
      `GridMonth`, `GridMonthDays` and `GridToday` say what the cells show. */
  method CalendarDays(ym: YearMonth, entryMap: map<string, Entry>, now: int) returns (days: seq<Cell>)
    requires ValidMonth(ym) && GridInRange(ConstructedMonth(ym)) && ValidTime(now)
    ensures |days| == 42 && ConsecutiveFrom(days, GridStart(ConstructedMonth(ym)), 42)
    ensures CellsOfDays(ConstructedMonth(ym), entryMap, TodayDate(now), days, 42)
  {
    var first := ConstructedMonth(ym);
    var currentDate := GridStart(first);
    var today := TodayDate(now);
    days := [];
    var i := 0;
    while i < 42
      invariant 0 <= i <= 42 && |days| == i
      invariant currentDate == GridStart(first) + i
      invariant ConsecutiveFrom(days, GridStart(first), i)
      invariant CellsOfDays(first, entryMap, today, days, i)
    {
      var c := CivilFromDays(currentDate);
      YearOfRepresentableDay(currentDate);
      var dateString := Format(c);
      var isCurrentMonth := c.month == ym.month;
      var isToday := dateString == today;
      var entry := Lookup(entryMap, dateString);
      var cell := Cell(currentDate, dateString, isCurrentMonth, isToday, entry);
      assert cell == CellOf(first, entryMap, today, currentDate);
      ConsecutiveAppend(days, GridStart(first), cell);
      CellsAppend(first, entryMap, today, days, cell);
      days := days + [cell];
      currentDate := currentDate + 1;
      i := i + 1;
    }
  }

  /** Which way `navigateMonth` moves. */
  datatype Direction = Prev | Next

  /** The month one step away in `direction`. */
  function Step(ym: YearMonth, direction: Direction): (r: YearMonth)
    requires ValidMonth(ym)
    ensures ValidMonth(r)
    ensures MonthIndex(r) == MonthIndex(ym) + (if direction == Next then 1 else -1)
  {
    if direction == Next then NextMonth(ym) else PrevMonth(ym)
  }

  /** `navigateMonth` as the source writes it, on the day `z` of the whole
      `Date` kept in the state: `setMonth` keeps the day of the month, and a
      day the new month does not have runs on into the month after it. The
      step lands in the intended month exactly when the day fits. */
  function NavigateAsWritten(z: int, direction: Direction): (r: int)
    ensures var c := CivilFromDays(z);
      var target := Step(YearMonth(c.year, c.month), direction);
      c.day <= DaysInYearMonth(target) <==> MonthOfDay(r) == target
  {
    var c := CivilFromDays(z);
    var target := Step(YearMonth(c.year, c.month), direction);
    var r := DaysFromCivil(Date(target.year, target.month, c.day));
    StepLands(c, target, r);
    r
  }

  /** The day `c.day` of the month `target` is in that month exactly when
      the month has that many days. */
  lemma StepLands(c: Date, target: YearMonth, r: int)
    requires ValidDate(c) && ValidMonth(target)
    requires r == DaysFromCivil(Date(target.year, target.month, c.day))
    ensures c.day <= DaysInYearMonth(target) <==> MonthOfDay(r) == target
  {
    if c.day <= DaysInYearMonth(target) {
      CivilRoundTrip(Date(target.year, target.month, c.day));
    } else {
      assert r >= FirstDay(target) + DaysInYearMonth(target);
    }
  }

  /** 2024-01-31 is day 19753. */
  lemma January31()
    ensures DaysFromCivil(Date(2024, 1, 31)) == 19753 && CivilFromDays(19753) == Date(2024, 1, 31)
  {
    CivilRoundTrip(Date(2024, 1, 31));
  }

  /** 2024-03-31 is day 19813. */
  lemma March31()
    ensures DaysFromCivil(Date(2024, 3, 31)) == 19813 && CivilFromDays(19813) == Date(2024, 3, 31)
  {
    CivilRoundTrip(Date(2024, 3, 31));
  }

  /** February 31st, 2024 runs on to day 19784, which is March 2nd. */
  lemma February31()
    ensures DaysFromCivil(Date(2024, 2, 31)) == 19784 && CivilFromDays(19784) == Date(2024, 3, 2)
  {
    assert DaysFromCivil(Date(2024, 3, 2)) == 19784;
    CivilRoundTrip(Date(2024, 3, 2));
  }

  /** From January 31st, 2024 the next month shown is March. */
  lemma NextFromJanuary31()
    ensures MonthOfDay(NavigateAsWritten(DaysFromCivil(Date(2024, 1, 31)), Next)) == YearMonth(2024, 3)
  {
    January31();
    February31();
    assert NavigateAsWritten(19753, Next) == 19784;
  }

  /** From March 31st, 2024 the previous month shown is March again. */
  lemma PrevFromMarch31()
    ensures MonthOfDay(NavigateAsWritten(DaysFromCivil(Date(2024, 3, 31)), Prev)) == YearMonth(2024, 3)
  {
    March31();
    February31();
    assert NavigateAsWritten(19813, Prev) == 19784;
  }

  /** The `currentMonth` state: the displayed year and month. */
  class Calendar {
    var currentMonth: YearMonth

    ghost predicate Valid()
      reads this
    {
      ValidMonth(currentMonth)
    }

    /** `useState(() => new Date())`: the month of the clock reading. */
    constructor (now: int)
      requires ValidTime(now)
      ensures currentMonth == MonthOfDay(DayOfTime(now)) && Valid()
    {
      currentMonth := MonthOfDay(DayOfTime(now));
    }

    /** `navigateMonth` as intended: exactly one month back or forward,
        whatever the day of the month (see `NavigateAsWritten`). */
    method NavigateMonth(direction: Direction)
      requires Valid()
      modifies this
      ensures Valid()
      ensures MonthIndex(currentMonth) == MonthIndex(old(currentMonth)) + (if direction == Next then 1 else -1)
    {
      currentMonth := Step(currentMonth, direction);
    }

    /** `goToToday`: the month of the clock reading. */
    method GoToToday(now: int)
      requires ValidTime(now)
      modifies this
      ensures currentMonth == MonthOfDay(DayOfTime(now)) && Valid()
      ensures FirstDay(currentMonth) <= DayOfTime(now) < FirstDay(currentMonth) + DaysInYearMonth(currentMonth)
    {
      currentMonth := MonthOfDay(DayOfTime(now));
    }

  }
}

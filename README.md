# Mood journal: a Dafny model of its storage, main page and calendar

The mood journal is a single-user web app. Each day, the user picks a mood
emoji and may write a note. Entries live in the browser's `localStorage`,
under one key (`mood-journal-data`), as one table keyed by the `YYYY-MM-DD`
date. This project models the three parts of the app that hold logic:

- **Storage** (`src/lib/moodStorage.ts`): read the table, save an entry
  under its date with the current time, delete one date, clear everything,
  list all entries newest first, and list those of the current month.
  `MoodStorage.Store` is the storage item together with its environment:
  whether a `window` exists, whether reading or writing throws, and what
  the item holds.
- **Main page** (`src/app/page.tsx`): the `MoodJournalApp` component, as the
  class `JournalPage.MoodJournalApp`. It holds the edited mood and note, the
  listed entries, the loading and unsaved flags, and the one pending
  auto-save timer. Each method is one event: mounting, one of the three
  handlers, the timer firing, or unmounting. The auto-save effect runs after
  any event that changes its dependencies.
- **Calendar** (`src/components/CalendarView.tsx`): the date-to-entry lookup
  table, the 42-cell month grid, and the displayed month with its
  previous/next/today moves.

Dates are day numbers, with day 0 being 1970-01-01, as JavaScript's `Date`
counts them. `Civil` converts day numbers to and from the proleptic
Gregorian (year, month, day). `IsoDate` writes the text `toISOString`
produces: `YYYY-MM-DD`, or `±YYYYYY-MM-DD` outside years 0..9999. It reads
text as `new Date(s + 'T00:00:00')` does under the date time string format
of ECMA-262, which also admits `YYYY-MM` and `YYYY` (with the missing month
or day taken as 01) and their signed six-digit forms. The clock is a parameter: `now` is a time value in milliseconds,
as `Date.now()` returns it. On the main page, `today` is what
`getTodayDate()` returns at the moment of the event.

What is proved, in short:
- Saving and reading back gives the saved entry with the new timestamp.
- Deleting leaves the date absent, and clearing leaves the table empty.
- Every write keeps each entry under its own date.
- The sorted list holds every entry exactly once, with dates descending,
  strictly so for a well-keyed table. For plain dates this is the
  chronological order the source's comparator uses.
- The current-month list keeps exactly the month's entries, in order.
- The auto-save timer always holds the latest mood and note, and nothing is
  scheduled while loading.
- The 42 cells are consecutive days from the Sunday on or before the first
  of the month. The month run, the today cell and each cell's entry are
  exactly what the page intends.

`getTodayDate` takes the UTC date (`toISOString`), not the local one. The
model follows the code and assumes a zero UTC offset, so that the local and
UTC readings of a date agree (see "Left out").

`new Date(year, month, 1)` in the grid takes a year 0..99 as 1900 + year,
as the ECMA-262 `Date` constructor does, while `setMonth` does not. The
grid of a displayed month of such a year (reached, say, by "previous" from
January of year 100) is therefore built around the same month of the
1900s, and its month tags mark that month's days. The model keeps this.

## Model

| member | source | states |
|---|---|---|
| Civil.DaysFromCivil | src/components/CalendarView.tsx:61-63 | the day number of a (year, month, day), with 1970-01-01 as day 0; days past the month's end run on, as `setMonth` does |
| Civil.Weekday | src/components/CalendarView.tsx:31 | `getDay()`: a weekday 0..6, Sunday being 0, and day 0 (1970-01-01) a Thursday |
| Civil.WeekdayStep | src/components/CalendarView.tsx:51 | the day after is the next weekday, Saturday followed by Sunday |
| Civil.CivilFromDays | src/lib/moodStorage.ts:18 | the civil date read off a day number is valid and has that day number |
| Civil.CivilRoundTrip | src/components/CalendarView.tsx:29 | a valid (year, month, day) made into a day number reads back as the same date |
| Civil.DaysFromCivilOrder | src/lib/moodStorage.ts:109 | day numbers order valid dates as (year, month, day) does, so `getTime()` differences compare dates |
| Civil.NextMonthStart | src/components/CalendarView.tsx:51 | counting days on with `setDate(getDate() + 1)` crosses into the next month the day after the last of the month |
| Civil.DayInMonth | src/components/CalendarView.tsx:39 | a day inside a month's span is that month's date `z - first + 1` |
| Civil.YearOfRepresentableDay | src/lib/moodStorage.ts:18 | every date JavaScript can represent has a year of at most six digits, so `toISOString` can write it |
| IsoDate.Format | src/lib/moodStorage.ts:18 | the date part of `toISOString()`: ten characters for years 0..9999, thirteen otherwise |
| IsoDate.Parse | src/lib/moodStorage.ts:122 | a date read from text is a valid date whose year fits six digits |
| IsoDate.ParseYearMonthText | src/lib/moodStorage.ts:122 | `YYYY-MM` followed by `T00:00:00` is the first of that month |
| IsoDate.ParseYearText | src/lib/moodStorage.ts:122 | `YYYY` followed by `T00:00:00` is January 1st of that year |
| IsoDate.ParseFormat | src/lib/moodStorage.ts:122 | reading `YYYY-MM-DD` text with `new Date(s + 'T00:00:00')` gives back the date `toISOString` wrote |
| IsoDate.FormatInjective | src/components/CalendarView.tsx:40 | two dates are written the same way only when they are the same date |
| IsoDate.FormatParse | src/lib/moodStorage.ts:2 | a plain `YYYY-MM-DD` date text is exactly what `toISOString` writes for its date |
| IsoDate.PlainDateOrder | src/lib/moodStorage.ts:108-110 | for plain date texts, character order equals chronological order |
| MoodStorage.DayOfTime | src/lib/moodStorage.ts:18 | the UTC day of a time value: the day whose 86,400,000 ms span holds it |
| MoodStorage.MonthOfDay | src/lib/moodStorage.ts:117-119 | `getMonth()`/`getFullYear()` of a day: the month whose span holds the day |
| MoodStorage.TodayDate | src/lib/moodStorage.ts:17-19 | `getTodayDate()` is text that parses to the civil date of the clock's day |
| MoodStorage.Lookup | src/lib/moodStorage.ts:54 | `allEntries[date] \|\| null`: the entry exactly when the key is present |
| MoodStorage.Put | src/lib/moodStorage.ts:72-77 | the saved date maps to the draft stamped with `now`; other keys keep their entries; keys stay matched to dates |
| MoodStorage.PutTwice | src/lib/moodStorage.ts:77 | saving a draft twice is saving it once at the later time |
| MoodStorage.Remove | src/lib/moodStorage.ts:94 | `delete` drops exactly that key, keeps the others' entries and keeps keys matched to dates |
| MoodStorage.SortedEntries | src/lib/moodStorage.ts:108-110 | the list holds each entry of the table as often as the table does, dates descending, strictly when each entry sits under its own date |
| MoodStorage.SortedIsChronological | src/lib/moodStorage.ts:108-110 | over plain dates, the list runs strictly backwards in time, as the `getTime()` comparator orders it |
| MoodStorage.SortedThreeDays | src/lib/moodStorage.ts:106-111 | entries of 2024-01-01, 2024-01-03 and 2024-01-02 list as 01-03, 01-02, 01-01 |
| MoodStorage.InMonth | src/lib/moodStorage.ts:122-123 | a date in the month is one that parses, to a day that the month has |
| MoodStorage.InMonthSpan | src/lib/moodStorage.ts:122-123 | a parsed date is in the month exactly when its day number is inside the month's span of days |
| MoodStorage.MonthTextInMonth | src/lib/moodStorage.ts:121-124 | an entry stored under the text `YYYY-MM` counts as dated in that month |
| MoodStorage.FilterMonth | src/lib/moodStorage.ts:121-124 | every entry kept comes from the input and is dated in the month |
| MoodStorage.FilterMonthSubsequence | src/lib/moodStorage.ts:121-124 | the month filter keeps entries in their order |
| MoodStorage.FilterMonthCount | src/lib/moodStorage.ts:121-124 | the month filter keeps every entry of the month as often as the input has it, and nothing else |
| MoodStorage.FilterMonthOrder | src/lib/moodStorage.ts:121-124 | filtering a newest-first list leaves it newest first |
| MoodStorage.SortedMonth | src/lib/moodStorage.ts:116-125 | filtering the sorted table keeps exactly the table's entries of the month, in the sorted order |
| MoodStorage.CurrentMonthEntries | src/lib/moodStorage.ts:116-125 | the current month's entries: a newest-first subsequence of the sorted list, holding an entry iff it is stored and dated in the clock's month |
| MoodStorage.Store.Entries | src/lib/moodStorage.ts:37-47 | the stored table when readable; the empty table without a window, without an item, on a read error or on unparsable text |
| MoodStorage.Store.Get | src/lib/moodStorage.ts:52-55 | an entry exactly when the table is readable and has the date, and then the stored one |
| MoodStorage.Store.TodayEntry | src/lib/moodStorage.ts:60-62 | the same, for today's date text |
| MoodStorage.Store.Sorted | src/lib/moodStorage.ts:106-111 | the stored entries once each, newest first; nothing when unreadable |
| MoodStorage.Store.CurrentMonth | src/lib/moodStorage.ts:116-125 | an ordered subsequence of `Sorted()` holding an entry iff it is stored and in the clock's month |
| MoodStorage.Store.Save | src/lib/moodStorage.ts:67-84 | succeeds iff a window exists and the write does not throw; then the item is the read table with the draft put at `now`; when reading works, reading back gives the new entry and other dates unchanged; on failure nothing changes |
| MoodStorage.Store.Delete | src/lib/moodStorage.ts:89-101 | succeeds iff a window exists and the write does not throw; then the date is gone and, when reading works, other dates unchanged; on failure nothing changes |
| MoodStorage.Store.Clear | src/lib/moodStorage.ts:130-139 | succeeds iff a window exists and the removal does not throw; then the item is gone and the table reads empty |
| JournalPage.MoodJournalApp.constructor | src/app/page.tsx:19-23 | the initial state: empty mood, note and list, loading, nothing unsaved, no timer |
| JournalPage.MoodJournalApp.AutoSaveEffect | src/app/page.tsx:50-72 | with unchanged dependencies nothing happens; otherwise the old timer is cleared and, unless loading, a new one captures the current mood and note |
| JournalPage.MoodJournalApp.LoadData | src/app/page.tsx:27-44 | takes today's stored mood and note when there is an entry, lists the sorted store, ends loading |
| JournalPage.MoodJournalApp.Mount | src/app/page.tsx:26-47 | after loading, a save of the loaded mood and note is scheduled |
| JournalPage.MoodJournalApp.HandleMoodSelect | src/app/page.tsx:75-78 | sets the mood and the unsaved flag, restarting the timer unless the mood was already that |
| JournalPage.MoodJournalApp.HandleNoteChange | src/app/page.tsx:81-84 | sets the note and the unsaved flag, restarting the timer unless the note was already that |
| JournalPage.MoodJournalApp.HandleClearToday | src/app/page.tsx:87-91 | empties mood and note and sets the unsaved flag; the stored entry stays |
| JournalPage.MoodJournalApp.SaveTimerFires | src/app/page.tsx:53-68 | an empty mood writes nothing; otherwise today's entry is saved at `now`, and on success the list is reloaded and the flag cleared; on a failed write nothing else changes |
| JournalPage.MoodJournalApp.Unmount | src/app/page.tsx:71 | the effect cleanup clears the pending timer |
| CalendarView.LastWithDate | src/components/CalendarView.tsx:19-21 | some entry has the date iff the result is one, and then it is the last entry with that date |
| CalendarView.BuildEntryMap | src/components/CalendarView.tsx:17-23 | the table maps every date to the last entry with that date, and holds no other dates |
| CalendarView.ConstructedMonth | src/components/CalendarView.tsx:27-29 | the month whose first `new Date(year, month, 1)` builds: the displayed month, but with a year 0..99 taken as 1900 + year |
| CalendarView.GridStart | src/components/CalendarView.tsx:30-31 | the grid of a month starts on a Sunday, `getDay()` of its first days before its first |
| CalendarView.GridMonthRun | src/components/CalendarView.tsx:39 | comparing the month number alone marks exactly the run of the displayed month, which holds the month's days in order |
| CalendarView.CellOf | src/components/CalendarView.tsx:38-49 | the cell for a day carries that day and text that parses back to it |
| CalendarView.CellMonth | src/components/CalendarView.tsx:39 | a cell's month tag is set exactly inside the month's run, which is where the year and month match |
| CalendarView.CellToday | src/components/CalendarView.tsx:40 | a cell's today tag is set exactly on the clock's day |
| CalendarView.CalendarDays | src/components/CalendarView.tsx:26-55 | 42 cells, of consecutive days from the grid start of `ConstructedMonth` of the displayed month, each the cell its day gets; the other `Grid` lemmas apply to that month |
| CalendarView.GridDays | src/components/CalendarView.tsx:30-51 | the first cell is a Sunday at most six days before the first; the cells are consecutive days and each weekday is in its column |
| CalendarView.GridText | src/components/CalendarView.tsx:38-41 | each cell's text parses back to its day, and its entry is the one stored under that text |
| CalendarView.GridMonth | src/components/CalendarView.tsx:39 | the month tags mark exactly the run from the first's weekday over the month's length, which is exactly where the year and month match |
| CalendarView.GridMonthDays | src/components/CalendarView.tsx:37-52 | day `d` of the month is in position `weekday(first) + d - 1` |
| CalendarView.GridToday | src/components/CalendarView.tsx:40 | the today tag marks exactly the clock's day, so at most one cell |
| CalendarView.Step | src/components/CalendarView.tsx:60-64 | one month back or forward in the consecutive count of months |
| CalendarView.NavigateAsWritten | src/components/CalendarView.tsx:57-66 | `setMonth` on the kept date lands in the intended month exactly when that month has the kept day of the month |
| CalendarView.NextFromJanuary31 | src/components/CalendarView.tsx:63 | from January 31st, 2024, "next" shows March 2024 |
| CalendarView.PrevFromMarch31 | src/components/CalendarView.tsx:61 | from March 31st, 2024, "previous" shows March 2024 again |
| CalendarView.Calendar.constructor | src/components/CalendarView.tsx:14 | the month shown first is the month of the clock reading |
| CalendarView.Calendar.NavigateMonth | src/components/CalendarView.tsx:57-67 | (intended behaviour) the month index moves by exactly one |
| CalendarView.Calendar.GoToToday | src/components/CalendarView.tsx:69-71 | the month shown is the one holding the clock's day |

## Left out

- JSON text is not modelled. The item is a table, or text that does not
  parse (`JSON.parse` throws and `{}` is used). The empty string also reads
  as `{}`.
- JSON text that parses to some other value is not modelled: `null`, a
  number or an array. With `null`, `getMoodEntry` and `Object.values` throw
  outside the storage functions' `try`. The page's `try`/`finally` in
  `loadData` swallows that, and `saveMoodEntry` returns false.
- Keys that clash with `Object.prototype` (such as `__proto__`) are not
  modelled; the model treats every key as an ordinary map key.
- MoodStorage.SortedEntries: orders by date text, with ties broken by key.
  The source compares `getTime()` and keeps ties in `Object.values` order,
  because its sort is stable. `SortedIsChronological` shows the two agree
  on well-keyed tables of plain dates, which cannot tie. Six-digit-year
  texts and texts that are not dates are ordered by their text; in the
  source their `getTime()` may be `NaN`.
- Time zones: a zero UTC offset is assumed. The local readings the source
  makes agree with the UTC ones: `getMonth`, `getFullYear`, `new Date(y, m, 1)`
  and `'T00:00:00'` parsing.
- Date text is parsed by the ECMA-262 date time string format: a day the
  month lacks is an invalid date. The fallback parsers that engines apply
  to text outside that format are not modelled.
- The clock is a parameter: `getTodayDate()` is `today` at each event, and
  `Date.now()` is `now`. The grid reads the clock once, where the source
  reads it again for every cell.
- CalendarView.CalendarDays: requires all 42 days to be representable
  `Date`s. Beyond that, the source gets an Invalid Date, and `toISOString`
  throws.
- CalendarView.Calendar.constructor and CalendarView.Calendar.GoToToday
  keep only the month, not the whole `Date`. The kept day of the month
  matters only to `navigateMonth`, see "Findings".
- The 500 ms delay, React's render and batching, and `console.error` are
  not modelled. Each event is followed at once by its effect runs.
- `formatDateForDisplay` and the month title are locale formatting and are
  not modelled. The presentational components are not part of this model:
  MoodPicker, NoteInput, MoodHistory and ListView.
- Behaviours the model keeps, which a reader may not expect:
  - A save after a failed read writes a table holding only the new entry.
  - Mounting schedules a save of the loaded mood. It re-stamps today's entry
    with the time it fires.
  - Clearing today's mood never deletes the stored entry.

## Findings

| source | as written | input that shows it | evidently intended | confidence | as-written member | corrected member |
|---|---|---|---|---|---|---|
| src/components/CalendarView.tsx:63 | `setMonth(getMonth() + 1)` on the whole date in state keeps its day of the month, which runs on past a shorter month | state date 2024-01-31, "next" | show February 2024 | not executed; high | CalendarView.NextFromJanuary31 | CalendarView.Calendar.NavigateMonth |
| src/components/CalendarView.tsx:61 | `setMonth(getMonth() - 1)` likewise | state date 2024-03-31, "previous" | show February 2024 | not executed; high | CalendarView.PrevFromMarch31 | CalendarView.Calendar.NavigateMonth |

`CalendarView.NavigateAsWritten` is the step as written. Its contract says
exactly when it lands in the intended month: when that month has the kept
day. The corrected `Calendar` keeps only the displayed month and moves it
by exactly one month.

/**
  The date-keyed entry store of src/lib/moodStorage.ts. The browser's
  `localStorage` item 'mood-journal-data' is a `Store` object: whether a
  `window` exists, whether reading or writing the item throws, and what the
  item holds — absent, text that is not a table, or a table of entries (the
  JSON text itself is not modelled). The clock `Date.now()` is the parameter
  `now`, in milliseconds since 1970-01-01T00:00:00Z.
 */
module MoodStorage {
  import opened Wrappers
  import opened Text
  import opened Civil
  import opened IsoDate

  /** `MoodEntry`: one day's mood token, note and write time. */
  datatype Entry = Entry(date: string, mood: string, note: string, timestamp: int)

  /** `Omit<MoodEntry, 'timestamp'>`, what a caller hands to `saveMoodEntry`. */
  datatype Draft = Draft(date: string, mood: string, note: string)

  /** `MoodData`: entries by their `YYYY-MM-DD` key. */
  type Table = map<string, Entry>

  /** What the storage item holds when present. */
  datatype Blob = Stored(table: Table) | Unreadable

  const MsPerDay := 86_400_000

  /** The largest magnitude of a JavaScript time value. */
  const MaxTime := 8_640_000_000_000_000

  predicate ValidTime(t: int) { -MaxTime <= t <= MaxTime }

  /** The UTC day a time value falls on. */
  function DayOfTime(t: int): (z: int)
    requires ValidTime(t)
    ensures -MaxDays <= z <= MaxDays
    ensures z * MsPerDay <= t < (z + 1) * MsPerDay
  {
    t / MsPerDay
  }

  /** The calendar month of a day, as `getFullYear()` and `getMonth()` read it. */
  function MonthOfDay(z: int): (ym: YearMonth)
    ensures ValidMonth(ym)
    ensures FirstDay(ym) <= z < FirstDay(ym) + DaysInYearMonth(ym)
  {
    var c := CivilFromDays(z);
    YearMonth(c.year, c.month)
  }

  /** `getTodayDate`: the date part of `new Date().toISOString()`. */
  function TodayDate(now: int): (s: string)
    requires ValidTime(now)
    ensures Parse(s) == Some(CivilFromDays(DayOfTime(now)))
  {
    var d := CivilFromDays(DayOfTime(now));
    YearOfRepresentableDay(DayOfTime(now));
    ParseFormat(d);
    Format(d)
  }

  /** `allEntries[date] || null`. */
  function Lookup(t: Table, date: string): (r: Option<Entry>)
    ensures r.Some? <==> date in t
    ensures r.Some? ==> r.value == t[date]
  {
    if date in t then Some(t[date]) else None
  }

  /** Every entry sits under its own date: the key invariant of the table. */
  predicate WellKeyed(t: Table)
  {
    forall k :: k in t ==> t[k].date == k
  }

  /** The table after `allEntries[entry.date] = { ...entry, timestamp: now }`. */
  function Put(t: Table, d: Draft, now: int): (r: Table)
    ensures r.Keys == t.Keys + {d.date}
    ensures r[d.date] == Entry(d.date, d.mood, d.note, now)
    ensures forall k :: k in t && k != d.date ==> r[k] == t[k]
    ensures WellKeyed(t) ==> WellKeyed(r)
  {
    t[d.date := Entry(d.date, d.mood, d.note, now)]
  }

  /** The table after `delete allEntries[date]`. */
  function Remove(t: Table, date: string): (r: Table)
    ensures r.Keys == t.Keys - {date}
    ensures forall k :: k in r ==> r[k] == t[k]
    ensures WellKeyed(t) ==> WellKeyed(r)
  {
    t - {date}
  }

  /** Saving the same draft again changes only its timestamp: the second
      write wins. */
  lemma PutTwice(t: Table, d: Draft, first: int, second: int)
    ensures Put(Put(t, d, first), d, second) == Put(t, d, second)
    ensures Put(t, d, second)[d.date] == Put(t, d, first)[d.date].(timestamp := second)
  {
  }

  ghost function AnyKey(t: Table): (k: string)
    requires t != map[]
    ensures k in t
  {
    var k :| k in t; k
  }

  /** The entries of a table counted with multiplicity, as `Object.values` lists them. */
  ghost function ValuesBag(t: Table): multiset<Entry>
    decreases |t|
  {
    if t == map[] then multiset{}
    else
      var k := AnyKey(t);
      assert |t - {k}| < |t| by { assert (t - {k}).Keys == t.Keys - {k}; }
      ValuesBag(t - {k}) + multiset{t[k]}
  }

  /** Taking any one key out of the table takes out exactly its entry. */
  lemma {:induction false} ValuesBagRemove(t: Table, k: string)
    requires k in t
    ensures ValuesBag(t) == ValuesBag(t - {k}) + multiset{t[k]}
    decreases |t|
  {
    var a := AnyKey(t);
    if a != k {
      var ta, tk := t - {a}, t - {k};
      SmallerWithout(t, a);
      SmallerWithout(t, k);
      ValuesBagRemove(ta, k);
      ValuesBagRemove(tk, a);
      RemoveCommutes(t, a, k);
    }
  }

  lemma SmallerWithout(t: Table, k: string)
    requires k in t
    ensures |t - {k}| == |t| - 1
  {
    assert (t - {k}).Keys == t.Keys - {k};
  }

  lemma RemoveCommutes(t: Table, a: string, k: string)
    ensures t - {a} - {k} == t - {k} - {a}
  {
  }

  /** In the newest-first listing, an entry keyed `ka` and dated `da` comes
      before one keyed `kb` and dated `db`: its date is later, or the dates are
      equal and its key is the larger. */
  predicate Ahead(ka: string, da: string, kb: string, db: string)
  {
    StrLt(db, da) || (da == db && StrLt(kb, ka))
  }

  lemma AheadAsymmetric(ka: string, da: string, kb: string, db: string)
    ensures Ahead(ka, da, kb, db) ==> !Ahead(kb, db, ka, da)
  {
    StrLtAsymmetric(da, db);
    StrLtAsymmetric(ka, kb);
    StrLtIrreflexive(da);
  }

  lemma AheadTransitive(ka: string, da: string, kb: string, db: string, kc: string, dc: string)
    ensures Ahead(ka, da, kb, db) && Ahead(kb, db, kc, dc) ==> Ahead(ka, da, kc, dc)
  {
    StrLtTransitive(dc, db, da);
    StrLtTransitive(kc, kb, ka);
  }

  lemma AheadTotal(ka: string, da: string, kb: string, db: string)
    ensures ka == kb || Ahead(ka, da, kb, db) || Ahead(kb, db, ka, da)
  {
    StrLtTotal(da, db);
    StrLtTotal(ka, kb);
  }

  predicate ListedBefore(t: Table, a: string, b: string)
    requires a in t && b in t
  {
    Ahead(a, t[a].date, b, t[b].date)
  }

  /** `k` is the key listed first: ahead of every other key. */
  predicate IsFirst(t: Table, k: string)
  {
    k in t && forall j :: j in t && j != k ==> ListedBefore(t, k, j)
  }

  lemma FirstUnique(t: Table)
    ensures forall a, b :: IsFirst(t, a) && IsFirst(t, b) ==> a == b
  {
    forall a, b | IsFirst(t, a) && IsFirst(t, b) ensures a == b {
      AheadAsymmetric(a, t[a].date, b, t[b].date);
    }
  }

  lemma {:induction false} FirstExists(t: Table)
    requires t != map[]
    ensures exists k :: IsFirst(t, k)
    decreases |t|
  {
    var a := AnyKey(t);
    var rest := t - {a};
    assert rest.Keys == t.Keys - {a};
    if rest == map[] {
      assert t.Keys == {a} by {
        assert rest.Keys == {};
      }
      assert IsFirst(t, a);
    } else {
      FirstExists(rest);
      var f :| IsFirst(rest, f);
      AheadTotal(a, t[a].date, f, t[f].date);
      if ListedBefore(t, a, f) {
        forall j | j in t && j != a ensures ListedBefore(t, a, j) {
          if j != f {
            assert ListedBefore(rest, f, j);
            AheadTransitive(a, t[a].date, f, t[f].date, j, t[j].date);
          }
        }
        assert IsFirst(t, a);
      } else {
        forall j | j in t && j != f ensures ListedBefore(t, f, j) {
          if j != a {
            assert ListedBefore(rest, f, j);
          }
        }
        assert IsFirst(t, f);
      }
    }
  }

  /** Dates never increase along the list. */
  predicate NewestFirst(s: seq<Entry>)
  {
    forall i, j :: 0 <= i < j < |s| ==> !StrLt(s[i].date, s[j].date)
  }

  /** Dates strictly decrease along the list. */
  predicate StrictlyNewestFirst(s: seq<Entry>)
  {
    forall i, j :: 0 <= i < j < |s| ==> StrLt(s[j].date, s[i].date)
  }

  /** `r` lists the entries of `t`, each as often as it occurs, newest date
      first — strictly so when every entry sits under its own date. */
  ghost predicate ListsNewestFirst(r: seq<Entry>, t: Table)
  {
    && |r| == |t|
    && multiset(r) == ValuesBag(t)
    && (forall i :: 0 <= i < |r| ==> r[i] in t.Values)
    && NewestFirst(r)
    && (WellKeyed(t) ==> StrictlyNewestFirst(r))
  }

  /** The first key's entry is dated no earlier than any other entry, and
      strictly later when every entry sits under its own date. */
  lemma FirstIsNewest(t: Table, k: string, e: Entry)
    requires IsFirst(t, k) && e in (t - {k}).Values
    ensures e in t.Values && !StrLt(t[k].date, e.date)
    ensures WellKeyed(t) ==> StrLt(e.date, t[k].date)
  {
    var key :| key in t - {k} && (t - {k})[key] == e;
    assert ListedBefore(t, k, key);
    StrLtAsymmetric(e.date, t[k].date);
    StrLtIrreflexive(t[k].date);
  }

  /** Putting the first key's entry in front of its rest adds it to the bag. */
  lemma ListFirstBag(t: Table, k: string, rs: seq<Entry>)
    requires k in t && |rs| == |t - {k}| && multiset(rs) == ValuesBag(t - {k})
    ensures |[t[k]] + rs| == |t| && multiset([t[k]] + rs) == ValuesBag(t)
  {
    SmallerWithout(t, k);
    ValuesBagRemove(t, k);
    assert multiset([t[k]] + rs) == multiset{t[k]} + multiset(rs);
  }

  /** ... and it comes before the rest, strictly when well keyed. */
  lemma ListFirstOrder(t: Table, k: string, rs: seq<Entry>)
    requires IsFirst(t, k)
    requires forall i :: 0 <= i < |rs| ==> rs[i] in (t - {k}).Values
    requires NewestFirst(rs) && (WellKeyed(t - {k}) ==> StrictlyNewestFirst(rs))
    ensures forall j :: 0 <= j < |[t[k]] + rs| ==> ([t[k]] + rs)[j] in t.Values
    ensures NewestFirst([t[k]] + rs)
    ensures WellKeyed(t) ==> StrictlyNewestFirst([t[k]] + rs)
  {
    var r := [t[k]] + rs;
    forall j | 1 <= j < |r| ensures r[j] in t.Values {
      FirstIsNewest(t, k, rs[j - 1]);
    }
    assert WellKeyed(t) ==> WellKeyed(t - {k});
    forall i, j | 0 <= i < j < |r|
      ensures !StrLt(r[i].date, r[j].date)
      ensures WellKeyed(t) ==> StrLt(r[j].date, r[i].date)
    {
      if i == 0 {
        FirstIsNewest(t, k, rs[j - 1]);
      } else {
        assert r[i] == rs[i - 1] && r[j] == rs[j - 1];
      }
    }
  }

  /** Putting the first key's entry in front of a listing of the rest lists the whole table. */
  lemma ListFirstThenRest(t: Table, k: string, rs: seq<Entry>)
    requires IsFirst(t, k)
    requires ListsNewestFirst(rs, t - {k})
    ensures ListsNewestFirst([t[k]] + rs, t)
  {
    ListFirstBag(t, k, rs);
    ListFirstOrder(t, k, rs);
  }

  /** `Object.values(allEntries).sort(...)`: the table's entries, newest date first. */
  function SortedEntries(t: Table): (r: seq<Entry>)
    ensures ListsNewestFirst(r, t)
    decreases |t|
  {
    if t == map[] then []
    else
      FirstExists(t);
      FirstUnique(t);
      var k :| IsFirst(t, k);
      assert |t - {k}| < |t| by { assert (t - {k}).Keys == t.Keys - {k}; }
      var rs := SortedEntries(t - {k});
      ListFirstThenRest(t, k, rs);
      [t[k]] + rs
  }

  /** Of a well-keyed table of plain `YYYY-MM-DD` keys, the list runs strictly
      backwards in time, as the source's comparator on `getTime()` orders it. */
  lemma SortedIsChronological(t: Table)
    requires WellKeyed(t)
    requires forall k :: k in t ==> IsPlainDate(k)
    ensures forall i, j :: 0 <= i < j < |SortedEntries(t)| ==>
      IsPlainDate(SortedEntries(t)[i].date) && IsPlainDate(SortedEntries(t)[j].date) &&
      DaysFromCivil(Parse(SortedEntries(t)[j].date).value) < DaysFromCivil(Parse(SortedEntries(t)[i].date).value)
  {
    var r := SortedEntries(t);
    forall i, j | 0 <= i < j < |r|
      ensures IsPlainDate(r[i].date) && IsPlainDate(r[j].date)
      ensures DaysFromCivil(Parse(r[j].date).value) < DaysFromCivil(Parse(r[i].date).value)
    {
      assert r[i] in t.Values && r[j] in t.Values;
      PlainDateOrder(r[j].date, r[i].date);
    }
  }

  /** A strictly newest-first list of three entries drawn from three
      entries of increasing dates is those entries from the last back. */
  lemma ThreeDescending(r: seq<Entry>, a: Entry, b: Entry, c: Entry)
    requires |r| == 3 && forall i :: 0 <= i < 3 ==> r[i] == a || r[i] == b || r[i] == c
    requires StrictlyNewestFirst(r)
    requires StrLt(a.date, b.date) && StrLt(b.date, c.date) && StrLt(a.date, c.date)
    ensures r == [c, b, a]
  {
    StrLtIrreflexive(a.date);
    StrLtIrreflexive(b.date);
    StrLtIrreflexive(c.date);
    StrLtAsymmetric(a.date, b.date);
    StrLtAsymmetric(b.date, c.date);
    StrLtAsymmetric(a.date, c.date);
    assert StrLt(r[1].date, r[0].date) && StrLt(r[2].date, r[1].date) && StrLt(r[2].date, r[0].date);
  }

  lemma JanuaryOrder()
    ensures StrLt("2024-01-01", "2024-01-02") && StrLt("2024-01-02", "2024-01-03")
    ensures StrLt("2024-01-01", "2024-01-03")
  {
    var p := "2024-01-0";
    assert "2024-01-01" == p + "1" && "2024-01-02" == p + "2" && "2024-01-03" == p + "3";
    StrLtIrreflexive(p);
    StrLtConcat(p, "1", p, "2");
    StrLtConcat(p, "2", p, "3");
    StrLtConcat(p, "1", p, "3");
  }

  /** Three entries of increasing dates, stored in any order, list from the
      newest back. */
  lemma SortedThree(e1: Entry, e2: Entry, e3: Entry)
    requires StrLt(e1.date, e2.date) && StrLt(e2.date, e3.date) && StrLt(e1.date, e3.date)
    ensures SortedEntries(map[e1.date := e1, e3.date := e3, e2.date := e2]) == [e3, e2, e1]
  {
    StrLtIrreflexive(e1.date);
    StrLtIrreflexive(e2.date);
    var t := map[e1.date := e1, e3.date := e3, e2.date := e2];
    assert e1.date != e2.date && e2.date != e3.date && e1.date != e3.date;
    assert t.Keys == {e1.date, e2.date, e3.date};
    assert |t| == 3;
    assert WellKeyed(t);
    var r := SortedEntries(t);
    assert forall i :: 0 <= i < 3 ==> r[i] in t.Values;
    ThreeDescending(r, e1, e2, e3);
  }

  /** Entries dated 2024-01-01, 2024-01-03 and 2024-01-02 list as 2024-01-03,
      2024-01-02, 2024-01-01. */
  lemma SortedThreeDays(e1: Entry, e2: Entry, e3: Entry)
    requires e1.date == "2024-01-01" && e2.date == "2024-01-02" && e3.date == "2024-01-03"
    ensures SortedEntries(map[e1.date := e1, e3.date := e3, e2.date := e2]) == [e3, e2, e1]
  {
    JanuaryOrder();
    SortedThree(e1, e2, e3);
  }

  /** `r` keeps some of the elements of `s`, in their order. */
  ghost predicate IsSubsequence(r: seq<Entry>, s: seq<Entry>)
    decreases |s|
  {
    |r| == 0 || (|s| > 0 && ((r[0] == s[0] && IsSubsequence(r[1..], s[1..])) || IsSubsequence(r, s[1..])))
  }

  /** The entry's date lies in the given month, as `new Date(date + 'T00:00:00')`
      reads it; a date that does not parse lies in no month. */
  function InMonth(date: string, ym: YearMonth): (b: bool)
    ensures b ==> ValidMonth(ym) && Parse(date).Some? && Parse(date).value.day <= DaysInYearMonth(ym)
  {
    var p := Parse(date);
    p.Some? && p.value.year == ym.year && p.value.month == ym.month
  }

  /** A parsed date lies in a month exactly when its day number is inside
      that month's span of days. */
  lemma InMonthSpan(date: string, ym: YearMonth)
    requires ValidMonth(ym) && Parse(date).Some?
    ensures InMonth(date, ym) <==>
      FirstDay(ym) <= DaysFromCivil(Parse(date).value) < FirstDay(ym) + DaysInYearMonth(ym)
  {
    var d := Parse(date).value;
    var z := DaysFromCivil(d);
    if FirstDay(ym) <= z < FirstDay(ym) + DaysInYearMonth(ym) {
      DayInMonth(ym, z);
      CivilRoundTrip(d);
    }
  }

  /** A date written `YYYY-MM` is read as the first of that month, so the
      month filter keeps an entry stored under it. */
  lemma MonthTextInMonth(ym: YearMonth)
    requires ValidMonth(ym) && 0 <= ym.year <= 9999
    ensures InMonth(Digits(ym.year, 4) + "-" + Digits(ym.month, 2), ym)
  {
    ParseYearMonthText(ym.year, ym.month);
  }

  /** `.filter(...)` on the month: the entries of `s` dated in `ym`. */
  function FilterMonth(s: seq<Entry>, ym: YearMonth): (r: seq<Entry>)
    ensures forall i :: 0 <= i < |r| ==> r[i] in s && InMonth(r[i].date, ym)
  {
    if |s| == 0 then []
    else if InMonth(s[0].date, ym) then [s[0]] + FilterMonth(s[1..], ym)
    else FilterMonth(s[1..], ym)
  }

  /** The filter keeps the kept entries in their order. */
  lemma {:induction false} FilterMonthSubsequence(s: seq<Entry>, ym: YearMonth)
    ensures IsSubsequence(FilterMonth(s, ym), s)
  {
    if |s| > 0 {
      FilterMonthSubsequence(s[1..], ym);
      var r := FilterMonth(s, ym);
      if InMonth(s[0].date, ym) {
        assert r[0] == s[0] && r[1..] == FilterMonth(s[1..], ym);
      }
    }
  }

  /** The filter keeps every entry in the month as often as `s` has it, and
      no other entry. */
  lemma {:induction false} FilterMonthCount(s: seq<Entry>, ym: YearMonth, e: Entry)
    ensures multiset(FilterMonth(s, ym))[e] == if InMonth(e.date, ym) then multiset(s)[e] else 0
  {
    if |s| > 0 {
      FilterMonthCount(s[1..], ym, e);
      assert s == [s[0]] + s[1..];
      var rest := FilterMonth(s[1..], ym);
      if InMonth(s[0].date, ym) {
        assert multiset(FilterMonth(s, ym)) == multiset{s[0]} + multiset(rest);
      }
    }
  }

  /** The head of a newest-first list is dated no earlier than anything after it. */
  lemma NewestFirstSplit(s: seq<Entry>)
    requires NewestFirst(s) && |s| > 0
    ensures NewestFirst(s[1..])
    ensures forall e :: e in s[1..] ==> !StrLt(s[0].date, e.date)
  {
    forall i, j | 0 <= i < j < |s[1..]| ensures !StrLt(s[1..][i].date, s[1..][j].date) {
      assert s[1..][i] == s[i + 1] && s[1..][j] == s[j + 1];
    }
    forall e | e in s[1..] ensures !StrLt(s[0].date, e.date) {
      var n :| 0 <= n < |s[1..]| && s[1..][n] == e;
      assert s[1 + n] == e;
    }
  }

  /** An entry dated no earlier than anything in a newest-first list may go in front. */
  lemma NewestFirstCons(x: Entry, s: seq<Entry>)
    requires NewestFirst(s)
    requires forall e :: e in s ==> !StrLt(x.date, e.date)
    ensures NewestFirst([x] + s)
  {
    var r := [x] + s;
    forall i, j | 0 <= i < j < |r| ensures !StrLt(r[i].date, r[j].date) {
      assert r[j] == s[j - 1] && s[j - 1] in s;
      if i > 0 {
        assert r[i] == s[i - 1];
      }
    }
  }

  /** Filtering a newest-first list leaves it newest first. */
  lemma {:induction false} FilterMonthOrder(s: seq<Entry>, ym: YearMonth)
    requires NewestFirst(s)
    ensures NewestFirst(FilterMonth(s, ym))
  {
    if |s| > 0 {
      NewestFirstSplit(s);
      FilterMonthOrder(s[1..], ym);
      var rest := FilterMonth(s[1..], ym);
      if InMonth(s[0].date, ym) {
        NewestFirstCons(s[0], rest);
      }
    }
  }

  /** Every entry of the table is in its bag of values. */
  lemma ValuesInBag(t: Table, e: Entry)
    requires e in t.Values
    ensures ValuesBag(t)[e] > 0
  {
    var k :| k in t && t[k] == e;
    ValuesBagRemove(t, k);
  }

  /** What the month filter keeps of the sorted table is from the table. */
  lemma SortedMonthFromTable(t: Table, ym: YearMonth)
    ensures forall e :: e in FilterMonth(SortedEntries(t), ym) ==> e in t.Values && InMonth(e.date, ym)
  {
    var s := SortedEntries(t);
    var r := FilterMonth(s, ym);
    forall e | e in r ensures e in t.Values {
      var i :| 0 <= i < |r| && r[i] == e;
      var n :| 0 <= n < |s| && s[n] == r[i];
    }
  }

  /** The month filter of the sorted table misses no entry of the month. */
  lemma SortedMonthComplete(t: Table, ym: YearMonth)
    ensures forall e :: e in t.Values && InMonth(e.date, ym) ==> e in FilterMonth(SortedEntries(t), ym)
  {
    var s := SortedEntries(t);
    forall e | e in t.Values && InMonth(e.date, ym) ensures e in FilterMonth(s, ym) {
      ValuesInBag(t, e);
      FilterMonthCount(s, ym, e);
    }
  }

  /** Filtering the sorted table to a month keeps exactly the table's entries
      in that month, newest first. */
  lemma SortedMonth(t: Table, ym: YearMonth)
    ensures IsSubsequence(FilterMonth(SortedEntries(t), ym), SortedEntries(t))
    ensures NewestFirst(FilterMonth(SortedEntries(t), ym))
    ensures forall e :: e in FilterMonth(SortedEntries(t), ym) ==> e in t.Values && InMonth(e.date, ym)
    ensures forall e :: e in t.Values && InMonth(e.date, ym) ==> e in FilterMonth(SortedEntries(t), ym)
  {
    FilterMonthSubsequence(SortedEntries(t), ym);
    FilterMonthOrder(SortedEntries(t), ym);
    SortedMonthFromTable(t, ym);
    SortedMonthComplete(t, ym);
  }

  /** `getCurrentMonthEntries`: the sorted entries dated in the month of `now`. */
  function CurrentMonthEntries(t: Table, now: int): (r: seq<Entry>)
    requires ValidTime(now)
    ensures IsSubsequence(r, SortedEntries(t))
    ensures NewestFirst(r)
    ensures forall e :: e in r ==> e in t.Values && InMonth(e.date, MonthOfDay(DayOfTime(now)))
    ensures forall e :: e in t.Values && InMonth(e.date, MonthOfDay(DayOfTime(now))) ==> e in r
  {
    var ym := MonthOfDay(DayOfTime(now));
    SortedMonth(t, ym);
    FilterMonth(SortedEntries(t), ym)
  }

  /** The `localStorage` item 'mood-journal-data' and the environment around it. */
  class Store {
    /** `typeof window !== 'undefined'` */
    var hasWindow: bool
    /** `localStorage.getItem` throws */
    var readFails: bool
    /** `localStorage.setItem` / `removeItem` throw (quota, private mode) */
    var writeFails: bool
    /** the item, when present */
    var item: Option<Blob>

    constructor (hasWindow: bool, readFails: bool, writeFails: bool, item: Option<Blob>)
      ensures this.hasWindow == hasWindow && this.readFails == readFails
      ensures this.writeFails == writeFails && this.item == item
    {
      this.hasWindow := hasWindow;
      this.readFails := readFails;
      this.writeFails := writeFails;
      this.item := item;
    }

    /** The stored table is readable and what `getAllMoodEntries` returns. */
    predicate Readable()
      reads this
    {
      hasWindow && !readFails && item.Some? && item.value.Stored?
    }

    /** Entries are keyed by their own dates whenever a table is stored. */
    predicate KeysMatchDates()
      reads this
    {
      item.Some? && item.value.Stored? ==> WellKeyed(item.value.table)
    }

    /** `getAllMoodEntries`: the stored table; the empty table when there is
        no window, no item, or the item cannot be read or parsed. */
    function Entries(): (t: Table)
      reads this
      ensures Readable() ==> t == item.value.table
      ensures !Readable() ==> t == map[]
    {
      if !hasWindow || readFails then map[]
      else match item
        case None => map[]
        case Some(Unreadable) => map[]
        case Some(Stored(table)) => table
    }

    /** `getMoodEntry`: the entry under `date`, or null. */
    function Get(date: string): (r: Option<Entry>)
      reads this
      ensures r.Some? <==> Readable() && date in item.value.table
      ensures r.Some? ==> r.value == item.value.table[date]
    {
      Lookup(Entries(), date)
    }

    /** `getTodayMoodEntry`: the entry under today's date, or null. */
    function TodayEntry(now: int): (r: Option<Entry>)
      requires ValidTime(now)
      reads this
      ensures r.Some? <==> Readable() && TodayDate(now) in item.value.table
      ensures r.Some? ==> r.value == item.value.table[TodayDate(now)]
    {
      Get(TodayDate(now))
    }

    /** `getSortedMoodEntries`: every stored entry once, newest date first. */
    function Sorted(): (r: seq<Entry>)
      reads this
      ensures ListsNewestFirst(r, Entries())
      ensures !Readable() ==> r == []
    {
      SortedEntries(Entries())
    }

    /** `getCurrentMonthEntries`: the stored entries of the current month, newest first. */
    function CurrentMonth(now: int): (r: seq<Entry>)
      requires ValidTime(now)
      reads this
      ensures IsSubsequence(r, Sorted())
      ensures NewestFirst(r)
      ensures forall e :: e in r <==> e in Entries().Values && InMonth(e.date, MonthOfDay(DayOfTime(now)))
    {
      CurrentMonthEntries(Entries(), now)
    }

    /** `saveMoodEntry`: read the table, set the entry under its date with the
        current time, write the whole table back. */
    method Save(d: Draft, now: int) returns (ok: bool)
      modifies this
      ensures hasWindow == old(hasWindow) && readFails == old(readFails) && writeFails == old(writeFails)
      ensures ok <==> old(hasWindow) && !old(writeFails)
      ensures ok ==> item == Some(Stored(Put(old(Entries()), d, now)))
      ensures !ok ==> item == old(item)
      ensures ok && !readFails ==> Get(d.date) == Some(Entry(d.date, d.mood, d.note, now))
      ensures ok && !readFails ==> forall k :: k != d.date ==> Get(k) == old(Get(k))
      ensures old(KeysMatchDates()) ==> KeysMatchDates()
    {
      if !hasWindow {
        return false;
      }
      var allEntries := Entries();
      var newEntry := Entry(d.date, d.mood, d.note, now);
      allEntries := allEntries[d.date := newEntry];
      if writeFails {
        return false;
      }
      item := Some(Stored(allEntries));
      return true;
    }

    /** `deleteMoodEntry`: read the table, drop `date`, write the whole table
        back — also when `date` was not there. */
    method Delete(date: string) returns (ok: bool)
      modifies this
      ensures hasWindow == old(hasWindow) && readFails == old(readFails) && writeFails == old(writeFails)
      ensures ok <==> old(hasWindow) && !old(writeFails)
      ensures ok ==> item == Some(Stored(Remove(old(Entries()), date)))
      ensures !ok ==> item == old(item)
      ensures ok ==> Get(date) == None
      ensures ok && !readFails ==> forall k :: k != date ==> Get(k) == old(Get(k))
      ensures old(KeysMatchDates()) ==> KeysMatchDates()
    {
      if !hasWindow {
        return false;
      }
      var allEntries := Entries();
      allEntries := allEntries - {date};
      if writeFails {
        return false;
      }
      item := Some(Stored(allEntries));
      return true;
    }

    /** `clearAllMoodData`: remove the item. */
    method Clear() returns (ok: bool)
      modifies this
      ensures hasWindow == old(hasWindow) && readFails == old(readFails) && writeFails == old(writeFails)
      ensures ok <==> old(hasWindow) && !old(writeFails)
      ensures ok ==> item == None && Entries() == map[]
      ensures !ok ==> item == old(item)
      ensures old(KeysMatchDates()) ==> KeysMatchDates()
    {
      if !hasWindow {
        return false;
      }
      if writeFails {
        return false;
      }
      item := None;
      return true;
    }
  }
}

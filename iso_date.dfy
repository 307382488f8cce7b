/**
  The `YYYY-MM-DD` text of a date: the date part of `Date.prototype.toISOString`
  and the date part that `new Date(s + 'T00:00:00')` accepts. Years 0..9999 take
  four digits; other years a sign and six digits (`+010000`, `-000001`).
 */
module IsoDate {
  import opened Wrappers
  import opened Text
  import opened Civil

  /** Years that the six-digit form can hold. */
  predicate YearInRange(y: int) { -999999 <= y <= 999999 }

  predicate Formattable(d: Date) { ValidDate(d) && YearInRange(d.year) }

  function YearText(y: int): (s: string)
    requires YearInRange(y)
    ensures |s| == (if 0 <= y <= 9999 then 4 else 7)
  {
    if 0 <= y <= 9999 then Digits(y, 4)
    else if y > 0 then "+" + Digits(y, 6)
    else "-" + Digits(-y, 6)
  }

  /** The date part of `toISOString()`. */
  function Format(d: Date): (s: string)
    requires Formattable(d)
    ensures |s| == (if 0 <= d.year <= 9999 then 10 else 13)
  {
    YearText(d.year) + "-" + Digits(d.month, 2) + "-" + Digits(d.day, 2)
  }

  /** The date a numeric year, month and day name, if it exists. */
  function CheckedDate(y: int, m: int, d: int): (r: Option<Date>)
    ensures r.Some? <==> ValidDate(Date(y, m, d))
    ensures r.Some? ==> r.value == Date(y, m, d)
  {
    if 1 <= m <= 12 && 1 <= d <= DaysInMonth(y, m) then Some(Date(y, m, d)) else None
  }

  /** `s` is `YYYY-MM-DD` with four digits of year. */
  predicate PlainShape(s: string)
  {
    |s| == 10 && AllDigits(s[0..4]) && s[4] == '-' && AllDigits(s[5..7]) && s[7] == '-'
    && AllDigits(s[8..10])
  }

  /** `s` is `±YYYYYY-MM-DD`, other than the forbidden `-000000`. */
  predicate ExtendedShape(s: string)
  {
    |s| == 13 && SignedYearShape(s) && s[7] == '-'
    && AllDigits(s[8..10]) && s[10] == '-' && AllDigits(s[11..13])
  }

  /** `s` starts with a sign and six digits of year, other than `-000000`. */
  predicate SignedYearShape(s: string)
  {
    |s| >= 7 && (s[0] == '+' || s[0] == '-') && AllDigits(s[1..7])
    && !(s[0] == '-' && s[1..7] == "000000")
  }

  /** The year of a signed six-digit year field. */
  function SignedYear(s: string): (y: int)
    requires |s| >= 7 && AllDigits(s[1..7])
    ensures YearInRange(y)
  {
    DigitWidths();
    var v: int := DigitsValue(s[1..7]);
    if s[0] == '-' then -v else v
  }

  /** `s` is `YYYY-MM`. */
  predicate YearMonthShape(s: string)
  {
    |s| == 7 && AllDigits(s[0..4]) && s[4] == '-' && AllDigits(s[5..7])
  }

  /** `s` is `±YYYYYY-MM`. */
  predicate SignedYearMonthShape(s: string)
  {
    |s| == 10 && SignedYearShape(s) && s[7] == '-' && AllDigits(s[8..10])
  }

  /** The calendar date `new Date(s + 'T00:00:00')` denotes, or `None` when
      that is an invalid date. The date part of the ECMA-262 date time string
      format is `YYYY-MM-DD`, `YYYY-MM` or `YYYY`, each also with a signed
      six-digit year, and an absent month or day is 01; a string of another
      shape, a month outside 1..12 or a day the month does not have is no
      date. */
  function Parse(s: string): (r: Option<Date>)
    ensures r.Some? ==> Formattable(r.value)
  {
    if PlainShape(s) then
      CheckedDate(DigitsValue(s[0..4]), DigitsValue(s[5..7]), DigitsValue(s[8..10]))
    else if ExtendedShape(s) then
      CheckedDate(SignedYear(s), DigitsValue(s[8..10]), DigitsValue(s[11..13]))
    else ParseShort(s)
  }

  /** The forms without a day, or without a month and a day. */
  function ParseShort(s: string): (r: Option<Date>)
    ensures r.Some? ==> Formattable(r.value) && r.value.day == 1
  {
    if YearMonthShape(s) then CheckedDate(DigitsValue(s[0..4]), DigitsValue(s[5..7]), 1)
    else if SignedYearMonthShape(s) then CheckedDate(SignedYear(s), DigitsValue(s[8..10]), 1)
    else if |s| == 4 && AllDigits(s) then CheckedDate(DigitsValue(s), 1, 1)
    else if |s| == 7 && SignedYearShape(s) then CheckedDate(SignedYear(s), 1, 1)
    else None
  }

  /** A date of the plain `YYYY-MM-DD` form with a four-digit year. */
  predicate IsPlainDate(s: string) { PlainShape(s) && Parse(s).Some? }

  /** What `Parse` reads from a string of the plain shape. */
  lemma ParsePlainShape(s: string)
    requires PlainShape(s)
    ensures Parse(s) == CheckedDate(DigitsValue(s[0..4]), DigitsValue(s[5..7]), DigitsValue(s[8..10]))
  {
  }

  /** What `Parse` reads from a string of the signed six-digit shape. */
  lemma ParseExtendedShape(s: string)
    requires ExtendedShape(s)
    ensures Parse(s) == CheckedDate(SignedYear(s), DigitsValue(s[8..10]), DigitsValue(s[11..13]))
  {
  }

  /** What `Parse` reads from a string of the `YYYY-MM` shape. */
  lemma ParseYearMonthShape(s: string)
    requires YearMonthShape(s)
    ensures Parse(s) == CheckedDate(DigitsValue(s[0..4]), DigitsValue(s[5..7]), 1)
  {
  }

  /** What `Parse` reads from a string of the `YYYY` shape. */
  lemma ParseYearShape(s: string)
    requires |s| == 4 && AllDigits(s)
    ensures Parse(s) == CheckedDate(DigitsValue(s), 1, 1)
  {
  }

  /** `YYYY-MM` denotes the first of that month. */
  lemma ParseYearMonthText(y: int, m: int)
    requires 0 <= y <= 9999 && 1 <= m <= 12
    ensures Parse(Digits(y, 4) + "-" + Digits(m, 2)) == Some(Date(y, m, 1))
  {
    DigitWidths();
    var ys, ms := Digits(y, 4), Digits(m, 2);
    var s := ys + "-" + ms;
    assert s[0..4] == ys && s[5..7] == ms;
    DigitsRoundTrip(y, 4);
    DigitsRoundTrip(m, 2);
    ParseYearMonthShape(s);
  }

  /** `YYYY` denotes the first of January of that year. */
  lemma ParseYearText(y: int)
    requires 0 <= y <= 9999
    ensures Parse(Digits(y, 4)) == Some(Date(y, 1, 1))
  {
    DigitWidths();
    DigitsRoundTrip(y, 4);
    ParseYearShape(Digits(y, 4));
  }

  lemma DigitWidths()
    ensures Pow10(2) == 100 && Pow10(4) == 10000 && Pow10(6) == 1000000
  {
  }

  /** The month and day fields of a formatted date. */
  lemma FormatFields(d: Date, k: nat)
    requires Formattable(d) && k == |YearText(d.year)|
    ensures Format(d)[..k] == YearText(d.year)
    ensures Format(d)[k] == '-' && Format(d)[k + 3] == '-'
    ensures Format(d)[k + 1..k + 3] == Digits(d.month, 2)
    ensures Format(d)[k + 4..k + 6] == Digits(d.day, 2)
  {
    var ys, ms, ds := YearText(d.year), Digits(d.month, 2), Digits(d.day, 2);
    assert Format(d) == ys + ("-" + ms + "-" + ds);
  }

  lemma ParseFormatPlain(d: Date)
    requires Formattable(d) && 0 <= d.year <= 9999
    ensures Parse(Format(d)) == Some(d)
  {
    DigitWidths();
    var s := Format(d);
    FormatFields(d, 4);
    DigitsRoundTrip(d.month, 2);
    DigitsRoundTrip(d.day, 2);
    DigitsRoundTrip(d.year, 4);
    assert PlainShape(s);
    ParsePlainShape(s);
  }

  /** The sign and six-digit year field of a date outside 0..9999. */
  lemma ExtendedYearField(d: Date, v: nat)
    requires Formattable(d) && !(0 <= d.year <= 9999)
    requires v == if d.year > 0 then d.year else -d.year
    ensures Format(d)[0] == (if d.year > 0 then '+' else '-')
    ensures Format(d)[1..7] == Digits(v, 6)
    ensures AllDigits(Format(d)[1..7]) && DigitsValue(Format(d)[1..7]) == v
    ensures Format(d)[0] == '-' ==> Format(d)[1..7] != "000000"
  {
    DigitWidths();
    FormatFields(d, 7);
    DigitsRoundTrip(v, 6);
    var f := Format(d)[1..7];
    assert f == YearText(d.year)[1..] == Digits(v, 6);
    if f == "000000" {
      ZerosValue(f);
    }
  }

  /** A signed six-digit string whose fields hold a valid date parses to it. */
  lemma ParseExtendedFields(s: string, d: Date)
    requires ValidDate(d) && (d.year < 0 || 9999 < d.year) && YearInRange(d.year)
    requires |s| == 13 && s[0] == (if d.year > 0 then '+' else '-')
    requires AllDigits(s[1..7]) && DigitsValue(s[1..7]) == (if d.year > 0 then d.year else -d.year)
    requires s[0] == '-' ==> s[1..7] != "000000"
    requires s[7] == '-' && s[10] == '-'
    requires s[8..10] == Digits(d.month, 2) && s[11..13] == Digits(d.day, 2)
    ensures Parse(s) == Some(d)
  {
    DigitWidths();
    DigitsRoundTrip(d.month, 2);
    DigitsRoundTrip(d.day, 2);
    assert ExtendedShape(s);
    ParseExtendedShape(s);
  }

  lemma ParseFormatExtended(d: Date)
    requires Formattable(d) && !(0 <= d.year <= 9999)
    ensures Parse(Format(d)) == Some(d)
  {
    FormatFields(d, 7);
    var v: nat := if d.year > 0 then d.year else -d.year;
    ExtendedYearField(d, v);
    ParseExtendedFields(Format(d), d);
  }

  lemma {:induction false} ZerosValue(s: string)
    requires forall i :: 0 <= i < |s| ==> s[i] == '0'
    ensures AllDigits(s) && DigitsValue(s) == 0
  {
    if |s| > 0 {
      ZerosValue(s[..|s| - 1]);
    }
  }

  /** Parsing what `Format` wrote gives the date back. */
  lemma ParseFormat(d: Date)
    requires Formattable(d)
    ensures Parse(Format(d)) == Some(d)
  {
    if 0 <= d.year <= 9999 {
      ParseFormatPlain(d);
    } else {
      ParseFormatExtended(d);
    }
  }

  /** `Format` never writes two dates the same way. */
  lemma FormatInjective(a: Date, b: Date)
    requires Formattable(a) && Formattable(b) && Format(a) == Format(b)
    ensures a == b
  {
    ParseFormat(a);
    ParseFormat(b);
  }

  /** A plain date string is exactly what `Format` writes for its date. */
  lemma FormatParse(s: string)
    requires IsPlainDate(s)
    ensures 0 <= Parse(s).value.year <= 9999
    ensures Format(Parse(s).value) == s
  {
    DigitWidths();
    ParsePlainShape(s);
    var y, m, d := DigitsValue(s[0..4]), DigitsValue(s[5..7]), DigitsValue(s[8..10]);
    assert Parse(s) == Some(Date(y, m, d));
    PlainFields(s);
  }

  /** A string of the plain shape is its three fields written back. */
  lemma PlainFields(s: string)
    requires PlainShape(s)
    ensures s == Digits(DigitsValue(s[0..4]), 4) + "-" + Digits(DigitsValue(s[5..7]), 2) + "-"
      + Digits(DigitsValue(s[8..10]), 2)
  {
    DigitsOfValue(s[0..4]);
    DigitsOfValue(s[5..7]);
    DigitsOfValue(s[8..10]);
    assert s == s[0..4] + "-" + s[5..7] + "-" + s[8..10];
  }

  /** Three dash-separated fields of equal widths compare field by field. */
  lemma DashedOrder(ya: string, ma: string, xa: string, yb: string, mb: string, xb: string)
    requires |ya| == |yb| && |ma| == |mb|
    ensures StrLt(ya + "-" + ma + "-" + xa, yb + "-" + mb + "-" + xb) <==>
      StrLt(ya, yb) || (ya == yb && (StrLt(ma, mb) || (ma == mb && StrLt(xa, xb))))
  {
    assert ya + "-" + ma + "-" + xa == ya + ("-" + (ma + ("-" + xa)));
    assert yb + "-" + mb + "-" + xb == yb + ("-" + (mb + ("-" + xb)));
    StrLtConcat(ya, "-" + (ma + ("-" + xa)), yb, "-" + (mb + ("-" + xb)));
    StrLtConcat("-", ma + ("-" + xa), "-", mb + ("-" + xb));
    StrLtConcat(ma, "-" + xa, mb, "-" + xb);
    StrLtConcat("-", xa, "-", xb);
    StrLtIrreflexive("-");
  }

  /** Comparing `YYYY-MM-DD` strings of four-digit years character by
      character orders them as the dates they denote. */
  lemma PlainDateOrder(a: string, b: string)
    requires IsPlainDate(a) && IsPlainDate(b)
    ensures StrLt(a, b) <==> DaysFromCivil(Parse(a).value) < DaysFromCivil(Parse(b).value)
  {
    var da, db := Parse(a).value, Parse(b).value;
    FormatParse(a);
    FormatParse(b);
    DaysFromCivilOrder(da, db);
    DashedOrder(Digits(da.year, 4), Digits(da.month, 2), Digits(da.day, 2),
                Digits(db.year, 4), Digits(db.month, 2), Digits(db.day, 2));
    DigitsOrder(da.year, db.year, 4);
    DigitsOrder(da.month, db.month, 2);
    DigitsOrder(da.day, db.day, 2);
    DigitsRoundTrip(da.year, 4);
    DigitsRoundTrip(db.year, 4);
    DigitsRoundTrip(da.month, 2);
    DigitsRoundTrip(db.month, 2);
  }
}

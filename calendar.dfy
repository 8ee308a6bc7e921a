/**
 * Proleptic Gregorian calendar dates, as JavaScript's `Date` counts them:
 * parsing of `YYYY-MM-DD` strings, a day count, the next calendar day and
 * the `en-US` long format ("March 16, 2024").
 */
module Calendar {
  import opened Wrappers
  import opened Text

  datatype Date = Date(year: nat, month: nat, day: nat)

  predicate IsLeapYear(y: nat) {
    y % 4 == 0 && (y % 100 != 0 || y % 400 == 0)
  }

  function YearLength(y: nat): nat {
    if IsLeapYear(y) then 366 else 365
  }

  function DaysInMonth(y: nat, m: nat): nat
    requires 1 <= m <= 12
  {
    if m == 2 then (if IsLeapYear(y) then 29 else 28)
    else if m == 4 || m == 6 || m == 9 || m == 11 then 30
    else 31
  }

  /** A real calendar day: month 1 to 12 and a day that month has. */
  predicate IsValid(dt: Date) {
    1 <= dt.month <= 12 && 1 <= dt.day <= DaysInMonth(dt.year, dt.month)
  }

  /** Days of year `y` that come before the first of month `m`. */
  function DaysBeforeMonth(y: nat, m: nat): nat
    requires 1 <= m <= 12
  {
    if m == 1 then 0 else DaysBeforeMonth(y, m - 1) + DaysInMonth(y, m - 1)
  }

  /** Days from 0000-01-01 to the first of January of year `y`. */
  function DaysBeforeYear(y: nat): nat {
    if y == 0 then 0 else DaysBeforeYear(y - 1) + YearLength(y - 1)
  }

  /**
   * Days elapsed since 0000-01-01. A JavaScript time value of a date-only ISO
   * string is this count, shifted by a constant and scaled by 86400000, so
   * differences of time values have the sign of differences of day numbers.
   */
  function DayNumber(dt: Date): int
    requires IsValid(dt)
  {
    DaysBeforeYear(dt.year) + DaysBeforeMonth(dt.year, dt.month) + dt.day - 1
  }

  /** The calendar day after `dt`, rolling over month and year: a valid date exactly one day later. */
  function NextDay(dt: Date): (r: Date)
    requires IsValid(dt)
    ensures IsValid(r)
    ensures DayNumber(r) == DayNumber(dt) + 1
  {
    if dt.day < DaysInMonth(dt.year, dt.month) then Date(dt.year, dt.month, dt.day + 1)
    else if dt.month < 12 then Date(dt.year, dt.month + 1, 1)
    else DaysBeforeDecember(dt.year); Date(dt.year + 1, 1, 1)
  }

  lemma DaysBeforeDecember(y: nat)
    ensures DaysBeforeMonth(y, 12) + 31 == YearLength(y)
  {
    var leap := if IsLeapYear(y) then 1 else 0;
    assert DaysBeforeMonth(y, 2) == 31;
    assert DaysBeforeMonth(y, 3) == 59 + leap;
    assert DaysBeforeMonth(y, 4) == 90 + leap;
    assert DaysBeforeMonth(y, 5) == 120 + leap;
    assert DaysBeforeMonth(y, 6) == 151 + leap;
    assert DaysBeforeMonth(y, 7) == 181 + leap;
    assert DaysBeforeMonth(y, 8) == 212 + leap;
    assert DaysBeforeMonth(y, 9) == 243 + leap;
    assert DaysBeforeMonth(y, 10) == 273 + leap;
    assert DaysBeforeMonth(y, 11) == 304 + leap;
  }

  lemma {:induction false} DaysBeforeMonthGrows(y: nat, m1: nat, m2: nat)
    requires 1 <= m1 < m2 <= 12
    ensures DaysBeforeMonth(y, m1) + DaysInMonth(y, m1) <= DaysBeforeMonth(y, m2)
    decreases m2
  {
    if m1 < m2 - 1 {
      DaysBeforeMonthGrows(y, m1, m2 - 1);
    }
  }

  lemma {:induction false} DaysBeforeYearGrows(y1: nat, y2: nat)
    requires y1 < y2
    ensures DaysBeforeYear(y1) + YearLength(y1) <= DaysBeforeYear(y2)
    decreases y2
  {
    if y1 < y2 - 1 {
      DaysBeforeYearGrows(y1, y2 - 1);
    }
  }

  /** The day of a valid date falls inside its year. */
  lemma DayOfYearBound(dt: Date)
    requires IsValid(dt)
    ensures DaysBeforeMonth(dt.year, dt.month) + dt.day <= YearLength(dt.year)
  {
    DaysBeforeDecember(dt.year);
    if dt.month < 12 {
      DaysBeforeMonthGrows(dt.year, dt.month, 12);
    }
  }

  /** `a` comes before `b` comparing year, then month, then day. */
  predicate Before(a: Date, b: Date) {
    || a.year < b.year
    || (a.year == b.year && a.month < b.month)
    || (a.year == b.year && a.month == b.month && a.day < b.day)
  }

  /** On valid dates, the day count orders exactly as the calendar does. */
  lemma DayNumberOrder(a: Date, b: Date)
    requires IsValid(a) && IsValid(b)
    ensures Before(a, b) <==> DayNumber(a) < DayNumber(b)
    ensures a == b <==> DayNumber(a) == DayNumber(b)
  {
    if Before(a, b) {
      BeforeMeansEarlier(a, b);
    } else if Before(b, a) {
      BeforeMeansEarlier(b, a);
    }
  }

  lemma BeforeMeansEarlier(a: Date, b: Date)
    requires IsValid(a) && IsValid(b)
    requires Before(a, b)
    ensures DayNumber(a) < DayNumber(b)
  {
    if a.year < b.year {
      DayOfYearBound(a);
      DaysBeforeYearGrows(a.year, b.year);
    } else if a.month < b.month {
      DaysBeforeMonthGrows(a.year, a.month, b.month);
    }
  }

  /**
   * `new Date(s)` on a date-only string: the calendar day it names when `s`
   * has the shape `\d{4}-\d{2}-\d{2}` and names a real day; `None` where the
   * time value is NaN.
   */
  function ParseIsoDate(s: string): (r: Option<Date>)
    ensures r.Some? ==> IsDateShape(s) && IsValid(r.value)
  {
    if !IsDateShape(s) then None
    else
      var dt := Date(DigitsValue(s[..4]), DigitsValue(s[5..7]), DigitsValue(s[8..]));
      if IsValid(dt) then Some(dt) else None
  }

  /** The fields `new Date` reads from a string of the date shape, digit by digit. */
  function ShapeFields(s: string): Date
    requires IsDateShape(s)
  {
    Date(DigitValue(s[0]) * 1000 + DigitValue(s[1]) * 100 + DigitValue(s[2]) * 10 + DigitValue(s[3]),
         DigitValue(s[5]) * 10 + DigitValue(s[6]),
         DigitValue(s[8]) * 10 + DigitValue(s[9]))
  }

  lemma DigitPair(p: string)
    requires |p| == 2 && AllDigits(p)
    ensures DigitsValue(p) == DigitValue(p[0]) * 10 + DigitValue(p[1])
  {
    assert p[..1] == [p[0]] && p[..1][..0] == [];
    assert DigitsValue(p[..1]) == DigitValue(p[0]);
  }

  /** A string of the date shape parses exactly when its digit fields name a real day. */
  lemma ParseIsoDateFields(s: string)
    requires IsDateShape(s)
    ensures ParseIsoDate(s) == if IsValid(ShapeFields(s)) then Some(ShapeFields(s)) else None
  {
    var y := s[..4];
    assert y[..3][..2][..1] == [s[0]] && y[..3][..2] == [s[0], s[1]] && y[..3] == [s[0], s[1], s[2]];
    assert [s[0]][..0] == [];
    assert DigitsValue([s[0]]) == DigitValue(s[0]);
    assert DigitsValue([s[0], s[1]]) == DigitValue(s[0]) * 10 + DigitValue(s[1]);
    assert DigitsValue([s[0], s[1], s[2]]) == DigitValue(s[0]) * 100 + DigitValue(s[1]) * 10 + DigitValue(s[2]);
    assert DigitsValue(y) == ShapeFields(s).year;
    DigitPair(s[5..7]);
    DigitPair(s[8..]);
  }

  /** Two strings of the date shape compare by year, then month, then day field. */
  lemma CompareByFields(a: string, b: string)
    requires IsDateShape(a) && IsDateShape(b)
    ensures StrCompare(a, b) ==
              if a[..4] != b[..4] then StrCompare(a[..4], b[..4])
              else if a[5..7] != b[5..7] then StrCompare(a[5..7], b[5..7])
              else StrCompare(a[8..], b[8..])
  {
    assert a == a[..4] + ([a[4]] + (a[5..7] + ([a[7]] + a[8..])));
    assert b == b[..4] + ([b[4]] + (b[5..7] + ([b[7]] + b[8..])));
    StrCompareAppend(a[..4], [a[4]] + (a[5..7] + ([a[7]] + a[8..])), b[..4], [b[4]] + (b[5..7] + ([b[7]] + b[8..])));
    StrCompareAppend([a[4]], a[5..7] + ([a[7]] + a[8..]), [b[4]], b[5..7] + ([b[7]] + b[8..]));
    StrCompareAppend(a[5..7], [a[7]] + a[8..], b[5..7], [b[7]] + b[8..]);
    StrCompareAppend([a[7]], a[8..], [b[7]], b[8..]);
  }

  /** A digit field compares as its number does, and is equal exactly when its number is. */
  lemma FieldCompare(a: string, b: string)
    requires |a| == |b| && AllDigits(a) && AllDigits(b)
    ensures StrCompare(a, b) == Sign(DigitsValue(a) - DigitsValue(b))
    ensures a == b <==> DigitsValue(a) == DigitsValue(b)
  {
    DigitsCompare(a, b);
    StrCompareAntisymmetric(a, b);
  }

  /**
   * For strings that parse, comparing the strings character by character
   * orders them the same way as comparing the days they name.
   */
  lemma IsoOrderIsChronological(a: string, b: string)
    requires ParseIsoDate(a).Some? && ParseIsoDate(b).Some?
    ensures StrCompare(a, b) == Sign(DayNumber(ParseIsoDate(a).value) - DayNumber(ParseIsoDate(b).value))
  {
    var da, db := ParseIsoDate(a).value, ParseIsoDate(b).value;
    assert da == Date(DigitsValue(a[..4]), DigitsValue(a[5..7]), DigitsValue(a[8..]));
    assert db == Date(DigitsValue(b[..4]), DigitsValue(b[5..7]), DigitsValue(b[8..]));
    FieldsCompare(a, b);
    DateCompare(da, db);
  }

  /** Two strings of the date shape compare as their year, month and day numbers do, in that order. */
  lemma FieldsCompare(a: string, b: string)
    requires IsDateShape(a) && IsDateShape(b)
    ensures StrCompare(a, b) ==
              if DigitsValue(a[..4]) != DigitsValue(b[..4]) then Sign(DigitsValue(a[..4]) - DigitsValue(b[..4]))
              else if DigitsValue(a[5..7]) != DigitsValue(b[5..7]) then Sign(DigitsValue(a[5..7]) - DigitsValue(b[5..7]))
              else Sign(DigitsValue(a[8..]) - DigitsValue(b[8..]))
  {
    CompareByFields(a, b);
    FieldCompare(a[..4], b[..4]);
    FieldCompare(a[5..7], b[5..7]);
    FieldCompare(a[8..], b[8..]);
  }

  /** The day counts of two valid dates compare by year, then month, then day. */
  lemma DateCompare(x: Date, y: Date)
    requires IsValid(x) && IsValid(y)
    ensures Sign(DayNumber(x) - DayNumber(y)) ==
              if x.year != y.year then Sign(x.year - y.year)
              else if x.month != y.month then Sign(x.month - y.month)
              else Sign(x.day - y.day)
  {
    DayNumberOrder(x, y);
  }

  const MonthNames: seq<string> :=
    ["January", "February", "March", "April", "May", "June", "July",
     "August", "September", "October", "November", "December"]

  function MonthName(m: nat): string
    requires 1 <= m <= 12
  {
    MonthNames[m - 1]
  }

  /** Month names are not empty and contain no space. */
  lemma MonthNamesHaveNoSpace()
    ensures forall m, k :: 1 <= m <= 12 && 0 <= k < |MonthName(m)| ==> MonthName(m)[k] != ' '
    ensures forall m :: 1 <= m <= 12 ==> |MonthName(m)| > 0
  {
  }

  /** No two months share a name. */
  lemma MonthNamesDistinct()
    ensures forall a, b :: 1 <= a < b <= 12 ==> MonthName(a) != MonthName(b)
  {
  }

  /**
   * The year `toLocaleDateString` prints with `year: 'numeric'`: the year of
   * the era, which for the proleptic year 0 (1 BC) is 1.
   */
  function YearOfEra(y: nat): nat {
    if y == 0 then 1 else y
  }

  /** The first month, from `m` on, whose name is `text`. */
  function MonthNumber(text: string, m: nat): (r: Option<nat>)
    requires 1 <= m <= 13
    ensures r.Some? ==> m <= r.value <= 12 && MonthName(r.value) == text
    ensures r.None? ==> forall k :: m <= k <= 12 ==> MonthName(k) != text
    decreases 13 - m
  {
    if m == 13 then None
    else if MonthName(m) == text then Some(m)
    else MonthNumber(text, m + 1)
  }

  /** The length of the longest prefix of `s` without `c`: where the first `c` is, or `|s|`. */
  function Until(s: string, c: char): (k: nat)
    ensures k <= |s|
    ensures forall i :: 0 <= i < k ==> s[i] != c
    ensures k < |s| ==> s[k] == c
  {
    if |s| == 0 || s[0] == c then 0 else 1 + Until(s[1..], c)
  }

  /**
   * Reads a long-form date `<Month> <day>, <year>` back: the month's name up
   * to the first space, then the day and the year.
   */
  function ParseLongDate(s: string): Option<Date> {
    var i := Until(s, ' ');
    if i == |s| then None else ParseMonthAndRest(s[..i], s[i + 1..])
  }

  /** A month's name followed by the day and the year. */
  function ParseMonthAndRest(name: string, rest: string): Option<Date> {
    match MonthNumber(name, 1)
    case None => None
    case Some(m) => ParseDayAndYear(m, rest)
  }

  /** Decimal digits up to the first `,`, which a space follows, then decimal digits to the end. */
  function ParseDayAndYear(m: nat, rest: string): Option<Date> {
    var j := Until(rest, ',');
    if j + 1 >= |rest| || rest[j + 1] != ' ' then None
    else
      var day, year := rest[..j], rest[j + 2..];
      if |day| > 0 && AllDigits(day) && |year| > 0 && AllDigits(year)
      then Some(Date(DigitsValue(year), m, DigitsValue(day)))
      else None
  }

  /** `toLocaleDateString('en-US', {year: 'numeric', month: 'long', day: 'numeric'})`. */
  function LongDate(dt: Date): string
    requires 1 <= dt.month <= 12
  {
    MonthName(dt.month) + " " + NatToString(dt.day) + ", " + NatToString(YearOfEra(dt.year))
  }

  /** The long form reads back as the month, the day and the year of the era. */
  lemma LongDateRoundTrip(dt: Date)
    requires 1 <= dt.month <= 12
    ensures ParseLongDate(LongDate(dt)) == Some(Date(YearOfEra(dt.year), dt.month, dt.day))
  {
    LongDateReadsBack(dt.month, dt.day, YearOfEra(dt.year));
  }

  lemma MonthNumberOfName(m: nat)
    requires 1 <= m <= 12
    ensures MonthNumber(MonthName(m), 1) == Some(m)
  {
    MonthNamesDistinct();
  }

  /** In `word + [c] + tail`, for a word without `c`, the first `c` ends the word. */
  lemma UntilEndsWord(word: string, c: char, tail: string)
    requires forall k :: 0 <= k < |word| ==> word[k] != c
    ensures Until(word + [c] + tail, c) == |word|
  {
    var s := word + [c] + tail;
    assert s[|word|] == c;
    assert forall k :: 0 <= k < |word| ==> s[k] == word[k];
  }

  lemma LongDateReadsBack(m: nat, day: nat, year: nat)
    requires 1 <= m <= 12
    ensures ParseLongDate(MonthName(m) + " " + NatToString(day) + ", " + NatToString(year)) == Some(Date(year, m, day))
  {
    NatToStringRoundTrip(day);
    NatToStringRoundTrip(year);
    MonthNamesHaveNoSpace();
    MonthNumberOfName(m);
    ReadsBackParts(MonthName(m), m, NatToString(day), NatToString(year));
  }

  /** A month's name, a space, digits, `, ` and digits read back as that date. */
  lemma ReadsBackParts(name: string, m: nat, d: string, y: string)
    requires 1 <= m <= 12 && MonthNumber(name, 1) == Some(m)
    requires forall k :: 0 <= k < |name| ==> name[k] != ' '
    requires |d| > 0 && AllDigits(d) && |y| > 0 && AllDigits(y)
    ensures ParseLongDate(name + " " + d + ", " + y) == Some(Date(DigitsValue(y), m, DigitsValue(d)))
  {
    var rest := d + ", " + y;
    assert name + " " + d + ", " + y == name + [' '] + rest;
    SplitAtFirstSpace(name, rest);
    DayAndYear(m, d, y);
  }

  lemma SplitAtFirstSpace(name: string, rest: string)
    requires forall k :: 0 <= k < |name| ==> name[k] != ' '
    ensures ParseLongDate(name + [' '] + rest) == ParseMonthAndRest(name, rest)
  {
    var s := name + [' '] + rest;
    UntilEndsWord(name, ' ', rest);
    assert s[..|name|] == name && s[|name| + 1..] == rest;
  }

  lemma DayAndYear(m: nat, d: string, y: string)
    requires |d| > 0 && AllDigits(d) && |y| > 0 && AllDigits(y)
    ensures ParseDayAndYear(m, d + ", " + y) == Some(Date(DigitsValue(y), m, DigitsValue(d)))
  {
    var rest := d + ", " + y;
    assert forall k :: 0 <= k < |d| ==> d[k] != ',';
    assert rest == d + [','] + (" " + y);
    UntilEndsWord(d, ',', " " + y);
    assert rest[|d| + 1] == ' ';
    assert rest[..|d|] == d && rest[|d| + 2..] == y;
  }

  /** `2024-03-16` in the long form. */
  lemma MarchSixteenthLong()
    ensures LongDate(Date(2024, 3, 16)) == "March 16, 2024"
  {
    assert MonthName(3) == "March";
    assert NatToString(16) == "16";
    assert NatToString(2024) == "2024";
  }

  /** Year 0 in the long form is year 1 of the era. */
  lemma YearZeroLong()
    ensures LongDate(Date(0, 3, 16)) == "March 16, 1"
  {
    assert MonthName(3) == "March";
    assert NatToString(16) == "16";
    assert NatToString(YearOfEra(0)) == "1";
  }
}

/**
 * Metadata read off a record's file name (script.js): the date it carries and
 * the label the selector shows for it.
 */
module FileNames {
  import opened Wrappers
  import opened Text
  import opened Calendar

  const RecordPrefix := "attendance-"
  const SessionPrefix := "attendance-session-"
  const HtmlSuffix := ".html"

  /** `extractDateFromFilename`: the leftmost `\d{4}-\d{2}-\d{2}` anywhere in the name, or null. */
  function ExtractDateFromFilename(filename: string): (r: Option<string>)
    ensures r.Some? ==> exists i: nat :: MatchesAt(filename, i, 10, IsDateShape)
                                        && r.value == filename[i..i + 10]
                                        && forall j: nat :: j < i ==> !MatchesAt(filename, j, 10, IsDateShape)
    ensures r.None? ==> forall i: nat :: !MatchesAt(filename, i, 10, IsDateShape)
  {
    match FindWindow(filename, 10, IsDateShape)
    case Some(i) => Some(filename[i..i + 10])
    case None => None
  }

  /** The regular expression `attendance-(\d{4}-\d{2}-\d{2})` on a 21-character window. */
  predicate IsDatedWindow(w: string) {
    |w| == 21 && w[..11] == RecordPrefix && IsDateShape(w[11..])
  }

  /** The start of a match of `attendance-session-(\d+)`: the prefix and one digit. */
  predicate IsSessionWindow(w: string) {
    |w| == 20 && w[..19] == SessionPrefix && IsDigit(w[19])
  }

  /** `/attendance-/i` on an 11-character window: ASCII letters match either case. */
  predicate IsPrefixIgnoringCase(w: string) {
    Lower(w) == RecordPrefix
  }

  /** The `k` characters from `from` are digits and the next one, if any, is not. */
  predicate IsDigitRun(s: string, from: nat, k: nat) {
    from + k <= |s| && AllDigits(s[from..from + k]) && (from + k == |s| || !IsDigit(s[from + k]))
  }

  /** The length of the run of digits of `s` that starts at `from` (the greedy `\d+`). */
  function DigitRunLength(s: string, from: nat): (k: nat)
    requires from <= |s|
    ensures from + k <= |s| && AllDigits(s[from..from + k])
    ensures from + k == |s| || !IsDigit(s[from + k])
    decreases |s| - from
  {
    if from < |s| && IsDigit(s[from]) then
      var k := 1 + DigitRunLength(s, from + 1);
      assert s[from..from + k] == [s[from]] + s[from + 1..from + k];
      k
    else 0
  }

  /** The label of the date branch: the long form of the day after `d`, or what an invalid date prints. */
  function DateLabel(d: string): string
  {
    match ParseIsoDate(d)
    case Some(dt) => LongDate(NextDay(dt))
    case None => "Invalid Date"
  }

  /** The first case-insensitive `attendance-` becomes `Attendance - `. */
  function ReplaceRecordPrefix(name: string): (r: string)
    ensures (forall i: nat :: !MatchesAt(name, i, 11, IsPrefixIgnoringCase)) ==> r == name
    ensures (exists i: nat :: MatchesAt(name, i, 11, IsPrefixIgnoringCase)) ==>
              exists i: nat :: && MatchesAt(name, i, 11, IsPrefixIgnoringCase)
                               && (forall j: nat :: j < i ==> !MatchesAt(name, j, 11, IsPrefixIgnoringCase))
                               && r == name[..i] + "Attendance - " + name[i + 11..]
  {
    match FindWindow(name, 11, IsPrefixIgnoringCase)
    case Some(i) => name[..i] + "Attendance - " + name[i + 11..]
    case None => name
  }

  /** `.replace(/-/g, ' ')`. */
  function DashesToSpaces(s: string): (r: string)
    ensures |r| == |s| && '-' !in r
    ensures forall i :: 0 <= i < |s| && s[i] == '-' ==> r[i] == ' '
    ensures forall i :: 0 <= i < |s| && s[i] != '-' ==> r[i] == s[i]
  {
    seq(|s|, i requires 0 <= i < |s| => if s[i] == '-' then ' ' else s[i])
  }

  /** `\w` of a JavaScript regular expression. */
  predicate IsWordChar(c: char) {
    'a' <= c <= 'z' || 'A' <= c <= 'Z' || IsDigit(c) || c == '_'
  }

  /** `\b\w` matches at `i`: a word character not preceded by one. */
  predicate IsWordStart(s: string, i: nat)
    requires i < |s|
  {
    IsWordChar(s[i]) && (i == 0 || !IsWordChar(s[i - 1]))
  }

  /**
   * `.replace(/\b\w/g, l => l.toUpperCase())`: the first character of every
   * word is upper-cased and every other character is kept.
   */
  function CapitalizeWords(s: string): (r: string)
    ensures |r| == |s|
    ensures forall i :: 0 <= i < |s| && IsWordStart(s, i) ==> r[i] == AsciiUpper(s[i]) && !('a' <= r[i] <= 'z')
    ensures forall i :: 0 <= i < |s| && !IsWordStart(s, i) ==> r[i] == s[i]
    ensures forall i :: 0 <= i < |s| ==> (r[i] == '-' <==> s[i] == '-')
  {
    seq(|s|, i requires 0 <= i < |s| => if IsWordStart(s, i) then AsciiUpper(s[i]) else s[i])
  }

  /** The default branch of `formatDisplayName`. */
  function DefaultLabel(name: string): (r: string)
    ensures '-' !in r
  {
    CapitalizeWords(DashesToSpaces(ReplaceRecordPrefix(name)))
  }

  /** `filename.replace('.html', '')`: the first `.html`, wherever it is, is removed. */
  function StripHtml(filename: string): (r: string)
    ensures !Contains(filename, HtmlSuffix) ==> r == filename
    ensures Contains(filename, HtmlSuffix) ==>
              exists i: nat :: && OccursAt(filename, i, HtmlSuffix)
                               && (forall j: nat :: j < i ==> !OccursAt(filename, j, HtmlSuffix))
                               && r == filename[..i] + filename[i + |HtmlSuffix|..]
  {
    var r := ReplaceFirst(filename, HtmlSuffix, "");
    assert forall i: nat :: i <= |filename| ==> filename[..i] + "" == filename[..i];
    r
  }

  /**
   * `formatDisplayName`: the leftmost date pattern, else the leftmost session
   * pattern, else generic word casing, all on the name without `.html`. The
   * label contains a `-` exactly when the date pattern occurs.
   */
  function FormatDisplayName(filename: string): (r: string)
    ensures '-' in r <==> exists i: nat :: MatchesAt(StripHtml(filename), i, 21, IsDatedWindow)
  {
    var name := StripHtml(filename);
    match FindWindow(name, 21, IsDatedWindow)
    case Some(i) =>
      var r := "Attendance - " + DateLabel(name[i + 11..i + 21]);
      assert r[11] == '-';
      r
    case None =>
      match FindWindow(name, 20, IsSessionWindow)
      case Some(j) => SessionLabel(name, j)
      case None => DefaultLabel(name)
  }

  /** The session branch: the digit run that follows `attendance-session-`, copied as it is. */
  function SessionLabel(name: string, j: nat): (r: string)
    requires MatchesAt(name, j, 20, IsSessionWindow)
    ensures exists k: nat {:trigger IsDigitRun(name, j + 19, k)} :: k >= 1 && IsDigitRun(name, j + 19, k) && r == "Attendance Session " + name[j + 19..j + 19 + k]
    ensures '-' !in r
  {
    var k := DigitRunLength(name, j + 19);
    assert name[j..j + 20][19] == name[j + 19];
    assert IsDigitRun(name, j + 19, k);
    var digits := name[j + 19..j + 19 + k];
    assert forall i :: 0 <= i < |digits| ==> IsDigit(digits[i]);
    "Attendance Session " + digits
  }

  /** The name of a record for day `d`: `attendance-YYYY-MM-DD.html`. */
  function RecordName(d: string): string {
    RecordPrefix + d + HtmlSuffix
  }

  lemma PrefixHasNoDigit()
    ensures forall j :: 0 <= j < |RecordPrefix| ==> !IsDigit(RecordPrefix[j])
  {
  }

  /** The date of `attendance-<d>.html` is `d` itself. */
  lemma ExtractDateOfRecordName(d: string)
    requires IsDateShape(d)
    ensures ExtractDateFromFilename(RecordName(d)) == Some(d)
  {
    var f := RecordName(d);
    assert f[11..21] == d;
    assert MatchesAt(f, 11, 10, IsDateShape);
    PrefixHasNoDigit();
    forall j: nat | j < 11 ensures !MatchesAt(f, j, 10, IsDateShape) {
      assert f[j..j + 10][0] == RecordPrefix[j];
    }
  }

  lemma NoDotBeforeDate(d: string)
    requires IsDateShape(d)
    ensures forall j :: 0 <= j < 21 ==> (RecordPrefix + d)[j] != '.'
  {
  }

  /** Removing `.html` from `attendance-<d>.html` leaves `attendance-<d>`. */
  lemma StripHtmlOfRecordName(d: string)
    requires IsDateShape(d)
    ensures StripHtml(RecordName(d)) == RecordPrefix + d
  {
    var f := RecordName(d);
    assert OccursAt(f, 21, HtmlSuffix);
    NoDotBeforeDate(d);
    forall j: nat | j < 21 ensures !OccursAt(f, j, HtmlSuffix) {
      assert f[j] == (RecordPrefix + d)[j];
    }
    assert IndexOf(f, HtmlSuffix) == Some(21);
    assert f[..21] + "" + f[26..] == RecordPrefix + d;
  }

  /** The label of `attendance-<d>.html` is the date branch's label for `d`. */
  lemma DatedRecordLabel(d: string)
    requires IsDateShape(d)
    ensures FormatDisplayName(RecordName(d)) == "Attendance - " + DateLabel(d)
  {
    StripHtmlOfRecordName(d);
    DateWindowAtStart(d);
    var name := RecordPrefix + d;
    assert name[11..21] == d;
  }

  /** In `attendance-<d>` the date pattern matches first at position 0. */
  lemma DateWindowAtStart(d: string)
    requires IsDateShape(d)
    ensures FindWindow(RecordPrefix + d, 21, IsDatedWindow) == Some(0)
  {
    var name := RecordPrefix + d;
    assert name[0..21] == name && name[..11] == RecordPrefix && name[11..] == d;
    assert MatchesAt(name, 0, 21, IsDatedWindow);
  }

  /**
   * The date branch names the calendar day after `d` (day + 1, rolling over
   * month and year), or prints "Invalid Date" when `d` is no calendar day.
   */
  lemma DateLabelIsNextDay(d: string)
    ensures ParseIsoDate(d).Some? ==>
              var dt := ParseIsoDate(d).value;
              && IsValid(NextDay(dt))
              && DayNumber(NextDay(dt)) == DayNumber(dt) + 1
              && DateLabel(d) == LongDate(NextDay(dt))
              && ParseLongDate(DateLabel(d)) == Some(Date(YearOfEra(NextDay(dt).year), NextDay(dt).month, NextDay(dt).day))
    ensures ParseIsoDate(d).None? ==> DateLabel(d) == "Invalid Date"
  {
    if ParseIsoDate(d).Some? {
      LongDateRoundTrip(NextDay(ParseIsoDate(d).value));
    }
  }

  /** The name of a numbered session record: `attendance-session-<n>.html`. */
  function SessionName(n: string): string {
    SessionPrefix + n + HtmlSuffix
  }

  lemma SessionPrefixChars()
    ensures forall j :: 0 <= j < 19 ==> !IsDigit(SessionPrefix[j]) && SessionPrefix[j] != '.'
  {
  }

  lemma StripHtmlOfSessionName(n: string)
    requires AllDigits(n)
    ensures StripHtml(SessionName(n)) == SessionPrefix + n
  {
    var f := SessionName(n);
    var name := SessionPrefix + n;
    SessionPrefixChars();
    assert OccursAt(f, 19 + |n|, HtmlSuffix);
    forall j: nat | j < 19 + |n| ensures !OccursAt(f, j, HtmlSuffix) {
      assert f[j] == name[j];
      if j >= 19 { assert name[j] == n[j - 19]; }
    }
    assert IndexOf(f, HtmlSuffix) == Some(19 + |n|);
    assert f[..19 + |n|] + "" + f[19 + |n| + 5..] == name;
  }

  lemma NoDateInSessionName(n: string)
    requires AllDigits(n)
    ensures forall i: nat :: !MatchesAt(SessionPrefix + n, i, 21, IsDatedWindow)
  {
    var name := SessionPrefix + n;
    SessionPrefixChars();
    forall i: nat | i + 21 <= |name| ensures !MatchesAt(name, i, 21, IsDatedWindow) {
      var w := name[i..i + 21];
      if i + 11 < 19 {
        assert w[11..][0] == name[i + 11] == SessionPrefix[i + 11];
      } else {
        assert w[11..][4] == name[i + 15] == n[i + 15 - 19];
      }
    }
  }

  /**
   * The label of `attendance-session-<n>.html` is `Attendance Session <n>`
   * with the digits copied as they are, leading zeros included.
   */
  lemma SessionRecordLabel(n: string)
    requires |n| > 0 && AllDigits(n)
    ensures FormatDisplayName(SessionName(n)) == "Attendance Session " + n
  {
    var name := SessionPrefix + n;
    StripHtmlOfSessionName(n);
    NoDateInSessionName(n);
    assert FindWindow(name, 21, IsDatedWindow).None?;
    SessionWindowAtStart(n);
    SessionDigitsCopied(n);
  }

  lemma SessionWindowAtStart(n: string)
    requires |n| > 0 && AllDigits(n)
    ensures FindWindow(SessionPrefix + n, 20, IsSessionWindow) == Some(0)
  {
    var name := SessionPrefix + n;
    assert name[0..20][..19] == SessionPrefix && name[0..20][19] == n[0];
    assert MatchesAt(name, 0, 20, IsSessionWindow);
  }

  lemma SessionDigitsCopied(n: string)
    requires |n| > 0 && AllDigits(n)
    ensures MatchesAt(SessionPrefix + n, 0, 20, IsSessionWindow)
    ensures SessionLabel(SessionPrefix + n, 0) == "Attendance Session " + n
  {
    var name := SessionPrefix + n;
    SessionWindowAtStart(n);
    assert forall t :: 19 <= t < |name| ==> name[t] == n[t - 19];
    var k := DigitRunLength(name, 19);
    assert name[19..19 + k] == n;
  }

  /**
   * The branches of `formatDisplayName`: the leftmost date match gives the
   * date label; without one, the leftmost session match gives the session
   * label; without either, the default label.
   */
  lemma FormatDisplayNameBranches(filename: string)
    ensures var name := StripHtml(filename);
            (exists i: nat :: MatchesAt(name, i, 21, IsDatedWindow)) ==>
              exists i: nat :: && MatchesAt(name, i, 21, IsDatedWindow)
                               && (forall k: nat :: k < i ==> !MatchesAt(name, k, 21, IsDatedWindow))
                               && FormatDisplayName(filename) == "Attendance - " + DateLabel(name[i + 11..i + 21])
    ensures var name := StripHtml(filename);
            (forall i: nat :: !MatchesAt(name, i, 21, IsDatedWindow)) && (exists j: nat :: MatchesAt(name, j, 20, IsSessionWindow)) ==>
              exists j: nat :: && MatchesAt(name, j, 20, IsSessionWindow)
                               && (forall k: nat :: k < j ==> !MatchesAt(name, k, 20, IsSessionWindow))
                               && FormatDisplayName(filename) == SessionLabel(name, j)
    ensures var name := StripHtml(filename);
            (forall i: nat :: !MatchesAt(name, i, 21, IsDatedWindow)) && (forall j: nat :: !MatchesAt(name, j, 20, IsSessionWindow)) ==>
              FormatDisplayName(filename) == DefaultLabel(name)
  {
    var name := StripHtml(filename);
    match FindWindow(name, 21, IsDatedWindow)
    case Some(i) =>
      assert FormatDisplayName(filename) == "Attendance - " + DateLabel(name[i + 11..i + 21]);
    case None =>
      match FindWindow(name, 20, IsSessionWindow)
      case Some(j) =>
        assert FormatDisplayName(filename) == SessionLabel(name, j);
      case None =>
        assert FormatDisplayName(filename) == DefaultLabel(name);
  }

  /** In the default branch the first character of every word of the label is not a lower-case letter. */
  lemma DefaultLabelWordsCapitalized(filename: string)
    requires FindWindow(StripHtml(filename), 21, IsDatedWindow).None?
    requires FindWindow(StripHtml(filename), 20, IsSessionWindow).None?
    ensures var r := FormatDisplayName(filename);
            forall i: nat :: i < |r| && IsWordStart(r, i) ==> !('a' <= r[i] <= 'z')
  {
    var s := DashesToSpaces(ReplaceRecordPrefix(StripHtml(filename)));
    var r := CapitalizeWords(s);
    assert FormatDisplayName(filename) == r;
    forall i: nat | i < |r| && IsWordStart(r, i) ensures !('a' <= r[i] <= 'z') {
      assert IsWordChar(r[i]) <==> IsWordChar(s[i]);
      if i > 0 {
        assert IsWordChar(r[i - 1]) <==> IsWordChar(s[i - 1]);
      }
      assert IsWordStart(s, i);
    }
  }

  lemma MarchFifteenthLabel()
    ensures DateLabel("2024-03-15") == "March 16, 2024"
  {
    MarchFifteenthParses();
    assert NextDay(Date(2024, 3, 15)) == Date(2024, 3, 16);
    MarchSixteenthLong();
  }

  lemma MarchFifteenthParses()
    ensures ParseIsoDate("2024-03-15") == Some(Date(2024, 3, 15))
  {
    ParseIsoDateFields("2024-03-15");
  }

  /** `attendance-2024-03-15.html` is shown as the day after: March 16, 2024. */
  lemma DatedLabelExample()
    ensures FormatDisplayName("attendance-2024-03-15.html") == "Attendance - " + "March 16, 2024"
  {
    var d := "2024-03-15";
    assert "attendance-2024-03-15.html" == RecordName(d);
    DatedRecordLabel(d);
    MarchFifteenthLabel();
  }

  /** `attendance-session-07.html` keeps its leading zero. */
  lemma SessionLabelExample()
    ensures FormatDisplayName("attendance-session-07.html") == "Attendance Session 07"
  {
    assert "attendance-session-07.html" == SessionName("07");
    SessionRecordLabel("07");
  }

  /** Year 0 is printed as year 1 of the era: `0000-03-15` is labelled `March 16, 1`. */
  lemma YearZeroLabel()
    ensures DateLabel("0000-03-15") == "March 16, 1"
  {
    YearZeroParses();
    assert NextDay(Date(0, 3, 15)) == Date(0, 3, 16);
    YearZeroLong();
  }

  lemma YearZeroParses()
    ensures ParseIsoDate("0000-03-15") == Some(Date(0, 3, 15))
  {
    ParseIsoDateFields("0000-03-15");
  }

}

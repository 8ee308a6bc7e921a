/**
 * The records the viewer lists and the entries of `attendance-manifest.json`,
 * and the two-tier comparator both pipelines and the manifest tool sort with:
 * newest date first when both records carry a date, otherwise by name.
 */
module Records {
  import opened Wrappers
  import opened Text
  import opened Calendar
  import opened Sorting

  /** One record as the viewer lists it. */
  datatype Descriptor = Descriptor(
    filename: string,
    displayName: string,
    date: Option<string>,
    description: string,
    category: string)

  /** One element of the manifest's `files` array; absent or `null` fields are `None`. */
  datatype ManifestEntry = ManifestEntry(
    filename: string,
    title: Option<string>,
    date: Option<string>,
    description: Option<string>,
    category: Option<string>)

  /** A JavaScript truthy string: present and not empty. */
  predicate Truthy(v: Option<string>) {
    v.Some? && v.value != ""
  }

  /** `v || fallback` on an optional string. */
  function OrElse(v: Option<string>, fallback: string): (r: string)
    ensures Truthy(v) ==> r == v.value
    ensures !Truthy(v) ==> r == fallback
    ensures r != "" <==> Truthy(v) || fallback != ""
  {
    if Truthy(v) then v.value else fallback
  }

  /** `new Date(d)` gives a time value rather than NaN. */
  predicate IsDated(d: string) {
    ParseIsoDate(d).Some?
  }

  /** The day count behind `new Date(d)`, for a date that parses. */
  function DayOf(d: string): int
    requires IsDated(d)
  {
    DayNumber(ParseIsoDate(d).value)
  }

  /** The record carries a date that parses. */
  predicate HasValidDate(date: Option<string>) {
    date.Some? && IsDated(date.value)
  }

  /**
   * `new Date(b) - new Date(a)`, with the day count standing for the time
   * value; a NaN difference counts as 0, as `Array.prototype.sort` reads it.
   * Between two dates that parse, the later one sorts first, which is
   * reverse lexicographic order of the strings.
   */
  function CompareDates(a: string, b: string): (r: int)
    ensures IsDated(a) && IsDated(b) ==> Sign(r) == StrCompare(b, a)
    ensures IsDated(a) && IsDated(b) ==> (r == 0 <==> a == b)
    ensures !(IsDated(a) && IsDated(b)) ==> r == 0
  {
    if IsDated(a) && IsDated(b) then
      IsoOrderIsChronological(b, a);
      StrCompareAntisymmetric(b, a);
      DayOf(b) - DayOf(a)
    else 0
  }

  /**
   * The comparator of the sorts: dates when both are truthy, otherwise
   * `keyA.localeCompare(keyB)`.
   */
  function TwoTier(dateA: Option<string>, dateB: Option<string>, keyA: string, keyB: string): (r: int)
    ensures HasValidDate(dateA) && HasValidDate(dateB) ==> Sign(r) == StrCompare(dateB.value, dateA.value)
    ensures Truthy(dateA) && Truthy(dateB) && !(HasValidDate(dateA) && HasValidDate(dateB)) ==> r == 0
    ensures !(Truthy(dateA) && Truthy(dateB)) ==> r == StrCompare(keyA, keyB)
    ensures !(Truthy(dateA) && Truthy(dateB)) ==> -1 <= r <= 1 && (r == 0 <==> keyA == keyB)
  {
    if Truthy(dateA) && Truthy(dateB) then CompareDates(dateA.value, dateB.value)
    else
      StrCompareAntisymmetric(keyA, keyB);
      StrCompare(keyA, keyB)
  }

  /** The viewer's comparator, falling back on the display name. */
  function CompareDescriptors(a: Descriptor, b: Descriptor): (r: int)
    ensures HasValidDate(a.date) && HasValidDate(b.date) ==> Sign(r) == StrCompare(b.date.value, a.date.value)
    ensures !(Truthy(a.date) && Truthy(b.date)) ==> r == StrCompare(a.displayName, b.displayName)
    ensures !(Truthy(a.date) && Truthy(b.date)) ==> -1 <= r <= 1 && (r == 0 <==> a.displayName == b.displayName)
  {
    TwoTier(a.date, b.date, a.displayName, b.displayName)
  }

  /** The manifest tool's comparator, falling back on the title. */
  function CompareEntries(a: ManifestEntry, b: ManifestEntry): (r: int)
    ensures HasValidDate(a.date) && HasValidDate(b.date) ==> Sign(r) == StrCompare(b.date.value, a.date.value)
    ensures !(Truthy(a.date) && Truthy(b.date)) ==> r == StrCompare(a.title.GetOr(""), b.title.GetOr(""))
    ensures !(Truthy(a.date) && Truthy(b.date)) ==> -1 <= r <= 1 && (r == 0 <==> a.title.GetOr("") == b.title.GetOr(""))
  {
    TwoTier(a.date, b.date, a.title.GetOr(""), b.title.GetOr(""))
  }

  /** Swapping the records negates the comparison. */
  lemma TwoTierAntisymmetric(dateA: Option<string>, dateB: Option<string>, keyA: string, keyB: string)
    ensures TwoTier(dateA, dateB, keyA, keyB) == -TwoTier(dateB, dateA, keyB, keyA)
  {
    StrCompareAntisymmetric(keyA, keyB);
  }

  lemma DescriptorOrderAntisymmetric()
    ensures Antisymmetric(CompareDescriptors)
  {
    forall a: Descriptor, b: Descriptor ensures CompareDescriptors(a, b) == -CompareDescriptors(b, a) {
      TwoTierAntisymmetric(a.date, b.date, a.displayName, b.displayName);
    }
  }

  lemma EntryOrderAntisymmetric()
    ensures Antisymmetric(CompareEntries)
  {
    forall a: ManifestEntry, b: ManifestEntry ensures CompareEntries(a, b) == -CompareEntries(b, a) {
      TwoTierAntisymmetric(a.date, b.date, a.title.GetOr(""), b.title.GetOr(""));
    }
  }

  /** The day count of a record's date, 0 for one without a valid date. */
  function DayRank(date: Option<string>): int {
    if HasValidDate(date) then DayOf(date.value) else 0
  }

  /**
   * Sorting a list whose records all carry a valid date puts it newest first:
   * day counts, and so the date strings, are non-increasing from left to right.
   */
  lemma {:induction false} SortedNewestFirst<T(!new)>(s: seq<T>, cmp: (T, T) -> int, date: T -> Option<string>)
    requires Antisymmetric(cmp)
    requires forall x :: x in s ==> HasValidDate(date(x))
    requires forall a, b :: HasValidDate(date(a)) && HasValidDate(date(b)) ==>
               cmp(a, b) == CompareDates(date(a).value, date(b).value)
    ensures var r := InsertionSort(s, cmp);
            && (forall x :: x in r ==> HasValidDate(date(x)))
            && (forall i, j :: 0 <= i < j < |r| ==> DayRank(date(r[j])) <= DayRank(date(r[i])))
  {
    SortedKeepsValidDates(s, cmp, date);
    SortedRanksDescend(s, cmp, date);
  }

  /** Sorting loses no record, so every record of the result still carries a valid date. */
  lemma SortedKeepsValidDates<T>(s: seq<T>, cmp: (T, T) -> int, date: T -> Option<string>)
    requires forall x :: x in s ==> HasValidDate(date(x))
    ensures forall x :: x in InsertionSort(s, cmp) ==> HasValidDate(date(x))
  {
    var r := InsertionSort(s, cmp);
    SortPermutes(s, cmp);
    forall x | x in r ensures HasValidDate(date(x)) {
      assert x in multiset(r);
    }
  }

  /** With a date comparator on records that all carry valid dates, day counts do not increase. */
  lemma SortedRanksDescend<T(!new)>(s: seq<T>, cmp: (T, T) -> int, date: T -> Option<string>)
    requires Antisymmetric(cmp)
    requires forall x :: x in s ==> HasValidDate(date(x))
    requires forall a, b :: HasValidDate(date(a)) && HasValidDate(date(b)) ==>
               cmp(a, b) == CompareDates(date(a).value, date(b).value)
    ensures var r := InsertionSort(s, cmp);
            forall i, j :: 0 <= i < j < |r| ==> DayRank(date(r[j])) <= DayRank(date(r[i]))
  {
    var r := InsertionSort(s, cmp);
    SortedKeepsValidDates(s, cmp, date);
    InsertionSortLocallySorted(s, cmp);
    var rank := x => DayRank(date(x));
    forall i | 0 < i < |r| && cmp(r[i - 1], r[i]) <= 0 ensures rank(r[i]) <= rank(r[i - 1]) {
      assert r[i - 1] in r && r[i] in r;
    }
    RanksNonIncreasing(r, cmp, rank);
  }

  /** Of two valid dates, the one with the smaller or equal day count is the smaller or equal string. */
  lemma EarlierRankIsEarlierString(d1: Option<string>, d2: Option<string>)
    requires HasValidDate(d1) && HasValidDate(d2)
    requires DayRank(d1) <= DayRank(d2)
    ensures StrCompare(d1.value, d2.value) <= 0
  {
    IsoOrderIsChronological(d1.value, d2.value);
  }

  function DescriptorDate(d: Descriptor): Option<string> {
    d.date
  }

  function EntryDate(e: ManifestEntry): Option<string> {
    e.date
  }

  function DescriptorFile(d: Descriptor): string {
    d.filename
  }

  function EntryFile(e: ManifestEntry): string {
    e.filename
  }

  /** The viewer's sort puts records that all carry valid dates newest first. */
  lemma DescriptorsNewestFirst(s: seq<Descriptor>)
    requires forall x :: x in s ==> HasValidDate(x.date)
    ensures var r := InsertionSort(s, CompareDescriptors);
            && (forall x :: x in r ==> HasValidDate(x.date))
            && (forall i, j :: 0 <= i < j < |r| ==> DayRank(r[j].date) <= DayRank(r[i].date))
            && (forall i, j :: 0 <= i < j < |r| ==> StrCompare(r[j].date.GetOr(""), r[i].date.GetOr("")) <= 0)
  {
    DescriptorOrderAntisymmetric();
    SortedNewestFirst(s, CompareDescriptors, DescriptorDate);
    var r := InsertionSort(s, CompareDescriptors);
    forall i, j | 0 <= i < j < |r| ensures StrCompare(r[j].date.GetOr(""), r[i].date.GetOr("")) <= 0 {
      assert r[i] in r && r[j] in r;
      EarlierRankIsEarlierString(r[j].date, r[i].date);
    }
  }

  /** The manifest tool's sort puts entries that all carry valid dates newest first. */
  lemma EntriesNewestFirst(s: seq<ManifestEntry>)
    requires forall x :: x in s ==> HasValidDate(x.date)
    ensures var r := InsertionSort(s, CompareEntries);
            && (forall x :: x in r ==> HasValidDate(x.date))
            && (forall i, j :: 0 <= i < j < |r| ==> DayRank(r[j].date) <= DayRank(r[i].date))
            && (forall i, j :: 0 <= i < j < |r| ==> StrCompare(r[j].date.GetOr(""), r[i].date.GetOr("")) <= 0)
  {
    EntryOrderAntisymmetric();
    SortedNewestFirst(s, CompareEntries, EntryDate);
    var r := InsertionSort(s, CompareEntries);
    forall i, j | 0 <= i < j < |r| ensures StrCompare(r[j].date.GetOr(""), r[i].date.GetOr("")) <= 0 {
      assert r[i] in r && r[j] in r;
      EarlierRankIsEarlierString(r[j].date, r[i].date);
    }
  }
}

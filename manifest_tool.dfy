/**
 * `add-attendance-file.js`: the command-line tool that adds one record to
 * `attendance-manifest.json`. It checks its five arguments in a fixed order,
 * refuses a file name the manifest already lists, appends the new entry,
 * sorts the list newest first (falling back on the title) and stamps the
 * manifest with the current time. Reading and writing the file, JSON and the
 * clock are outside: the manifest arrives already read (or not), and the time
 * stamp is an input.
 */
module ManifestTool {
  import opened Wrappers
  import opened Text
  import opened Calendar
  import opened FileNames
  import opened Records
  import opened Sorting
  import opened Lists

  /** Why the tool stops, in the order the checks are made. */
  datatype ToolError =
    | Usage               // fewer than five arguments
    | NotHtml             // the file name does not end with `.html`
    | BadPrefix           // the file name does not start with `attendance-`
    | BadDate             // the date is not of the shape `YYYY-MM-DD`
    | BadCategory         // the category is not one of ValidCategories
    | ManifestUnreadable  // the manifest file cannot be read or parsed
    | Duplicate           // the manifest already lists the file name

  const ValidCategories: seq<string> := ["regular", "workshop", "meeting", "training", "orientation"]

  predicate EndsWith(s: string, suffix: string) {
    |suffix| <= |s| && s[|s| - |suffix|..] == suffix
  }

  predicate StartsWith(s: string, prefix: string) {
    |prefix| <= |s| && s[..|prefix|] == prefix
  }

  /**
   * The argument checks, in order, and the entry the arguments describe:
   * `<filename> <title> <date> <description> <category>`; further arguments
   * are ignored.
   */
  function ValidateArguments(args: seq<string>): (r: Result<ManifestEntry, ToolError>)
    ensures r.Success? <==>
              && |args| >= 5
              && EndsWith(args[0], HtmlSuffix) && StartsWith(args[0], RecordPrefix)
              && IsDateShape(args[2]) && args[4] in ValidCategories
    ensures r.Success? ==> r.value == ManifestEntry(args[0], Some(args[1]), Some(args[2]), Some(args[3]), Some(args[4]))
  {
    if |args| < 5 then Failure(Usage)
    else if !EndsWith(args[0], HtmlSuffix) then Failure(NotHtml)
    else if !StartsWith(args[0], RecordPrefix) then Failure(BadPrefix)
    else if !IsDateShape(args[2]) then Failure(BadDate)
    else if args[4] !in ValidCategories then Failure(BadCategory)
    else Success(ManifestEntry(args[0], Some(args[1]), Some(args[2]), Some(args[3]), Some(args[4])))
  }

  /** `files.find(file => file.filename === name)` finds an entry. */
  predicate HasFile(files: seq<ManifestEntry>, name: string) {
    exists i :: 0 <= i < |files| && files[i].filename == name
  }

  /**
   * The new `files` list, or the error the tool stops with. `files` is `None`
   * when the manifest cannot be read.
   */
  function AddFile(args: seq<string>, files: Option<seq<ManifestEntry>>): (r: Result<seq<ManifestEntry>, ToolError>)
    ensures ValidateArguments(args).Failure? ==> r == Failure(ValidateArguments(args).error)
    ensures ValidateArguments(args).Success? && files.None? ==> r == Failure(ManifestUnreadable)
    ensures r.Success? <==> ValidateArguments(args).Success? && files.Some? && !HasFile(files.value, args[0])
    ensures r.Success? ==> multiset(r.value) == multiset(files.value) + multiset{ValidateArguments(args).value}
  {
    match ValidateArguments(args)
    case Failure(e) => Failure(e)
    case Success(entry) =>
      match files
      case None => Failure(ManifestUnreadable)
      case Some(fs) =>
        if HasFile(fs, entry.filename) then Failure(Duplicate)
        else
          SortPermutes(fs + [entry], CompareEntries);
          Success(InsertionSort(fs + [entry], CompareEntries))
  }

  /** Too few arguments is reported before anything else is looked at. */
  lemma TooFewArguments(args: seq<string>, files: Option<seq<ManifestEntry>>)
    requires |args| < 5
    ensures AddFile(args, files) == Failure(Usage)
  {
  }

  /** A file name with neither the suffix nor the prefix is reported for the suffix. */
  lemma SuffixCheckedBeforePrefix(args: seq<string>)
    requires |args| >= 5 && !EndsWith(args[0], HtmlSuffix)
    ensures ValidateArguments(args) == Failure(NotHtml)
  {
  }

  /** With well-formed name arguments, exactly the names lacking `attendance-` are refused for it. */
  lemma PrefixChecked(args: seq<string>)
    requires |args| >= 5 && EndsWith(args[0], HtmlSuffix)
    ensures ValidateArguments(args) == Failure(BadPrefix) <==> !StartsWith(args[0], RecordPrefix)
  {
  }

  /**
   * Past the name checks, the date is refused exactly when it does not have
   * the shape `^\d{4}-\d{2}-\d{2}$`; whether it names a real day plays no part.
   */
  lemma DateShapeOnly(args: seq<string>)
    requires |args| >= 5 && EndsWith(args[0], HtmlSuffix) && StartsWith(args[0], RecordPrefix)
    ensures ValidateArguments(args) == Failure(BadDate) <==> !IsDateShape(args[2])
  {
  }

  /** Past the other checks, the category is refused exactly when it is not one of the five. */
  lemma CategoryChecked(args: seq<string>)
    requires |args| >= 5 && EndsWith(args[0], HtmlSuffix) && StartsWith(args[0], RecordPrefix)
    requires IsDateShape(args[2])
    ensures ValidateArguments(args) == Failure(BadCategory) <==> args[4] !in ValidCategories
  {
  }

  /** `2024-13-45` is accepted, although no month 13 exists. */
  lemma ImpossibleDateAccepted(d: string)
    requires d == "2024-13-45"
    ensures IsDateShape(d) && !IsDated(d)
  {
    ParseIsoDateFields(d);
  }

  /** Arguments that fail a check are reported whatever the manifest holds, so it is never consulted. */
  lemma InvalidArgumentsIgnoreManifest(args: seq<string>, files1: Option<seq<ManifestEntry>>, files2: Option<seq<ManifestEntry>>)
    requires ValidateArguments(args).Failure?
    ensures AddFile(args, files1) == AddFile(args, files2) == Failure(ValidateArguments(args).error)
  {
  }

  /** A file name the manifest already lists is refused. */
  lemma DuplicateRejected(args: seq<string>, files: seq<ManifestEntry>)
    requires ValidateArguments(args).Success? && HasFile(files, args[0])
    ensures AddFile(args, Some(files)) == Failure(Duplicate)
  {
  }

  /**
   * Valid arguments and a new file name are accepted, and the new list holds
   * the old entries and the new one, whose fields are the arguments.
   */
  lemma AddFileSucceeds(args: seq<string>, files: seq<ManifestEntry>)
    ensures AddFile(args, Some(files)).Success? <==> ValidateArguments(args).Success? && !HasFile(files, args[0])
    ensures AddFile(args, Some(files)).Success? ==>
              var r := AddFile(args, Some(files)).value;
              var entry := ManifestEntry(args[0], Some(args[1]), Some(args[2]), Some(args[3]), Some(args[4]));
              && multiset(r) == multiset(files) + multiset{entry}
              && |r| == |files| + 1
              && entry in r
  {
    if AddFile(args, Some(files)).Success? {
      var entry := ValidateArguments(args).value;
      var r := AddFile(args, Some(files)).value;
      SortPermutes(files + [entry], CompareEntries);
      assert entry in multiset(r);
    }
  }

  /** When the old entries and the new one all carry valid dates, the new list is newest first. */
  lemma AddFileNewestFirst(args: seq<string>, files: seq<ManifestEntry>)
    requires AddFile(args, Some(files)).Success?
    requires forall e :: e in files ==> HasValidDate(e.date)
    requires IsDated(args[2])
    ensures var r := AddFile(args, Some(files)).value;
            forall i, j :: 0 <= i < j < |r| ==> DayRank(r[j].date) <= DayRank(r[i].date)
  {
    var entry := ValidateArguments(args).value;
    assert forall e :: e in files + [entry] ==> e in files || e == entry;
    EntriesNewestFirst(files + [entry]);
  }

  /** No two entries of the list name the same file. */
  ghost predicate DistinctFilenames(files: seq<ManifestEntry>) {
    DistinctKeys(files, EntryFile)
  }

  /** The duplicate check keeps the manifest free of repeated file names. */
  lemma AddFileKeepsNamesDistinct(args: seq<string>, files: seq<ManifestEntry>)
    requires DistinctFilenames(files)
    requires AddFile(args, Some(files)).Success?
    ensures DistinctFilenames(AddFile(args, Some(files)).value)
  {
    var entry := ValidateArguments(args).value;
    var t := files + [entry];
    assert DistinctFilenames(t) by {
      forall i, j | 0 <= i < j < |t| ensures EntryFile(t[i]) != EntryFile(t[j]) {
        if j == |files| {
          assert t[i] == files[i];
        } else {
          assert t[i] == files[i] && t[j] == files[j];
        }
      }
    }
    SortPermutes(t, CompareEntries);
    PermutationKeepsDistinct(t, InsertionSort(t, CompareEntries), EntryFile);
  }

  /** The parsed manifest: its `files` array and its `lastUpdated` stamp. */
  class Manifest {
    var files: seq<ManifestEntry>
    var lastUpdated: string

    constructor(files0: seq<ManifestEntry>, lastUpdated0: string)
      ensures files == files0 && lastUpdated == lastUpdated0
    {
      files := files0;
      lastUpdated := lastUpdated0;
    }

    /** `files.push(entry)`, the in-place sort, and the new time stamp. */
    method Append(entry: ManifestEntry, now: string)
      modifies this
      ensures files == InsertionSort(old(files) + [entry], CompareEntries)
      ensures lastUpdated == now
    {
      files := files + [entry];
      files := SortedCopy(files, CompareEntries);
      lastUpdated := now;
    }
  }

  /**
   * One run of the tool. `manifest` is null when the file cannot be read;
   * `now` is `new Date().toISOString()`. The outcome is `None` on success,
   * otherwise the error reported; on an error the manifest is left as it was.
   */
  method AddAttendanceFile(args: seq<string>, manifest: Manifest?, now: string) returns (outcome: Option<ToolError>)
    modifies manifest
    ensures var expected := AddFile(args, if manifest == null then None else Some(old(manifest.files)));
            && (expected.Failure? ==> outcome == Some(expected.error))
            && (expected.Success? ==> outcome.None? && manifest != null &&
                                      manifest.files == expected.value && manifest.lastUpdated == now)
    ensures outcome.Some? && manifest != null ==>
              manifest.files == old(manifest.files) && manifest.lastUpdated == old(manifest.lastUpdated)
  {
    var checked := ValidateArguments(args);
    if checked.Failure? {
      return Some(checked.error);
    }
    if manifest == null {
      return Some(ManifestUnreadable);
    }
    var entry := checked.value;
    if HasFile(manifest.files, entry.filename) {
      return Some(Duplicate);
    }
    manifest.Append(entry, now);
    return None;
  }
}

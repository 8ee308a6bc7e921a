/**
 * Building the record list (script.js): from the manifest when it can be
 * read, otherwise from a fixed list of candidate names. Either way every
 * candidate is probed for existence, and the records found are sorted newest
 * first. The HEAD probe is the oracle `found`: a probe that fails or throws
 * is `false`.
 */
module Discovery {
  import opened Wrappers
  import opened Text
  import opened Calendar
  import opened FileNames
  import opened Records
  import opened Sorting
  import opened Lists

  /** The descriptor `validateAndFormatManifestFiles` pushes for a manifest entry that exists. */
  function FromManifestEntry(e: ManifestEntry): (d: Descriptor)
    ensures d.filename == e.filename && d.date == e.date
    ensures Truthy(e.title) ==> d.displayName == e.title.value
    ensures !Truthy(e.title) ==> d.displayName == FormatDisplayName(e.filename)
    ensures d.description == (if Truthy(e.description) then e.description.value else "")
    ensures d.category == (if Truthy(e.category) then e.category.value else "regular")
    ensures d.category != ""
  {
    Descriptor(
      e.filename,
      OrElse(e.title, FormatDisplayName(e.filename)),
      e.date,
      OrElse(e.description, ""),
      OrElse(e.category, "regular"))
  }

  /** The probe as a test on manifest entries. */
  function EntryFound(found: string -> bool): ManifestEntry -> bool {
    (e: ManifestEntry) => found(e.filename)
  }

  /** The records of a manifest: the entries whose file is found, in manifest order, as descriptors. */
  function ManifestDescriptors(entries: seq<ManifestEntry>, found: string -> bool): seq<Descriptor> {
    Map(Filter(entries, EntryFound(found)), FromManifestEntry)
  }

  lemma ManifestDescriptorsSnoc(entries: seq<ManifestEntry>, e: ManifestEntry, found: string -> bool)
    ensures ManifestDescriptors(entries + [e], found) ==
            ManifestDescriptors(entries, found) + (if found(e.filename) then [FromManifestEntry(e)] else [])
  {
    var p := EntryFound(found);
    FilterSnoc(entries, e, p);
    MapAppend(Filter(entries, p), if p(e) then [e] else [], FromManifestEntry);
  }

  /**
   * `validateAndFormatManifestFiles`: probe the entries in order, push a
   * descriptor for each one found, then sort.
   */
  method ValidateAndFormatManifestFiles(manifestFiles: seq<ManifestEntry>, found: string -> bool)
    returns (validFiles: seq<Descriptor>)
    ensures validFiles == InsertionSort(ManifestDescriptors(manifestFiles, found), CompareDescriptors)
  {
    var pushed: seq<Descriptor> := [];
    for i := 0 to |manifestFiles|
      invariant pushed == ManifestDescriptors(manifestFiles[..i], found)
    {
      var fileInfo := manifestFiles[i];
      ManifestDescriptorsSnoc(manifestFiles[..i], fileInfo, found);
      assert manifestFiles[..i + 1] == manifestFiles[..i] + [fileInfo];
      if found(fileInfo.filename) {
        pushed := pushed + [FromManifestEntry(fileInfo)];
      }
    }
    assert manifestFiles[..|manifestFiles|] == manifestFiles;
    validFiles := SortedCopy(pushed, CompareDescriptors);
  }

  /** The names `discoverFiles` probes when there is no manifest, newest first. */
  const PotentialFiles: seq<string> :=
    [RecordName("2025-07-13"), RecordName("2025-07-12"), RecordName("2025-06-29"), RecordName("2025-06-15")]

  /** The descriptor `discoverFiles` pushes for a candidate name that exists. */
  function FromPotentialFile(file: string): Descriptor {
    Descriptor(file, FormatDisplayName(file), ExtractDateFromFilename(file), "", "regular")
  }

  /** The records discovery finds among `files`, in the order of `files`. */
  function FoundFiles(files: seq<string>, found: string -> bool): seq<Descriptor> {
    Map(Filter(files, found), FromPotentialFile)
  }

  /** The records found by discovery, in the order of the candidate list. */
  function DiscoveredDescriptors(found: string -> bool): seq<Descriptor> {
    FoundFiles(PotentialFiles, found)
  }

  lemma FoundFilesSnoc(files: seq<string>, f: string, found: string -> bool)
    ensures FoundFiles(files + [f], found) ==
            FoundFiles(files, found) + (if found(f) then [FromPotentialFile(f)] else [])
  {
    FilterSnoc(files, f, found);
    MapAppend(Filter(files, found), if found(f) then [f] else [], FromPotentialFile);
  }

  /** `discoverFiles`: probe the candidate names in order, push a descriptor for each one found, then sort. */
  method DiscoverFiles(found: string -> bool) returns (existingFiles: seq<Descriptor>)
    ensures existingFiles == InsertionSort(DiscoveredDescriptors(found), CompareDescriptors)
  {
    var pushed := ProbeCandidates(PotentialFiles, found);
    existingFiles := SortedCopy(pushed, CompareDescriptors);
  }

  /** The probing loop of `discoverFiles`: a descriptor for each name found, in order. */
  method ProbeCandidates(potentialFiles: seq<string>, found: string -> bool) returns (pushed: seq<Descriptor>)
    ensures pushed == FoundFiles(potentialFiles, found)
  {
    pushed := [];
    for i := 0 to |potentialFiles|
      invariant pushed == FoundFiles(potentialFiles[..i], found)
    {
      var file := potentialFiles[i];
      FoundFilesSnoc(potentialFiles[..i], file, found);
      assert potentialFiles[..i + 1] == potentialFiles[..i] + [file];
      if found(file) {
        pushed := pushed + [FromPotentialFile(file)];
      }
    }
    assert potentialFiles[..|potentialFiles|] == potentialFiles;
  }

  /**
   * `getAttendanceFilesList`: the manifest's `files` when the manifest can be
   * fetched and read (`None` stands for a response that is not ok, a fetch or
   * parse that throws, or a `files` that cannot be iterated), otherwise discovery.
   */
  method GetAttendanceFilesList(manifest: Option<seq<ManifestEntry>>, found: string -> bool)
    returns (files: seq<Descriptor>)
    ensures manifest.Some? ==> files == InsertionSort(ManifestDescriptors(manifest.value, found), CompareDescriptors)
    ensures manifest.None? ==> files == InsertionSort(DiscoveredDescriptors(found), CompareDescriptors)
  {
    match manifest
    case Some(entries) =>
      files := ValidateAndFormatManifestFiles(entries, found);
    case None =>
      files := DiscoverFiles(found);
  }

  /**
   * The manifest pipeline keeps exactly the entries whose file is found: each
   * record it returns comes from such an entry, with its defaults filled in,
   * and each such entry yields a record. Sorting only reorders them.
   */
  lemma ManifestRecordsFound(entries: seq<ManifestEntry>, found: string -> bool)
    ensures var r := InsertionSort(ManifestDescriptors(entries, found), CompareDescriptors);
            && multiset(r) == multiset(ManifestDescriptors(entries, found))
            && |r| <= |entries|
            && (forall d :: d in r ==> found(d.filename) && d.category != "" &&
                                       exists e :: e in entries && d == FromManifestEntry(e))
            && (forall e :: e in entries && found(e.filename) ==> FromManifestEntry(e) in r)
            && |r| == Count(entries, EntryFound(found))
  {
    var md := ManifestDescriptors(entries, found);
    var r := InsertionSort(md, CompareDescriptors);
    SortPermutes(md, CompareDescriptors);
    ManifestCount(entries, found);
    forall d | d in r ensures found(d.filename) && d.category != "" && exists e :: e in entries && d == FromManifestEntry(e) {
      assert d in multiset(md);
      var k :| 0 <= k < |md| && md[k] == d;
      DescriptorFromEntry(entries, found, k);
    }
    forall e | e in entries && found(e.filename) ensures FromManifestEntry(e) in r {
      EntryYieldsDescriptor(entries, found, e);
      assert FromManifestEntry(e) in multiset(md);
    }
  }

  /** One record for each entry whose file is found. */
  lemma ManifestCount(entries: seq<ManifestEntry>, found: string -> bool)
    ensures |ManifestDescriptors(entries, found)| == Count(entries, EntryFound(found))
  {
    FilterCounts(entries, EntryFound(found));
  }

  /** The record at position `k` comes from an entry whose file is found. */
  lemma DescriptorFromEntry(entries: seq<ManifestEntry>, found: string -> bool, k: nat)
    requires k < |ManifestDescriptors(entries, found)|
    ensures var d := ManifestDescriptors(entries, found)[k];
            found(d.filename) && d.category != "" && exists e :: e in entries && d == FromManifestEntry(e)
  {
    var kept := Filter(entries, EntryFound(found));
    assert kept[k] in entries && EntryFound(found)(kept[k]);
  }

  /** An entry whose file is found yields a record. */
  lemma EntryYieldsDescriptor(entries: seq<ManifestEntry>, found: string -> bool, e: ManifestEntry)
    requires e in entries && found(e.filename)
    ensures FromManifestEntry(e) in ManifestDescriptors(entries, found)
  {
    var kept := Filter(entries, EntryFound(found));
    var i :| 0 <= i < |entries| && entries[i] == e;
    assert EntryFound(found)(entries[i]);
    var k :| 0 <= k < |kept| && kept[k] == e;
    assert ManifestDescriptors(entries, found)[k] == FromManifestEntry(e);
  }

  /** When every entry's file is found, every entry yields a record. */
  lemma AllFoundKeepsAll(entries: seq<ManifestEntry>, found: string -> bool)
    requires forall i :: 0 <= i < |entries| ==> found(entries[i].filename)
    ensures |InsertionSort(ManifestDescriptors(entries, found), CompareDescriptors)| == |entries|
  {
    FilterAll(entries, EntryFound(found));
  }

  /**
   * Before the sort, the records follow the order of their entries in the
   * manifest, one record for each position whose file is found.
   */
  lemma ManifestOrderKept(entries: seq<ManifestEntry>, found: string -> bool) returns (idx: seq<nat>)
    ensures |idx| == |ManifestDescriptors(entries, found)| && IsIndexChain(idx, |entries|)
    ensures forall k :: 0 <= k < |idx| ==>
              idx[k] < |entries| && ManifestDescriptors(entries, found)[k] == FromManifestEntry(entries[idx[k]])
    ensures forall i :: 0 <= i < |entries| ==> (found(entries[i].filename) <==> i in idx)
  {
    idx := FilterKeepsOrder(entries, EntryFound(found));
  }

  /**
   * A manifest without repeated file names gives a list without repeated
   * file names. The pipeline itself does not remove duplicates.
   */
  lemma ManifestNamesDistinct(entries: seq<ManifestEntry>, found: string -> bool)
    requires DistinctKeys(entries, EntryFile)
    ensures DistinctKeys(InsertionSort(ManifestDescriptors(entries, found), CompareDescriptors), DescriptorFile)
  {
    var md := ManifestDescriptors(entries, found);
    FilterMapKeepsDistinct(entries, EntryFound(found), FromManifestEntry, EntryFile, DescriptorFile);
    SortPermutes(md, CompareDescriptors);
    PermutationKeepsDistinct(md, InsertionSort(md, CompareDescriptors), DescriptorFile);
  }

  /** An entry listed twice whose file is found is shown twice. */
  lemma RepeatedEntryShownTwice(e: ManifestEntry, found: string -> bool)
    requires found(e.filename)
    ensures var r := InsertionSort(ManifestDescriptors([e, e], found), CompareDescriptors);
            |r| == 2 && r[0] == r[1] == FromManifestEntry(e)
  {
    ManifestTwice(e, found);
    SortTwoEqual(FromManifestEntry(e));
  }

  /** A found entry listed twice yields its record twice. */
  lemma ManifestTwice(e: ManifestEntry, found: string -> bool)
    requires found(e.filename)
    ensures ManifestDescriptors([e, e], found) == [FromManifestEntry(e), FromManifestEntry(e)]
  {
    assert [e] == [] + [e] && [e, e] == [e] + [e];
    ManifestDescriptorsSnoc([], e, found);
    ManifestDescriptorsSnoc([e], e, found);
  }

  /** Two equal records sort to themselves. */
  lemma SortTwoEqual(d: Descriptor)
    ensures InsertionSort([d, d], CompareDescriptors) == [d, d]
  {
    assert CompareDescriptors(d, d) == 0;
    assert [d][..0] == [] && [d, d][..1] == [d];
    assert InsertionSort([d], CompareDescriptors) == [d];
  }

  /** A manifest whose entries all carry valid dates is listed newest first. */
  lemma ManifestNewestFirst(entries: seq<ManifestEntry>, found: string -> bool)
    requires forall e :: e in entries ==> HasValidDate(e.date)
    ensures var r := InsertionSort(ManifestDescriptors(entries, found), CompareDescriptors);
            forall i, j :: 0 <= i < j < |r| ==> DayRank(r[j].date) <= DayRank(r[i].date)
  {
    var md := ManifestDescriptors(entries, found);
    forall d | d in md ensures HasValidDate(d.date) {
      var kept := Filter(entries, EntryFound(found));
      var k :| 0 <= k < |md| && md[k] == d;
      assert kept[k] in entries;
    }
    DescriptorsNewestFirst(md);
  }

  /** The dates of the candidate names, in the order they are probed. */
  const FallbackDates: seq<string> := ["2025-07-13", "2025-07-12", "2025-06-29", "2025-06-15"]

  lemma FallbackDateParses(i: nat)
    requires i < |FallbackDates|
    ensures IsDated(FallbackDates[i])
  {
    ParseIsoDateFields(FallbackDates[i]);
  }

  /** The candidate names are `attendance-<date>.html`, one per fallback date. */
  lemma FallbackNames()
    ensures |FallbackDates| == |PotentialFiles|
    ensures forall i :: 0 <= i < |FallbackDates| ==> PotentialFiles[i] == RecordName(FallbackDates[i])
  {
  }

  /** Every fallback date parses. */
  lemma FallbackDatesParse()
    ensures forall i :: 0 <= i < |FallbackDates| ==> IsDated(FallbackDates[i])
  {
    forall i | 0 <= i < |FallbackDates| ensures IsDated(FallbackDates[i]) {
      FallbackDateParses(i);
    }
  }

  /** The fallback dates are listed in strictly decreasing lexicographic order. */
  lemma FallbackDatesDescend()
    ensures forall i, j :: 0 <= i < j < |FallbackDates| ==> StrCompare(FallbackDates[i], FallbackDates[j]) == 1
  {
  }

  /** What discovery records for the candidate at position `i`. */
  lemma CandidateRecord(i: nat)
    requires i < |PotentialFiles|
    ensures var d := FromPotentialFile(PotentialFiles[i]);
            && |d.filename| == 26 && d.date == Some(d.filename[11..21]) && HasValidDate(d.date)
            && d.displayName == "Attendance - " + DateLabel(d.filename[11..21])
            && d.description == "" && d.category == "regular"
  {
    FallbackNames();
    FallbackDatesParse();
    var date := FallbackDates[i];
    ExtractDateOfRecordName(date);
    DatedRecordLabel(date);
    assert RecordName(date)[11..21] == date;
  }

  /**
   * Discovery yields, for each candidate found, a `regular` record without
   * description, dated by its name and labelled with that date, and no other
   * record: one per candidate found.
   */
  lemma DiscoveredRecords(found: string -> bool)
    ensures var r := InsertionSort(DiscoveredDescriptors(found), CompareDescriptors);
            forall d :: d in r ==>
              && d.filename in PotentialFiles && found(d.filename)
              && |d.filename| == 26 && d.date == Some(d.filename[11..21]) && HasValidDate(d.date)
              && d.displayName == "Attendance - " + DateLabel(d.filename[11..21])
              && d.description == "" && d.category == "regular"
    ensures var r := InsertionSort(DiscoveredDescriptors(found), CompareDescriptors);
            && (forall i :: 0 <= i < |PotentialFiles| && found(PotentialFiles[i]) ==> FromPotentialFile(PotentialFiles[i]) in r)
            && |r| == Count(PotentialFiles, found)
  {
    EveryFoundCandidateListed(found);
    var ds := DiscoveredDescriptors(found);
    var kept := Filter(PotentialFiles, found);
    SortPermutes(ds, CompareDescriptors);
    forall d | d in InsertionSort(ds, CompareDescriptors)
      ensures && d.filename in PotentialFiles && found(d.filename)
              && |d.filename| == 26 && d.date == Some(d.filename[11..21]) && HasValidDate(d.date)
              && d.displayName == "Attendance - " + DateLabel(d.filename[11..21])
              && d.description == "" && d.category == "regular"
    {
      assert d in multiset(ds);
      var k :| 0 <= k < |ds| && ds[k] == d;
      var i :| 0 <= i < |PotentialFiles| && PotentialFiles[i] == kept[k];
      CandidateRecord(i);
    }
  }

  /** Each candidate found gives a record, and there are as many records as candidates found. */
  lemma EveryFoundCandidateListed(found: string -> bool)
    ensures var r := InsertionSort(DiscoveredDescriptors(found), CompareDescriptors);
            && (forall i :: 0 <= i < |PotentialFiles| && found(PotentialFiles[i]) ==> FromPotentialFile(PotentialFiles[i]) in r)
            && |r| == Count(PotentialFiles, found)
  {
    DiscoveredInProbeOrder(found);
    FoundFilesComplete(PotentialFiles, found);
  }

  /** Among any candidate names, each one found gives a record, one per name found. */
  lemma FoundFilesComplete(files: seq<string>, found: string -> bool)
    ensures forall i :: 0 <= i < |files| && found(files[i]) ==> FromPotentialFile(files[i]) in FoundFiles(files, found)
    ensures |FoundFiles(files, found)| == Count(files, found)
  {
    FilterCounts(files, found);
    var kept := Filter(files, found);
    forall i | 0 <= i < |files| && found(files[i])
      ensures FromPotentialFile(files[i]) in FoundFiles(files, found)
    {
      var k :| 0 <= k < |kept| && kept[k] == files[i];
      assert FoundFiles(files, found)[k] == FromPotentialFile(files[i]);
    }
  }

  /** The four candidate names are different. */
  lemma PotentialFilesDistinct()
    ensures DistinctKeys(PotentialFiles, (f: string) => f)
  {
    FallbackNames();
    FallbackDatesDescend();
    forall i, j | 0 <= i < j < |PotentialFiles| ensures PotentialFiles[i] != PotentialFiles[j] {
      assert RecordName(FallbackDates[i])[11..21] == FallbackDates[i];
      assert RecordName(FallbackDates[j])[11..21] == FallbackDates[j];
      StrCompareAntisymmetric(FallbackDates[i], FallbackDates[j]);
    }
  }

  /** Discovery never lists a file twice. */
  lemma DiscoveredNamesDistinct(found: string -> bool)
    ensures DistinctKeys(InsertionSort(DiscoveredDescriptors(found), CompareDescriptors), DescriptorFile)
  {
    PotentialFilesDistinct();
    FilterMapKeepsDistinct(PotentialFiles, found, FromPotentialFile, (f: string) => f, DescriptorFile);
    DiscoveredInProbeOrder(found);
  }

  /** An earlier candidate is newer than a later one, so the comparator keeps them in that order. */
  lemma CandidatesOrdered(i: nat, j: nat)
    requires i < j < |PotentialFiles|
    ensures CompareDescriptors(FromPotentialFile(PotentialFiles[i]), FromPotentialFile(PotentialFiles[j])) < 0
  {
    FallbackNames();
    FallbackDatesParse();
    FallbackDatesDescend();
    ExtractDateOfRecordName(FallbackDates[i]);
    ExtractDateOfRecordName(FallbackDates[j]);
    IsoOrderIsChronological(FallbackDates[i], FallbackDates[j]);
  }

  /**
   * The candidates are listed newest first, so sorting the records discovery
   * finds leaves them in the order they were probed.
   */
  lemma DiscoveredInProbeOrder(found: string -> bool)
    ensures InsertionSort(DiscoveredDescriptors(found), CompareDescriptors) == DiscoveredDescriptors(found)
  {
    forall i, j | 0 <= i < j < |PotentialFiles|
      ensures CompareDescriptors(FromPotentialFile(PotentialFiles[i]), FromPotentialFile(PotentialFiles[j])) < 0
    {
      CandidatesOrdered(i, j);
    }
    OrderedCandidatesStay(PotentialFiles, found);
  }

  /** When the candidates' records are already in comparator order, sorting the found ones changes nothing. */
  lemma OrderedCandidatesStay(files: seq<string>, found: string -> bool)
    requires forall i, j :: 0 <= i < j < |files| ==>
               CompareDescriptors(FromPotentialFile(files[i]), FromPotentialFile(files[j])) < 0
    ensures InsertionSort(FoundFiles(files, found), CompareDescriptors) == FoundFiles(files, found)
  {
    var ds := FoundFiles(files, found);
    var idx := FilterKeepsOrder(files, found);
    forall k | 0 < k < |ds| ensures CompareDescriptors(ds[k - 1], ds[k]) <= 0 {
      assert ds[k - 1] == FromPotentialFile(files[idx[k - 1]]) && ds[k] == FromPotentialFile(files[idx[k]]);
    }
    SortedIsFixed(ds, CompareDescriptors);
  }
}

# Attendance records viewer — a verified Dafny model

The viewer is a static web page. It lists attendance records, which are HTML
files named like `attendance-2025-07-13.html` or `attendance-session-07.html`,
and shows the chosen one in a frame. This project models the page's logic and
the command-line tool that maintains its manifest, and proves properties of
that logic:

- **File-name metadata** (`script.js`). `extractDateFromFilename` finds the
  leftmost `NNNN-NN-NN` in a name. `formatDisplayName` builds a label in
  three branches: the dated pattern, the session pattern, or generic
  hyphen-to-space and word-capitalising rewriting.
- **Record list** (`script.js`). Its source is the manifest
  `attendance-manifest.json` when that can be read, and otherwise a fixed list
  of four candidate names. Every candidate is probed for existence, defaults
  are filled in, and the result is sorted: newest date first when both
  records carry a date, otherwise by name.
- **Search box** (`script.js`, `filterFiles`). It filters the records
  case-insensitively and clears a selection that the filter hides.
- **Theme** (`script.js`). The light/dark mode and the preference saved in
  `localStorage`.
- **Manifest tool** (`add-attendance-file.js`). It checks its arguments in a
  fixed order, rejects duplicates, appends the entry, sorts newest first
  falling back on the title, and stamps the time.

The modules follow the program's structure:

- `Text`: string primitives, regular-expression search, case mapping,
  decimal rendering and comparison.
- `Calendar`: parsing `YYYY-MM-DD`, day counts, the next day and the long
  date format.
- `FileNames`: the two file-name functions.
- `Lists`: `Array.prototype.filter`.
- `Sorting`: `Array.prototype.sort`, as a stable insertion sort on an array.
- `Records`: the record and manifest-entry types and the two-tier comparator.
- `Discovery`: the two list-building pipelines and the choice between them.
- `Search`: the search filter and the `RecordList` class.
- `Theme`: the `ThemeState` class.
- `ManifestTool`: the tool's checks, the `Manifest` class and one run of the
  tool.

Inputs stand in for what the code gets from outside:

- **The HEAD probe `fetch(file, {method: 'HEAD'})`** becomes an oracle
  `found: string -> bool`. A probe that fails and one that throws are both
  `false`.
- **The fetched manifest** becomes `Option<seq<ManifestEntry>>`. `None`
  stands for a response that is not ok, or for a fetch or JSON parse that
  throws.
- **`localStorage`** becomes a `map<string, string>`.
- **`prefers-color-scheme: dark`** is a boolean.
- **The clock (`new Date().toISOString()`)** is a string argument.
- **The manifest file the tool reads** is a `Manifest` object, or null when it
  cannot be read.

Modelling choices:

- **Session digits.** A session label keeps the digits exactly as written, so
  `attendance-session-07.html` gives `Attendance Session 07`, not
  `Attendance Session 7`.
- **Manifest dates.** The manifest pipeline passes the entry's `date` through
  unchanged. It does not fall back on the date in the file name.
- **Repeated manifest names.** The viewer does not remove duplicates: an entry
  listed twice is shown twice. A list without repeated file names stays that
  way, and the tool never adds a name the manifest already lists.

- **Comparator.** For two dates that parse, the date tier returns the
  difference of their day counts. That difference has the sign of the
  difference of the JavaScript time values. When either date does not parse,
  the difference is NaN, which `sort` reads as 0.
- **Sorting.** The sort is modelled as a stable insertion sort. For a
  comparator that is a total preorder, as on records whose dates all parse,
  every stable sort gives this result.
- **Display date.** The date branch of `formatDisplayName` shows the calendar
  day after the file's date, because the code adds one day before printing the
  date in UTC. A date that does not parse shows `Invalid Date`.
- **Year of the era.** The long date prints the year of the era, as
  `toLocaleDateString` does. For the proleptic year 0 (1 BC) that is 1, so
  `0000-03-15` is labelled `March 16, 1`.

## Model

| member | source | states |
|---|---|---|
| FileNames.ExtractDateFromFilename | script.js:245-248 | The result is the leftmost 10-character window of the form `\d{4}-\d{2}-\d{2}`, anywhere in the name, or None exactly when no such window exists. |
| FileNames.ExtractDateOfRecordName | script.js:245-248 | The date of `attendance-<d>.html` is `d`. |
| Text.ReplaceFirst | script.js:216 | `replace` with a string pattern changes only the leftmost occurrence, wherever it is. Without an occurrence the string is unchanged. |
| FileNames.StripHtmlOfRecordName | script.js:216 | Removing `.html` from `attendance-<d>.html` leaves `attendance-<d>`. |
| FileNames.DatedRecordLabel | script.js:219-229 | A dated record name takes the date branch: `Attendance - ` followed by the label of its date. |
| FileNames.DateWindowAtStart | script.js:219 | In `attendance-<d>` the date pattern matches first at position 0. |
| FileNames.DateLabel | script.js:221-229 | The date label of a matched date. `FileNames.DateLabelIsNextDay` states its properties: a parsed date gives the en-US long form of the next valid day, and an unparsed one gives `Invalid Date`. |
| FileNames.DateLabelIsNextDay | script.js:221-229 | For a date that parses, the label is the long form of the following calendar day, which is a valid day exactly one day later. The label reads back as that day, with the year of the era. A date that does not parse gives `Invalid Date`. |
| Calendar.NextDay | script.js:223 | `setDate(getDate() + 1)` gives a valid date whose day count is one more, rolling over month and year. |
| Calendar.LongDate | script.js:224-229 | The en-US long form `<Month> <day>, <year>` in UTC. `Calendar.LongDateRoundTrip` states its properties: it reads back as the month, the day and the year of the era. |
| Calendar.LongDateRoundTrip | script.js:224-229 | The `<Month> <day>, <year>` form reads back as the same month and day and the year of the era, so printing loses nothing else. |
| Calendar.MarchSixteenthLong | script.js:224-229 | `2024-03-16` prints as `March 16, 2024`. |
| Calendar.YearZeroLong | script.js:224-229 | The proleptic year 0 prints as year 1 of the era. |
| FileNames.MarchFifteenthLabel | script.js:221-229 | `2024-03-15` is labelled `March 16, 2024`. |
| FileNames.YearZeroLabel | script.js:221-229 | `0000-03-15` is labelled `March 16, 1`. |
| FileNames.DatedLabelExample | script.js:214-229 | `attendance-2024-03-15.html` is shown as `Attendance - March 16, 2024`. |
| FileNames.SessionLabel | script.js:233-236 | The label is `Attendance Session ` followed by the whole digit run after `attendance-session-`: at least one digit, and the next character, if any, is not a digit. It contains no `-`. |
| FileNames.NoDateInSessionName | script.js:219-220 | A session name never matches the date pattern, so the date branch cannot take it. |
| FileNames.SessionRecordLabel | script.js:219-236 | `attendance-session-<n>.html` gives `Attendance Session <n>`, with the digits copied verbatim. |
| FileNames.SessionWindowAtStart | script.js:233 | In `attendance-session-<n>` the session pattern matches first at position 0. |
| FileNames.SessionDigitsCopied | script.js:233-236 | The session label of `attendance-session-<n>` is `Attendance Session <n>`. |
| FileNames.SessionLabelExample | script.js:233-236 | `attendance-session-07.html` gives `Attendance Session 07`. The leading zero is kept. |
| FileNames.DigitRunLength | script.js:233 | The greedy `\d+` takes a run of digits that the next character does not extend. |
| FileNames.ReplaceRecordPrefix | script.js:239 | Without a case-insensitive `attendance-`, the name is unchanged. Otherwise the leftmost one becomes `Attendance - ` and the rest of the name is kept. |
| FileNames.DashesToSpaces | script.js:240 | Every `-` becomes a space and every other character stays. |
| FileNames.CapitalizeWords | script.js:241 | The first character of each word is upper-cased and every other character is kept. |
| FileNames.DefaultLabel | script.js:239-241 | The default label contains no `-`, including the one that `Attendance - ` brings in. |
| FileNames.StripHtml | script.js:216 | Without `.html` the name is unchanged. Otherwise the leftmost `.html` is removed and the rest of the name is kept. |
| FileNames.FormatDisplayName | script.js:214-242 | The label contains a `-` exactly when the name without `.html` contains the date pattern. |
| FileNames.FormatDisplayNameBranches | script.js:214-242 | The leftmost date match gives `Attendance - ` and that date's label. Failing that, the leftmost session match gives the session label. Failing both, the default rewriting applies. |
| FileNames.DefaultLabelWordsCapitalized | script.js:239-241 | In the default branch no word of the label starts with a lower-case letter. |
| Calendar.ParseIsoDate | script.js:221 | A string parses only if it has the date shape and names a real calendar day. |
| Calendar.ParseIsoDateFields | script.js:221 | A string of the date shape parses exactly when its digit fields form a valid date. |
| Calendar.DayNumberOrder | script.js:169 | On valid dates, day counts order as the calendar does, and equal counts mean equal dates. |
| Calendar.DateCompare | script.js:169 | Day counts of valid dates compare by year, then month, then day. |
| Calendar.CompareByFields | script.js:169 | Strings of the date shape compare by their year field, then month field, then day field. |
| Calendar.FieldCompare | script.js:169 | A digit field compares as its number does. |
| Calendar.FieldsCompare | script.js:169 | Strings of the date shape compare as their year, month and day numbers do, in that order. |
| Calendar.IsoOrderIsChronological | script.js:169 | For dates that parse, comparing the strings character by character agrees in sign with comparing their days. |
| Records.CompareDates | script.js:169 | When both dates parse, `new Date(b) - new Date(a)` has the sign of comparing `b` with `a` as strings, so the later date sorts first, and it is 0 only for equal dates. Otherwise it is 0 (NaN). |
| Records.TwoTier | script.js:167-172 | Two valid dates compare in reverse string order. Two truthy dates of which one does not parse compare as 0. Otherwise the result is `keyA.localeCompare(keyB)`, ascending by key: -1, 0 or 1, and 0 only for equal keys. |
| Records.CompareDescriptors | script.js:203-208 | The viewer's comparator orders valid dates newest first. Otherwise it is `a.displayName.localeCompare(b.displayName)`, ascending by display name, which tie only when equal. |
| Records.CompareEntries | add-attendance-file.js:85-90 | The tool's comparator orders valid dates newest first. Otherwise it is `a.title.localeCompare(b.title)`, ascending by title, which tie only when equal. |
| Text.StrCompare | script.js:171 | `localeCompare` returns -1, 0 or 1. |
| Text.StrCompareAntisymmetric | script.js:171 | Swapping the operands negates the comparison, and 0 means equal strings. |
| Text.DigitsCompare | script.js:169 | On digit strings of equal length, lexicographic order is numeric order. |
| Records.TwoTierAntisymmetric | script.js:167-172 | Swapping the two records negates the comparator. |
| Records.DescriptorOrderAntisymmetric | script.js:203-208 | The viewer's comparator is antisymmetric. |
| Records.EntryOrderAntisymmetric | add-attendance-file.js:85-90 | The tool's comparator is antisymmetric. |
| Records.SortedNewestFirst | script.js:203-208 | Any list whose records all carry valid dates comes out of the sort with all dates still valid and non-increasing day counts. |
| Records.SortedKeepsValidDates | script.js:203-208 | Sorting loses no record, so all records of the result still carry valid dates. |
| Records.SortedRanksDescend | script.js:203-208 | With the date comparator, day counts do not increase along the sorted list. |
| Records.EarlierRankIsEarlierString | script.js:168-170 | Of two valid dates, the earlier or equal day is also the smaller or equal string. |
| Records.DescriptorsNewestFirst | script.js:203-208 | The viewer's sort puts records that all carry valid dates newest first, by day count and by date string. |
| Records.EntriesNewestFirst | add-attendance-file.js:85-90 | The tool's sort puts entries that all carry valid dates newest first, by day count and by date string. |
| Records.OrElse | script.js:189-192 | `v \|\| fallback` is `v` when it is a non-empty string and the fallback otherwise. |
| Sorting.InsertionSort | script.js:167-172 | Sorting keeps the length. |
| Sorting.SortPermutes | script.js:203-208 | The sorted list is a permutation of the list before the sort. |
| Sorting.InsertPermutes | script.js:203-208 | One insertion adds the element and loses nothing. |
| Sorting.InsertionSortLocallySorted | script.js:203-208 | With an antisymmetric comparator, no element of the result compares greater than the one after it. |
| Sorting.SortedIsFixed | script.js:203-208 | A list already in order is left as it is. |
| Sorting.SortIdempotent | add-attendance-file.js:85-90 | Sorting twice gives what sorting once gives, so re-sorting a sorted manifest changes nothing. |
| Sorting.RanksNonIncreasing | script.js:203-208 | Local order gives global order for any ranking the comparator respects. |
| Sorting.InsertPosition | script.js:203-208 | The shifting loop puts the element right after the last element that does not compare greater. |
| Sorting.InsertInPlace | script.js:203-208 | Inserting `a[i]` in place makes `a[..i+1]` the insertion of `a[i]` into `a[..i]` and leaves the rest of the array alone. |
| Sorting.SortInPlace | script.js:203-208 | `array.sort(cmp)` leaves the array holding the insertion sort of its old contents. |
| Sorting.SortedCopy | script.js:167-172 | Sorting a list through an array gives its insertion sort. |
| Lists.Filter | script.js:274-277 | `filter` keeps only elements that pass the test, keeps every element that passes, and never lengthens the list. |
| Lists.FilterSnoc | script.js:182-200 | Filtering one more element at the end appends it exactly when it passes. |
| Lists.FilterAll | script.js:274-277 | When every element passes, the list is unchanged. |
| Lists.FilterKeepsOrder | script.js:274-277 | The kept elements sit at strictly increasing positions of the input, and those positions are exactly the ones whose element passes. |
| Lists.FilterCounts | script.js:274-277 | The result has one element per passing position, and each passing value occurs in it exactly as often as in the input. Failing values do not occur. |
| Lists.FilterMapKeepsDistinct | script.js:182-200 | Filtering, then mapping in a way that keeps keys, repeats no key of an input without repeated keys. |
| Lists.PermutationKeepsDistinct | add-attendance-file.js:85-90 | Reordering a list without repeated keys creates none. |
| Discovery.FromManifestEntry | script.js:187-193 | The filename and date are copied. The display name is the title if truthy, else the formatted file name. The description defaults to `''` and the category to `regular`, so the category is never empty. |
| Discovery.ManifestDescriptorsSnoc | script.js:182-200 | Probing one more entry pushes its descriptor exactly when its file is found. |
| Discovery.ValidateAndFormatManifestFiles | script.js:179-211 | The loop and sort return the insertion sort of the found entries' descriptors, in manifest order. |
| Discovery.ManifestRecordsFound | script.js:182-208 | Each returned record comes from an entry whose file is found. Every such entry yields its record. The sort only reorders. There is exactly one record per entry whose file is found, so a repeated entry is listed as often as it is repeated. |
| Discovery.ManifestCount | script.js:182-200 | The loop pushes one record per entry whose file is found. |
| Discovery.DescriptorFromEntry | script.js:182-193 | Each record before the sort comes from an entry whose file is found, and has a category. |
| Discovery.EntryYieldsDescriptor | script.js:182-193 | An entry whose file is found yields its record before the sort. |
| Discovery.AllFoundKeepsAll | script.js:182-200 | When every file is found, every entry yields a record. |
| Discovery.ManifestOrderKept | script.js:182-200 | Before the sort, the records follow their entries' order in the manifest, one for each position whose file is found and none for any other. |
| Discovery.ManifestNamesDistinct | script.js:182-208 | A manifest without repeated file names gives a list without repeated file names. |
| Discovery.RepeatedEntryShownTwice | script.js:182-208 | An entry listed twice whose file is found is shown twice. |
| Discovery.ManifestNewestFirst | script.js:203-208 | A manifest whose entries all carry valid dates is listed newest first. |
| Discovery.FoundFilesSnoc | script.js:148-164 | Probing one more candidate pushes its descriptor exactly when it is found. |
| Discovery.DiscoverFiles | script.js:137-175 | The loop and sort return the insertion sort of the found candidates' descriptors. |
| Discovery.ProbeCandidates | script.js:148-165 | The probing loop pushes one descriptor per name that is found, in the order of the candidate list. |
| Discovery.FallbackNames | script.js:139-144 | The candidates are `attendance-<date>.html` for the four dates. |
| Discovery.FallbackDatesParse | script.js:139-144 | The four candidate dates parse. |
| Discovery.FallbackDatesDescend | script.js:139-144 | The candidate dates are listed in strictly decreasing order. |
| Discovery.FromPotentialFile | script.js:152-158 | The record pushed for a found candidate. `Discovery.CandidateRecord` states its properties: the category is `regular`, the description is empty, the date is the valid date taken from the name, and the display name is `Attendance - ` plus that date's label. |
| Discovery.CandidateRecord | script.js:152-158 | A discovered candidate is a `regular` record with an empty description. It is dated by its name and labelled `Attendance - ` plus that date's label. |
| Discovery.DiscoveredRecords | script.js:148-172 | Every discovered record is a candidate that was found, with the fields above. Every candidate found gives its record, one record per candidate found. |
| Discovery.EveryFoundCandidateListed | script.js:148-172 | Each candidate found is listed after the sort, and there are as many records as candidates found. |
| Discovery.FoundFilesComplete | script.js:148-164 | Among any candidate names, each one found gives a record, one per name found. |
| Discovery.PotentialFilesDistinct | script.js:139-144 | The four candidate names are different. |
| Discovery.DiscoveredNamesDistinct | script.js:137-175 | Discovery never lists a file twice. |
| Discovery.CandidatesOrdered | script.js:167-172 | An earlier candidate compares before a later one. |
| Discovery.DiscoveredInProbeOrder | script.js:148-172 | Sorting the discovered records leaves them in probe order. |
| Discovery.OrderedCandidatesStay | script.js:148-172 | When the candidates' records are already in comparator order, sorting the found ones changes nothing. |
| Discovery.GetAttendanceFilesList | script.js:122-135 | With a readable manifest, the result is the manifest pipeline's. Otherwise it is discovery's. |
| Search.Trim | script.js:270 | `trim()` gives a middle slice of the term: only white space is cut, at both ends, and neither end of the result is white space. |
| Search.TrimStart | script.js:270 | Only a leading run of white space is removed, and the result does not start with white space. |
| Search.TrimEnd | script.js:270 | Only a trailing run of white space is removed, and the result does not end with white space. |
| Search.TrimStartEmpty | script.js:270 | Trimming the start empties a string exactly when it is all white space. |
| Search.TrimEndEmpty | script.js:270 | Trimming the end empties a string exactly when it is all white space. |
| Search.BlankIff | script.js:270 | `!searchTerm.trim()` holds exactly for an all-white-space term. |
| Search.LowerKeepsBlank | script.js:273 | Lower-casing keeps a term blank or not blank. |
| Text.Lower | script.js:273 | Lower-casing keeps the length and maps each character to its ASCII lower case, so no upper-case ASCII letter is left. |
| Text.LowerKeepsContains | script.js:273-277 | Lower-casing both strings keeps an occurrence of one in the other. |
| Search.MatchesTerm | script.js:273-277 | A record whose display name or file name contains the term verbatim passes the test. |
| Search.FilterRecords | script.js:269-278 | The result is never longer than the loaded list and holds only loaded records. It keeps every record whose display name or file name contains the term verbatim. |
| Search.BlankTermShowsAll | script.js:270-271 | A blank term shows every record, in the loaded order. |
| Search.FilterRecordsExact | script.js:272-277 | Any other term keeps exactly the records whose lower-cased display name or file name contains the lower-cased, untrimmed term. The kept positions are exactly the matching ones, in their loaded order. |
| Search.SearchIgnoresCase | script.js:273-277 | Terms that differ only in ASCII case select the same records. |
| Search.FilterRecordsIdempotent | script.js:269-278 | Searching the result again with the same term changes nothing. |
| Search.Offers | script.js:285 | Some filtered record has the selected file name. `Search.KeptSelection` uses it: a non-empty selection not offered is cleared, and any other selection stays. |
| Search.KeptSelection | script.js:283-288 | A non-empty selection the filtered list does not offer is cleared and any other selection stays. The result is always empty or offered. |
| Search.RecordList.constructor | script.js:2-3 | The page starts with empty lists and no selection. |
| Search.RecordList.Load | script.js:106-107 | After loading, both lists are the loaded records. |
| Search.RecordList.Select | script.js:68-75 | Choosing an option sets the selection and leaves the lists alone. |
| Search.RecordList.FilterFiles | script.js:269-289 | The loaded list stays. The filtered list is the filter of it, and the selection follows the reset rule, so it is always empty or offered. |
| Theme.InitialDarkMode | script.js:16-19 | With a saved preference, the page is dark exactly when it is `dark`. With none, the page follows the system. |
| Theme.ToggleSurvivesReload | script.js:14-58 | After the toggle saves a mode, the next page start uses that mode, whatever the system prefers. |
| Theme.SavedLightWins | script.js:19 | A saved `light` starts the page light even when the system prefers dark. |
| Theme.ThemeState.constructor | script.js:4 | Before initialisation the page is light. |
| Theme.ThemeState.ApplyTheme | script.js:49 | `applyTheme(dark)` sets the mode to `dark` and touches no storage. |
| Theme.ThemeState.InitializeDarkMode | script.js:14-22 | The mode becomes the initial mode for the saved preference and the system preference. |
| Theme.ThemeState.ToggleDarkMode | script.js:55-59 | The mode is negated and `dark`/`light` is saved to match it, so a preference is then saved. |
| Theme.ThemeState.SystemThemeChanged | script.js:25-30 | A system change sets the mode only while no preference is saved. Otherwise nothing changes. |
| Theme.ToggleTwice | script.js:55-59 | Toggling twice restores the mode. |
| Theme.ToggleThenSystemChange | script.js:25-58 | Once the toggle has been used, system changes no longer move the mode. |
| ManifestTool.ValidateArguments | add-attendance-file.js:17-51 | The arguments are accepted exactly when all of these hold: at least five are given, the name ends with `.html` and starts with `attendance-`, the date has the `YYYY-MM-DD` shape and the category is one of the five. The entry's fields are then the five arguments. |
| ManifestTool.TooFewArguments | add-attendance-file.js:17-25 | Fewer than five arguments is reported before anything else, whatever the manifest holds. |
| ManifestTool.SuffixCheckedBeforePrefix | add-attendance-file.js:30-38 | A name without `.html` is reported for the suffix even when the prefix is wrong too. |
| ManifestTool.PrefixChecked | add-attendance-file.js:35-38 | Past the suffix check, exactly the names lacking `attendance-` are refused for it. |
| ManifestTool.DateShapeOnly | add-attendance-file.js:41-45 | Past the name checks, the date is refused exactly when it lacks the shape `^\d{4}-\d{2}-\d{2}$`. |
| ManifestTool.ImpossibleDateAccepted | add-attendance-file.js:41-45 | `2024-13-45` has the accepted shape although it names no day. |
| ManifestTool.CategoryChecked | add-attendance-file.js:47-51 | Past the other checks, the category is refused exactly when it is not one of the five. |
| ManifestTool.InvalidArgumentsIgnoreManifest | add-attendance-file.js:30-63 | Invalid arguments give the same error whatever the manifest holds, so it is never read. |
| ManifestTool.HasFile | add-attendance-file.js:66 | Some manifest entry has the given file name. `ManifestTool.DuplicateRejected` states its use: a name already listed is refused. |
| ManifestTool.DuplicateRejected | add-attendance-file.js:66-70 | A name the manifest already lists is refused. |
| ManifestTool.AddFile | add-attendance-file.js:17-90 | Invalid arguments give their own error. Valid arguments with an unreadable manifest give that error. The run succeeds exactly for valid arguments, a readable manifest and a new name, and the new list is then the old one plus the entry, reordered. |
| ManifestTool.AddFileSucceeds | add-attendance-file.js:66-90 | The tool succeeds exactly for valid arguments and a new name. The new list is then the old one plus one entry whose fields are the arguments: a permutation, one entry longer. |
| ManifestTool.AddFileNewestFirst | add-attendance-file.js:85-90 | When every entry, old and new, carries a valid date, the new list is newest first. |
| ManifestTool.AddFileKeepsNamesDistinct | add-attendance-file.js:66-90 | A manifest without repeated file names keeps that property after a successful run. |
| ManifestTool.Manifest.constructor | add-attendance-file.js:57-59 | The parsed manifest holds the files and time stamp it was read with. |
| ManifestTool.Manifest.Append | add-attendance-file.js:82-93 | After push, sort and stamp, `files` is the sorted extended list and `lastUpdated` is the current time. |
| ManifestTool.AddAttendanceFile | add-attendance-file.js:15-93 | One run gives the checks' outcome. On success the manifest holds the new list and time stamp. On any error it is unchanged. |

## Left out

- **DOM and rendering.** Left out: filling the selector, the message
  box, the loading and no-selection panels, loading a record into the frame,
  and the refresh button (script.js:33-47, 251-266, 292-307, 488-544). These
  are display effects with no logic of their own. The frame loaded when the
  selection changes is among them.
- **Rebuilding the selector's options.** `populateDropdown` removes every
  option but the first (script.js:255-257), so a selected record's option is
  always removed. By the HTML selectedness rules the select's value then falls
  back to the first option before `filterFiles` reads it (script.js:284).
  `Search.RecordList.FilterFiles` models the code's own check
  (script.js:283-288) as written, on the selection as it was before the
  options were rebuilt, and not this browser reset.
- **Dark-mode style injection into the frame** (script.js:310-485). This is
  a constant style sheet and cross-document DOM access.
- **`fetch`, file reading and writing, JSON, input/output.** Left out:
  `fs.readFileSync`/`writeFileSync`, `JSON.parse`/`stringify`, the
  `fs.existsSync` warning, `process.exit` and console output. They become the
  inputs described above. A failed manifest write (add-attendance-file.js:96-111)
  is not modelled, and neither are manifest fields other than `files` and
  `lastUpdated`.
- **A manifest without a `files` array.** The viewer then falls back on
  discovery, and the model's `None` covers that. The tool crashes in that case
  (add-attendance-file.js:66); the model reports it as `ManifestUnreadable`.
- **Entries without a `title` in the tool.** The fallback comparison
  `a.title.localeCompare(b.title)` (add-attendance-file.js:89) throws when
  the title-less entry is the left operand. When it is the right operand,
  `localeCompare` compares with the string `"undefined"`. `Records.CompareEntries`
  reads a missing title as `""` on both sides, so it does not model the throw,
  and where the source compares with `"undefined"` its sign can differ.
- **Time zones and daylight saving.** The +1 day of the date label depends on
  the host time zone only through these, and their effect is not modelled. The
  label is the plain next calendar day.
- **Date strings other than YYYY-MM-DD.** Left out: the other ECMAScript
  date-time forms, such as `2024-03`, `2024` and `2024-03-15T10:00Z`, and
  out-of-range days that some engines roll over, such as `2024-02-30`.
  `Calendar.ParseIsoDate` treats all of them as NaN.
- **`toLocaleDateString` and `localeCompare`.** The first is a fixed
  `en-US` month table. The second is code-point lexicographic order
  (`Text.StrCompare`), not the locale's collation.
- **`toLowerCase` and `\w`.** Only ASCII letters change case (`Text.Lower`).
  Non-ASCII letters are left as they are.
- **Engine sort on inconsistent comparators.** A list mixing dated and
  undated records has no consistent order, and the JavaScript result is then
  implementation-defined. The model's stable insertion sort is only one
  possible outcome; only the permutation property carries over to any engine.
- **`async`/`await` and overlapping refreshes.** These are concurrency
  concerns and are not modelled.
- **The page start sequence** (script.js:7-11) and the keyboard handler of the
  toggle (script.js:84-94). They only call the modelled operations.

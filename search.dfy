/**
 * The search box (script.js `filterFiles`): an order-preserving,
 * case-insensitive substring filter over the loaded records, and the reset of
 * a selection that the filter hides.
 */
module Search {
  import opened Text
  import opened Records
  import opened Lists

  /**
   * The characters `String.prototype.trim` removes: the white space and line
   * terminators of ECMAScript (tab, vertical tab, form feed, space, no-break
   * space, byte order mark, the space separators of Unicode, line feed,
   * carriage return, line and paragraph separators).
   */
  predicate IsJsWhitespace(c: char) {
    var n := c as int;
    || n == 0x09 || n == 0x0B || n == 0x0C || n == 0x20 || n == 0xA0 || n == 0xFEFF
    || n == 0x1680 || (0x2000 <= n <= 0x200A) || n == 0x202F || n == 0x205F || n == 0x3000
    || n == 0x0A || n == 0x0D || n == 0x2028 || n == 0x2029
  }

  predicate AllWhitespace(s: string) {
    forall i :: 0 <= i < |s| ==> IsJsWhitespace(s[i])
  }

  /** Drops the leading white space. */
  function TrimStart(s: string): (r: string)
    ensures exists k :: 0 <= k <= |s| && r == s[k..] && AllWhitespace(s[..k])
    ensures r == "" || !IsJsWhitespace(r[0])
  {
    if |s| > 0 && IsJsWhitespace(s[0]) then
      var r := TrimStart(s[1..]);
      assert forall k :: 0 <= k <= |s| - 1 ==> s[1..][k..] == s[k + 1..] && s[..k + 1] == [s[0]] + s[1..][..k];
      r
    else
      assert s[0..] == s && AllWhitespace(s[..0]);
      s
  }

  /** Drops the trailing white space. */
  function TrimEnd(s: string): (r: string)
    ensures exists k :: 0 <= k <= |s| && r == s[..k] && AllWhitespace(s[k..])
    ensures r == "" || !IsJsWhitespace(r[|r| - 1])
  {
    if |s| > 0 && IsJsWhitespace(s[|s| - 1]) then
      var init := s[..|s| - 1];
      var r := TrimEnd(init);
      var k :| 0 <= k <= |init| && r == init[..k] && AllWhitespace(init[k..]);
      assert r == s[..k];
      assert s[k..] == init[k..] + [s[|s| - 1]];
      r
    else
      assert s[..|s|] == s && AllWhitespace(s[|s|..]);
      s
  }

  /** `s.trim()`: the part of `s` between a leading and a trailing run of white space. */
  function Trim(s: string): (r: string)
    ensures exists a, b :: 0 <= a <= b <= |s| && r == s[a..b] && AllWhitespace(s[..a]) && AllWhitespace(s[b..])
    ensures r == "" || (!IsJsWhitespace(r[0]) && !IsJsWhitespace(r[|r| - 1]))
  {
    TrimBounds(s);
    TrimEnd(TrimStart(s))
  }

  lemma TrimBounds(s: string)
    ensures var r := TrimEnd(TrimStart(s));
            exists a, b :: 0 <= a <= b <= |s| && r == s[a..b] && AllWhitespace(s[..a]) && AllWhitespace(s[b..])
    ensures var r := TrimEnd(TrimStart(s));
            r == "" || r[0] == TrimStart(s)[0]
  {
    var t := TrimStart(s);
    var a :| 0 <= a <= |s| && t == s[a..] && AllWhitespace(s[..a]);
    var r := TrimEnd(t);
    var k :| 0 <= k <= |t| && r == t[..k] && AllWhitespace(t[k..]);
    TrimParts(s, a, k);
    assert 0 <= a <= a + k <= |s| && r == s[a..a + k] && AllWhitespace(s[..a]) && AllWhitespace(s[a + k..]);
  }

  lemma TrimParts(s: string, a: nat, k: nat)
    requires a + k <= |s|
    ensures s[a..][..k] == s[a..a + k]
    ensures s[a..][k..] == s[a + k..]
  {
  }

  lemma {:induction false} TrimStartEmpty(s: string)
    ensures TrimStart(s) == "" <==> AllWhitespace(s)
  {
    if |s| > 0 && IsJsWhitespace(s[0]) {
      TrimStartEmpty(s[1..]);
      assert forall i :: 0 < i < |s| ==> s[i] == s[1..][i - 1];
    }
  }

  lemma {:induction false} TrimEndEmpty(s: string)
    ensures TrimEnd(s) == "" <==> AllWhitespace(s)
  {
    if |s| > 0 && IsJsWhitespace(s[|s| - 1]) {
      TrimEndEmpty(s[..|s| - 1]);
      assert forall i :: 0 <= i < |s| - 1 ==> s[i] == s[..|s| - 1][i];
    }
  }

  /** `!searchTerm.trim()` holds exactly for a term made of white space only. */
  lemma BlankIff(s: string)
    ensures Trim(s) == "" <==> AllWhitespace(s)
  {
    TrimStartEmpty(s);
    TrimEndEmpty(TrimStart(s));
  }

  /** Lower-casing does not touch white space, so a term and its lower-cased form are blank together. */
  lemma LowerKeepsBlank(s: string)
    ensures AllWhitespace(Lower(s)) <==> AllWhitespace(s)
  {
    assert forall i :: 0 <= i < |s| ==> (IsJsWhitespace(Lower(s)[i]) <==> IsJsWhitespace(s[i]));
  }

  /** The test the filter applies: the lower-cased display name or file name contains the lower-cased term. */
  function MatchesTerm(searchTerm: string): (r: Descriptor -> bool)
    ensures forall f: Descriptor :: Contains(f.displayName, searchTerm) || Contains(f.filename, searchTerm) ==> r(f)
  {
    forall f: Descriptor | Contains(f.displayName, searchTerm) ensures Contains(Lower(f.displayName), Lower(searchTerm)) {
      LowerKeepsContains(f.displayName, searchTerm);
    }
    forall f: Descriptor | Contains(f.filename, searchTerm) ensures Contains(Lower(f.filename), Lower(searchTerm)) {
      LowerKeepsContains(f.filename, searchTerm);
    }
    var term := Lower(searchTerm);
    (f: Descriptor) => Contains(Lower(f.displayName), term) || Contains(Lower(f.filename), term)
  }

  /** `filteredFiles` after `filterFiles(searchTerm)`: all records for a blank term, otherwise those that match. */
  function FilterRecords(files: seq<Descriptor>, searchTerm: string): (r: seq<Descriptor>)
    ensures |r| <= |files|
    ensures forall i :: 0 <= i < |r| ==> r[i] in files
    ensures forall i :: 0 <= i < |files| && (Contains(files[i].displayName, searchTerm) || Contains(files[i].filename, searchTerm))
              ==> files[i] in r
  {
    if Trim(searchTerm) == "" then files else Filter(files, MatchesTerm(searchTerm))
  }

  /** A blank term shows every record, in the order loaded. */
  lemma BlankTermShowsAll(files: seq<Descriptor>, searchTerm: string)
    requires AllWhitespace(searchTerm)
    ensures FilterRecords(files, searchTerm) == files
  {
    BlankIff(searchTerm);
  }

  /**
   * Any other term keeps exactly the records whose display name or file name
   * contains it, ignoring ASCII case, and keeps them in the order loaded:
   * `idx` lists the positions kept, which are exactly the matching ones.
   */
  lemma FilterRecordsExact(files: seq<Descriptor>, searchTerm: string) returns (idx: seq<nat>)
    requires !AllWhitespace(searchTerm)
    ensures var r := FilterRecords(files, searchTerm);
            && (forall i :: 0 <= i < |r| ==>
                 && r[i] in files
                 && (Contains(Lower(r[i].displayName), Lower(searchTerm)) || Contains(Lower(r[i].filename), Lower(searchTerm))))
            && (forall i :: 0 <= i < |files| &&
                 (Contains(Lower(files[i].displayName), Lower(searchTerm)) || Contains(Lower(files[i].filename), Lower(searchTerm)))
                 ==> files[i] in r)
            && |idx| == |r| && IsIndexChain(idx, |files|)
            && (forall k :: 0 <= k < |idx| ==> idx[k] < |files| && r[k] == files[idx[k]])
    ensures forall i :: 0 <= i < |files| ==>
              ((Contains(Lower(files[i].displayName), Lower(searchTerm)) || Contains(Lower(files[i].filename), Lower(searchTerm)))
               <==> i in idx)
  {
    BlankIff(searchTerm);
    idx := FilterKeepsOrder(files, MatchesTerm(searchTerm));
  }

  /** Two terms that differ only in ASCII case select the same records. */
  lemma SearchIgnoresCase(files: seq<Descriptor>, t1: string, t2: string)
    requires Lower(t1) == Lower(t2)
    ensures FilterRecords(files, t1) == FilterRecords(files, t2)
  {
    BlankIff(t1);
    BlankIff(t2);
    LowerKeepsBlank(t1);
    LowerKeepsBlank(t2);
    assert MatchesTerm(t1) == MatchesTerm(t2);
  }

  /** Searching the filtered list again with the same term changes nothing. */
  lemma FilterRecordsIdempotent(files: seq<Descriptor>, searchTerm: string)
    ensures FilterRecords(FilterRecords(files, searchTerm), searchTerm) == FilterRecords(files, searchTerm)
  {
    if Trim(searchTerm) != "" {
      var r := Filter(files, MatchesTerm(searchTerm));
      FilterAll(r, MatchesTerm(searchTerm));
    }
  }

  /** Some record in `files` has the file name `name` (`files.some(f => f.filename === name)`). */
  predicate Offers(files: seq<Descriptor>, name: string) {
    exists i :: 0 <= i < |files| && files[i].filename == name
  }

  /**
   * The selection after filtering: a non-empty selection the filtered list no
   * longer offers is cleared; any other selection stays.
   */
  function KeptSelection(filtered: seq<Descriptor>, current: string): (r: string)
    ensures r == "" || Offers(filtered, r)
    ensures current == "" || Offers(filtered, current) ==> r == current
    ensures current != "" && !Offers(filtered, current) ==> r == ""
  {
    if current != "" && !Offers(filtered, current) then "" else current
  }

  /** The viewer's record list: what was loaded, what the search shows, and the selected file. */
  class RecordList {
    var attendanceFiles: seq<Descriptor>
    var filteredFiles: seq<Descriptor>
    var selection: string

    /** The empty lists the page starts with, and no selection. */
    constructor()
      ensures attendanceFiles == [] && filteredFiles == [] && selection == ""
    {
      attendanceFiles := [];
      filteredFiles := [];
      selection := "";
    }

    /** `loadAttendanceFiles` once the list has arrived: every record is shown. */
    method Load(files: seq<Descriptor>)
      modifies this
      ensures attendanceFiles == files && filteredFiles == files
      ensures selection == old(selection)
    {
      attendanceFiles := files;
      filteredFiles := attendanceFiles;
    }

    /** Choosing an entry of the selector (the empty value is "no record"). */
    method Select(value: string)
      modifies this
      ensures selection == value
      ensures attendanceFiles == old(attendanceFiles) && filteredFiles == old(filteredFiles)
    {
      selection := value;
    }

    /** `filterFiles(searchTerm)`. */
    method FilterFiles(searchTerm: string)
      modifies this
      ensures attendanceFiles == old(attendanceFiles)
      ensures filteredFiles == FilterRecords(attendanceFiles, searchTerm)
      ensures selection == KeptSelection(filteredFiles, old(selection))
      ensures selection == "" || Offers(filteredFiles, selection)
    {
      filteredFiles := FilterRecords(attendanceFiles, searchTerm);
      selection := KeptSelection(filteredFiles, selection);
    }
  }
}

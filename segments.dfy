/**
 * Segment merging: the per-segment CSV files of a long video are ordered by the last number in
 * their names, and their rows are concatenated with the frame numbers of each segment shifted
 * so that they continue from the last frame of the segments before it.
 */
module Segments {
  import opened Common
  import opened TrackNames
  import StableSort

  // ---------------------------------------------------------------------------------------
  // Segment numbers

  /** The length of the run of digits `s` starts with. */
  function LeadingDigits(s: string): (n: nat)
    ensures n <= |s|
  {
    if s == [] || !IsDigit(s[0]) then 0 else 1 + LeadingDigits(s[1..])
  }

  /** The leading run is all digits and stops at the first non-digit. */
  lemma {:induction false} LeadingDigitsRun(s: string)
    ensures var n := LeadingDigits(s);
            AllDigits(s[..n]) && (n < |s| ==> !IsDigit(s[n]))
  {
    if s != [] && IsDigit(s[0]) {
      var m := LeadingDigits(s[1..]);
      LeadingDigitsRun(s[1..]);
      assert s[1..][..m] == s[1..m + 1];
    }
  }

  /** `re.findall(r'\d+', s)`: the maximal runs of digits of `s`, left to right. */
  function DigitRuns(s: string): seq<string>
    decreases |s|
  {
    if s == [] then []
    else if !IsDigit(s[0]) then DigitRuns(s[1..])
    else
      var n := LeadingDigits(s);
      [s[..n]] + DigitRuns(s[n..])
  }

  /** Every run `re.findall(r'\d+', s)` finds is a non-empty string of digits. */
  lemma {:induction false} DigitRunsAreNumbers(s: string)
    ensures forall k :: 0 <= k < |DigitRuns(s)| ==> DigitRuns(s)[k] != [] && AllDigits(DigitRuns(s)[k])
    decreases |s|
  {
    if s != [] {
      if !IsDigit(s[0]) {
        DigitRunsAreNumbers(s[1..]);
      } else {
        var n := LeadingDigits(s);
        LeadingDigitsRun(s);
        DigitRunsAreNumbers(s[n..]);
      }
    }
  }

  /** `extract_number`: the last number in a file name, 0 when the name has no digit. */
  function ExtractNumber(filename: string): nat {
    var runs := DigitRuns(filename);
    DigitRunsAreNumbers(filename);
    if runs == [] then 0 else DecimalValue(runs[|runs| - 1])
  }

  lemma {:induction false} LeadingDigitsAppend(x: string, y: string)
    ensures LeadingDigits(x) < |x| ==> LeadingDigits(x + y) == LeadingDigits(x)
    ensures LeadingDigits(x) == |x| && (y == [] || !IsDigit(y[0])) ==> LeadingDigits(x + y) == |x|
    decreases |x|
  {
    if x != [] && IsDigit(x[0]) {
      assert (x + y)[1..] == x[1..] + y;
      LeadingDigitsAppend(x[1..], y);
    } else if x == [] {
      assert x + y == y;
    }
  }

  /** Runs of digits split at a boundary that is not inside a run are found on each side. */
  lemma {:induction false} DigitRunsAppend(x: string, y: string)
    requires x == [] || y == [] || !IsDigit(x[|x| - 1]) || !IsDigit(y[0])
    ensures DigitRuns(x + y) == DigitRuns(x) + DigitRuns(y)
    decreases |x|
  {
    if x == [] {
      assert x + y == y;
    } else if !IsDigit(x[0]) {
      DigitRunsAppend(x[1..], y);
      DigitRunsAppendSkip(x, y);
    } else {
      var n := LeadingDigits(x);
      if n == |x| {
        LeadingDigitsRun(x);
        assert IsDigit(x[..n][|x| - 1]);
      }
      DigitRunsAppend(x[n..], y);
      DigitRunsAppendRun(x, y);
    }
  }

  /** The step of `DigitRunsAppend` past a leading non-digit. */
  lemma DigitRunsAppendSkip(x: string, y: string)
    requires x != [] && !IsDigit(x[0])
    requires DigitRuns(x[1..] + y) == DigitRuns(x[1..]) + DigitRuns(y)
    ensures DigitRuns(x + y) == DigitRuns(x) + DigitRuns(y)
  {
    assert (x + y)[1..] == x[1..] + y;
    DigitRunsHead(x);
    DigitRunsHead(x + y);
  }

  /** The step of `DigitRunsAppend` past a leading run of digits that ends inside `x`. */
  lemma DigitRunsAppendRun(x: string, y: string)
    requires x != [] && IsDigit(x[0])
    requires LeadingDigits(x) < |x| || y == [] || !IsDigit(y[0])
    requires DigitRuns(x[LeadingDigits(x)..] + y) == DigitRuns(x[LeadingDigits(x)..]) + DigitRuns(y)
    ensures DigitRuns(x + y) == DigitRuns(x) + DigitRuns(y)
  {
    var n, s := LeadingDigits(x), x + y;
    LeadingRunOfAppend(x, y);
    assert s[0] == x[0];
    RunsCons(s, n, x[..n], x[n..] + y);
    RunsCons(x, n, x[..n], x[n..]);
    ConsAssoc(x[..n], DigitRuns(x[n..]), DigitRuns(y));
  }

  lemma ConsAssoc<T>(a: T, b: seq<T>, c: seq<T>)
    ensures [a] + (b + c) == ([a] + b) + c
  {
  }

  lemma RunsCons(s: string, n: nat, run: string, rest: string)
    requires s != [] && IsDigit(s[0]) && n == LeadingDigits(s) && run == s[..n] && rest == s[n..]
    ensures DigitRuns(s) == [run] + DigitRuns(rest)
  {
  }

  /** A run of digits that ends inside `x` is also the leading run of `x + y`. */
  lemma LeadingRunOfAppend(x: string, y: string)
    requires LeadingDigits(x) < |x| || y == [] || !IsDigit(y[0])
    ensures var n := LeadingDigits(x);
            LeadingDigits(x + y) == n && (x + y)[..n] == x[..n] && (x + y)[n..] == x[n..] + y
  {
    LeadingDigitsAppend(x, y);
  }

  /** One step of `re.findall`: skip a non-digit, or take the leading run of digits. */
  lemma DigitRunsHead(s: string)
    requires s != []
    ensures DigitRuns(s) ==
              if IsDigit(s[0]) then [s[..LeadingDigits(s)]] + DigitRuns(s[LeadingDigits(s)..]) else DigitRuns(s[1..])
  {
  }

  lemma {:induction false} NoDigitRuns(s: string)
    requires forall k :: 0 <= k < |s| ==> !IsDigit(s[k])
    ensures DigitRuns(s) == []
    decreases |s|
  {
    if s != [] {
      NoDigitRuns(s[1..]);
    }
  }

  lemma {:induction false} AllDigitsLeading(s: string)
    requires AllDigits(s)
    ensures LeadingDigits(s) == |s|
    decreases |s|
  {
    if s != [] {
      AllDigitsLeading(s[1..]);
    }
  }

  /** A name without any digit has segment number 0. */
  lemma ExtractNumberNoDigits(filename: string)
    requires forall k :: 0 <= k < |filename| ==> !IsDigit(filename[k])
    ensures ExtractNumber(filename) == 0
  {
    NoDigitRuns(filename);
  }

  /**
   * The segment number is the LAST number in the name: for a name made of a prefix that does
   * not end in a digit, a run of digits, and a suffix without digits, it is that run's value,
   * whatever numbers the prefix holds.
   */
  lemma ExtractNumberLastRun(prefix: string, digits: string, suffix: string)
    requires digits != [] && AllDigits(digits)
    requires prefix == [] || !IsDigit(prefix[|prefix| - 1])
    requires forall k :: 0 <= k < |suffix| ==> !IsDigit(suffix[k])
    ensures ExtractNumber(prefix + digits + suffix) == DecimalValue(digits)
  {
    RunsOfName(prefix, digits, suffix);
    var runs := DigitRuns(prefix + digits + suffix);
    assert runs[|runs| - 1] == digits;
  }

  /** The runs of such a name are those of its prefix, then its last run of digits. */
  lemma RunsOfName(prefix: string, digits: string, suffix: string)
    requires digits != [] && AllDigits(digits)
    requires prefix == [] || !IsDigit(prefix[|prefix| - 1])
    requires forall k :: 0 <= k < |suffix| ==> !IsDigit(suffix[k])
    ensures DigitRuns(prefix + digits + suffix) == DigitRuns(prefix) + [digits]
  {
    SoleRun(digits, suffix);
    DigitRunsAppend(prefix, digits + suffix);
    assert prefix + digits + suffix == prefix + (digits + suffix);
  }

  /** A run of digits followed by no digit is the only run. */
  lemma SoleRun(digits: string, suffix: string)
    requires digits != [] && AllDigits(digits)
    requires forall k :: 0 <= k < |suffix| ==> !IsDigit(suffix[k])
    ensures DigitRuns(digits + suffix) == [digits]
  {
    NoDigitRuns(suffix);
    AllDigitsLeading(digits);
    assert digits[..|digits|] == digits && digits[|digits|..] == [];
    NoDigitRuns([]);
    RunsCons(digits, |digits|, digits, []);
    DigitRunsAppend(digits, suffix);
  }

  /** A camera number earlier in the name does not count: `cam2_seg10_output.csv` is segment 10. */
  lemma ExtractNumberExample()
    ensures ExtractNumber("cam2_seg10_output.csv") == 10
  {
    assert "cam2_seg10_output.csv" == "cam2_seg" + "10" + "_output.csv";
    ExtractNumberLastRun("cam2_seg", "10", "_output.csv");
  }

  /** The sort key of `sort_files`. */
  function NumberKey(filename: string): StableSort.SortKey {
    StableSort.SortKey(ExtractNumber(filename), 0)
  }

  /** `sort_files`: Python's stable sort by segment number. */
  function SortFiles(files: seq<string>): seq<string> {
    StableSort.Sort(files, NumberKey)
  }

  /**
   * `sort_files` returns the same names, in ascending order of segment number, and names with
   * the same number keep the order they were listed in.
   */
  lemma SortFilesOrder(files: seq<string>)
    ensures multiset(SortFiles(files)) == multiset(files)
    ensures forall i, j :: 0 <= i < j < |SortFiles(files)| ==>
              ExtractNumber(SortFiles(files)[i]) <= ExtractNumber(SortFiles(files)[j])
    ensures forall k :: StableSort.Tie(SortFiles(files), k, NumberKey) == StableSort.Tie(files, k, NumberKey)
  {
    StableSort.SortMultiset(files, NumberKey);
    StableSort.SortSorted(files, NumberKey);
    forall k ensures StableSort.Tie(SortFiles(files), k, NumberKey) == StableSort.Tie(files, k, NumberKey) {
      StableSort.SortStable(files, k, NumberKey);
    }
  }

  // ---------------------------------------------------------------------------------------
  // Merging the CSV files

  const CsvSuffix: string := "_output.csv"

  /** `name.endswith(suffix)` */
  predicate EndsWith(name: string, suffix: string) {
    |suffix| <= |name| && name[|name| - |suffix|..] == suffix
  }

  /** The names of a folder listing that end in `_output.csv`, in listing order. */
  function CsvFiles(listing: seq<string>): (files: seq<string>)
    ensures forall f :: f in files <==> f in listing && EndsWith(f, CsvSuffix)
  {
    if listing == [] then []
    else
      var n := |listing| - 1;
      CsvFiles(listing[..n]) + (if EndsWith(listing[n], CsvSuffix) then [listing[n]] else [])
  }

  /** A segment's rows with `last_frame + 1` added to every frame. */
  function Shifted(segment: seq<Row>, lastFrame: int): (out: seq<Row>)
    ensures |out| == |segment|
    ensures forall i :: 0 <= i < |segment| ==>
              out[i] == segment[i].(frame := segment[i].frame + lastFrame + 1)
  {
    seq(|segment|, i requires 0 <= i < |segment| => segment[i].(frame := segment[i].frame + lastFrame + 1))
  }

  /** `last_frame` once the loop has read `segments`: the frame of the last shifted row, or -1. */
  function LastFrame(segments: seq<seq<Row>>): int {
    if segments == [] then -1
    else
      var n := |segments| - 1;
      var before := LastFrame(segments[..n]);
      if segments[n] == [] then before
      else segments[n][|segments[n]| - 1].frame + before + 1
  }

  /** `all_data` once the loop has read `segments`, before the sort. */
  function Concatenated(segments: seq<seq<Row>>): seq<Row> {
    if segments == [] then []
    else
      var n := |segments| - 1;
      Concatenated(segments[..n]) + Shifted(segments[n], LastFrame(segments[..n]))
  }

  /** The rows `merge_csv_files` writes for the segments' rows, in file order. */
  function Merged(segments: seq<seq<Row>>): seq<Row> {
    StableSort.Sort(Concatenated(segments), FrameKey)
  }

  /** The rows of the files `files` of `folder`. */
  function SegmentsOf(folder: map<string, seq<Row>>, files: seq<string>): (segments: seq<seq<Row>>)
    requires forall f :: f in files ==> f in folder
    ensures |segments| == |files| && forall k :: 0 <= k < |files| ==> segments[k] == folder[files[k]]
  {
    seq(|files|, k requires 0 <= k < |files| => folder[files[k]])
  }

  /** The rows `merge_csv_files` writes for a folder (file name to rows) listed as `listing`. */
  function MergedFolder(folder: map<string, seq<Row>>, listing: seq<string>): seq<Row>
    requires forall f :: f in listing ==> f in folder
  {
    var files := CsvFiles(listing);
    StableSort.SortMembership(files, NumberKey);
    Merged(SegmentsOf(folder, SortFiles(files)))
  }

  /** One more segment read by the merge loop. */
  lemma MergeStep(segments: seq<seq<Row>>, k: nat)
    requires k < |segments|
    ensures Concatenated(segments[..k + 1]) ==
              Concatenated(segments[..k]) + Shifted(segments[k], LastFrame(segments[..k]))
    ensures LastFrame(segments[..k + 1]) ==
              if segments[k] == [] then LastFrame(segments[..k])
              else Shifted(segments[k], LastFrame(segments[..k]))[|segments[k]| - 1].frame
  {
    assert segments[..k + 1][..k] == segments[..k];
  }

  /** The loop that adjusts the frame numbers of one segment, row by row. */
  method ShiftFrames(segment: seq<Row>, lastFrame: int) returns (segmentData: seq<Row>)
    ensures segmentData == Shifted(segment, lastFrame)
  {
    segmentData := segment;
    for j := 0 to |segmentData|
      invariant |segmentData| == |segment|
      invariant forall i :: 0 <= i < j ==> segmentData[i] == segment[i].(frame := segment[i].frame + lastFrame + 1)
      invariant forall i :: j <= i < |segment| ==> segmentData[i] == segment[i]
    {
      segmentData := segmentData[j := segmentData[j].(frame := segmentData[j].frame + lastFrame + 1)];
    }
  }

  /**
   * `merge_csv_files` without the file system: `folder` maps each listed name to the rows its
   * file holds. Returns the rows written and whether the output file is written at all.
   */
  method MergeCsvFiles(folder: map<string, seq<Row>>, listing: seq<string>) returns (merged: seq<Row>, written: bool)
    requires forall f :: f in listing ==> f in folder
    ensures merged == MergedFolder(folder, listing)
    ensures written <==> merged != []
  {
    var csvFiles := CsvFiles(listing);
    StableSort.SortMembership(csvFiles, NumberKey);
    csvFiles := SortFiles(csvFiles);
    ghost var segments := SegmentsOf(folder, csvFiles);

    var allData := [];
    var lastFrame := -1;
    for k := 0 to |csvFiles|
      invariant allData == Concatenated(segments[..k])
      invariant lastFrame == LastFrame(segments[..k])
    {
      var segmentData := ShiftFrames(folder[csvFiles[k]], lastFrame);
      MergeStep(segments, k);
      allData := allData + segmentData;
      if segmentData != [] {
        lastFrame := segmentData[|segmentData| - 1].frame;
      }
    }
    assert segments[..|csvFiles|] == segments;
    allData := StableSort.Sort(allData, FrameKey);
    merged := allData;
    written := allData != [];
  }

  // ---------------------------------------------------------------------------------------
  // Properties of the merge

  /** `last_frame` is the frame of the last row collected so far, or -1 when there is none. */
  lemma {:induction false} LastFrameIsLastRow(segments: seq<seq<Row>>)
    ensures var all := Concatenated(segments);
            LastFrame(segments) == if all == [] then -1 else all[|all| - 1].frame
  {
    if segments != [] {
      var n := |segments| - 1;
      LastFrameIsLastRow(segments[..n]);
      var before := Concatenated(segments[..n]);
      var shifted := Shifted(segments[n], LastFrame(segments[..n]));
      assert Concatenated(segments) == before + shifted;
      if segments[n] != [] {
        var all := before + shifted;
        assert all[|all| - 1] == shifted[|segments[n]| - 1];
      } else {
        assert shifted == [];
        assert before + shifted == before;
      }
    }
  }

  /**
   * Continuous frame numbers: each segment is appended with its frames shifted by one more than
   * the frame of the last row collected before it, so a segment numbered from 0 starts right
   * after it; the first segment with rows is kept as it is.
   */
  lemma Continuity(segments: seq<seq<Row>>, segment: seq<Row>)
    ensures var before := Concatenated(segments);
            var after := Concatenated(segments + [segment]);
            var last := if before == [] then -1 else before[|before| - 1].frame;
            after == before + Shifted(segment, last) &&
            (before == [] ==> after == segment) &&
            (segment != [] ==> after[|before|].frame == segment[0].frame + last + 1)
  {
    assert (segments + [segment])[..|segments|] == segments;
    LastFrameIsLastRow(segments);
    var before := Concatenated(segments);
    if before == [] {
      assert Shifted(segment, -1) == segment;
    }
  }

  function TotalRows(segments: seq<seq<Row>>): nat {
    if segments == [] then 0 else TotalRows(segments[..|segments| - 1]) + |segments[|segments| - 1]|
  }

  /**
   * The merge keeps every row: the output holds the shifted rows of all segments, one for one,
   * sorted by frame, with rows of equal frame in the order they were collected.
   */
  lemma {:induction false} MergedRows(segments: seq<seq<Row>>)
    ensures |Merged(segments)| == TotalRows(segments)
    ensures multiset(Merged(segments)) == multiset(Concatenated(segments))
    ensures StableSort.SortedBy(Merged(segments), FrameKey)
    ensures forall k :: StableSort.Tie(Merged(segments), k, FrameKey) == StableSort.Tie(Concatenated(segments), k, FrameKey)
  {
    ConcatenatedLength(segments);
    StableSort.SortMultiset(Concatenated(segments), FrameKey);
    StableSort.SortSorted(Concatenated(segments), FrameKey);
    forall k ensures StableSort.Tie(Merged(segments), k, FrameKey) == StableSort.Tie(Concatenated(segments), k, FrameKey) {
      StableSort.SortStable(Concatenated(segments), k, FrameKey);
    }
  }

  lemma {:induction false} ConcatenatedLength(segments: seq<seq<Row>>)
    ensures |Concatenated(segments)| == TotalRows(segments)
  {
    if segments != [] {
      ConcatenatedLength(segments[..|segments| - 1]);
    }
  }

  /** A segment whose frames are non-negative and never decrease. */
  predicate Ordered(segment: seq<Row>) {
    StableSort.SortedBy(segment, FrameKey) && forall i :: 0 <= i < |segment| ==> segment[i].frame >= 0
  }

  /**
   * The final sort changes nothing when every segment is numbered from 0 upwards in order:
   * the shifted segments already follow one another.
   */
  lemma {:induction false} AlreadyInOrder(segments: seq<seq<Row>>)
    requires forall k :: 0 <= k < |segments| ==> Ordered(segments[k])
    ensures StableSort.SortedBy(Concatenated(segments), FrameKey)
    ensures Merged(segments) == Concatenated(segments)
  {
    if segments != [] {
      var n := |segments| - 1;
      AlreadyInOrder(segments[..n]);
      var before := Concatenated(segments[..n]);
      var last := LastFrame(segments[..n]);
      LastFrameIsLastRow(segments[..n]);
      SortedUpToLast(before, last);
      assert Ordered(segments[n]);
      ShiftedOrdered(segments[n], last);
      SortedConcat(before, Shifted(segments[n], last), last);
    }
    StableSort.SortSortedIsIdentity(Concatenated(segments), FrameKey);
  }

  /** In rows sorted by frame, no frame exceeds the last row's. */
  lemma SortedUpToLast(rows: seq<Row>, last: int)
    requires StableSort.SortedBy(rows, FrameKey)
    requires last == if rows == [] then -1 else rows[|rows| - 1].frame
    ensures forall i :: 0 <= i < |rows| ==> rows[i].frame <= last
  {
    forall i | 0 <= i < |rows| ensures rows[i].frame <= last {
      if i < |rows| - 1 {
        assert StableSort.KeyLe(FrameKey(rows[i]), FrameKey(rows[|rows| - 1]));
      }
    }
  }

  /** An ordered segment shifted past `last` stays sorted and lies wholly after `last`. */
  lemma ShiftedOrdered(segment: seq<Row>, last: int)
    requires Ordered(segment)
    ensures StableSort.SortedBy(Shifted(segment, last), FrameKey)
    ensures forall j :: 0 <= j < |segment| ==> Shifted(segment, last)[j].frame > last
  {
    var out := Shifted(segment, last);
    forall i, j | 0 <= i < j < |out| ensures StableSort.KeyLe(FrameKey(out[i]), FrameKey(out[j])) {
      assert StableSort.KeyLe(FrameKey(segment[i]), FrameKey(segment[j]));
    }
  }

  /** Two sorted runs separated by `bound` are sorted together. */
  lemma SortedConcat(a: seq<Row>, b: seq<Row>, bound: int)
    requires StableSort.SortedBy(a, FrameKey) && StableSort.SortedBy(b, FrameKey)
    requires forall i :: 0 <= i < |a| ==> a[i].frame <= bound
    requires forall j :: 0 <= j < |b| ==> b[j].frame > bound
    ensures StableSort.SortedBy(a + b, FrameKey)
  {
    var all := a + b;
    forall i, j | 0 <= i < j < |all| ensures StableSort.KeyLe(FrameKey(all[i]), FrameKey(all[j])) {
      if j < |a| {
        assert all[i] == a[i] && all[j] == a[j];
      } else if i < |a| {
        assert all[i] == a[i] && all[j] == b[j - |a|];
      } else {
        assert all[i] == b[i - |a|] && all[j] == b[j - |a|];
      }
    }
  }
}

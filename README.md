# Mouse-tracking trajectory engine, modelled in Dafny

The repository turns per-frame detections of five mice into one clean track per body part.
Class `2m` is the body of mouse `m` and class `2m + 1` its head. Each detection is a CSV row
`Frame, ID, Class, X, Y`. The model covers four parts.

- **Full run** (`process_csv` in the command-line processor and in the editor add-on's
  `CSVProcessor`). The run groups detections by frame and class. For each frame it keeps one
  point per part: the only candidate, the first one when the partner part was not seen, and
  otherwise the candidate nearest the partner's first point. It counts the discarded
  duplicates and sorts by `(Frame, Class)`. Then `interpolate_and_threshold` fills every frame
  between a class's first and last detection by linear interpolation. It also runs the jump
  clamp: a point that moves more than the threshold on either axis from the previously
  emitted point is replaced by that point.
- **Track reprocessing** (`reprocess_track` in the add-on). It reruns the selection for one
  class and its partner from a start frame. It clamps with a grace window of `fps` frames and
  splices the result into the stored output.
- **Editor conversions.** Pixel coordinates map to and from normalised marker coordinates,
  and the class id is written into and read back from a track name.
- **Segment merging** (`merge-videos-and-csv.py`). The `_output.csv` files are ordered by the
  last number in their names. Their rows are concatenated with frame numbers shifted so they
  continue from one segment to the next.

Modules:
- `Common`: rows, points and sort keys.
- `StableSort`: Python's stable `sort`/`sorted` as a stable insertion sort.
- `Grouping`: the frame → class → points dictionary.
- `Disambiguation`: the per-frame selection and the duplicate count.
- `Interpolation`: `np.interp` inside the sampled range.
- `JumpClamp`: the clamp loop as one function, with a per-position "clamping active" flag.
- `Trajectory`: `interpolate_and_threshold`.
- `Pipeline`: `process_csv`.
- `Reprocess`: `reprocess_track`.
- `Markers`, `TrackNames`: the editor conversions.
- `Segments`: `sort_files` and `merge_csv_files`.

Each loop of the source is a method. It is proved equal to a specification function defined on
prefixes of its input, and the properties are proved as lemmas about those functions.

The model follows these facts of the code:
- `reprocess_track` does not interpolate. The rows it redoes are the selected detections from
  the start frame on, so a frame with no detection of the class is left without a row
  (`Reprocess.RedoneFrames`).
- The grace window ends at frame `start + fps`. The comparison is made in real arithmetic,
  because the clip's frame rate is a float.
- The threshold's default is 50.0 in the signature of the command-line `process_csv` and 500.0
  on its command line. The model takes the threshold as a parameter.

## Model

| member | source | states |
|---|---|---|
| StableSort.SortMultiset | csv-processor-cli.py:78 | sorting keeps exactly the same rows (a permutation) |
| StableSort.SortSorted | csv-processor-cli.py:131 | the sorted rows are in ascending key order |
| StableSort.SortStable | merge-videos-and-csv.py:51 | rows with equal keys keep their relative order (Python's sort is stable) |
| StableSort.SortSortedIsIdentity | csv-processor-cli.py:78 | sorting rows that are already in key order changes nothing |
| StableSort.SortStrict | tracking_blender.py:123 | sorting rows with pairwise distinct keys gives a strictly ascending sequence |
| Grouping.Group | csv-processor-cli.py:15-19 | the grouping loop builds the dictionary whose `[frame][class]` list is the detections of that frame and class in input order; its keys are the frames seen |
| Grouping.SortedFrames | csv-processor-cli.py:24 | `sorted(grouped_data.items())` visits every frame seen, each once, in strictly ascending order |
| Grouping.RowInItsBucket | tracking_blender.py:66-70 | every detection lands in the list of its own frame and class |
| Grouping.BucketMembers | tracking_blender.py:67-70 | every point in a frame/class list comes from a detection of that frame and class |
| Grouping.BucketNonEmpty | csv-processor-cli.py:29-30 | `frame_data.get(c, [])` is non-empty exactly when some detection has that frame and class |
| Disambiguation.Nearest | csv-processor-cli.py:41 | `min` by distance returns a candidate no farther from the reference than any other, and the first such one |
| Disambiguation.ChooseSelection | csv-processor-cli.py:36-45 | no candidates give no row; a single candidate, or no partner point, gives the first candidate; otherwise the nearest candidate to the partner's first point, ties to the earliest |
| Disambiguation.SelectPart | csv-processor-cli.py:36-45 | no point exactly when the part has no candidate; the only candidate, or the first one when the reference part has none; otherwise a candidate at least squared distance from the reference part's first point, the earliest on a tie |
| Disambiguation.PartnerOfMouse | csv-processor-cli.py:25-27 | body `2m` and head `2m + 1` are each other's partner |
| Disambiguation.PartnerInvolution | tracking_blender.py:75-80 | the partner of a class is a different class of the same mouse, and its partner is the class itself |
| Disambiguation.DisambiguateMouse | csv-processor-cli.py:25-70 | one mouse contributes its body row, then its head row, each only when its bucket has a point and each chosen by the selection rule with the other part's points as reference; its duplicates are `len - 1` per non-empty bucket |
| Disambiguation.DisambiguateFrame | csv-processor-cli.py:24-70 | the mouse loop of one frame emits the rows and duplicate count of the frame's specification |
| Disambiguation.Disambiguate | csv-processor-cli.py:22-72 | the frame loop emits all frames' rows in visiting order and sums their duplicates |
| Disambiguation.FrameRowsComplete | tracking_blender.py:82-120 | every class 0..9 with a detection in a frame gets a row in that frame |
| Disambiguation.FrameRowsWellChosen | tracking_blender.py:83-100 | every row of a frame carries its track name and the point the selection rule picks |
| Disambiguation.ResolvedSorted | csv-processor-cli.py:74-78 | the rows are already strictly ordered by (Frame, Class) before the sort |
| Disambiguation.ResolvedComplete | csv-processor-cli.py:24-30 | there is a row for (f, c) exactly when f was visited, c is in 0..9 and some detection has frame f and class c |
| Disambiguation.DuplicateConservation | csv-processor-cli.py:32-34 | duplicates counted plus rows emitted equals the detections of classes 0..9 in the visited frames |
| Disambiguation.NearestHeadExample | csv-processor-cli.py:39-43 | body candidates (0,0), (10,10) with head (1,1) pick (0,0); with no head the first candidate |
| Pipeline.ProcessCsv | csv-processor-cli.py:6-92 | the full run writes the interpolated, clamped output of the disambiguated rows and prints the duplicate count |
| Pipeline.ResolveKeys | csv-processor-cli.py:15-72 | after disambiguation there is a row for (f, c) exactly when c is in 0..9 and some detection has frame f and class c |
| Pipeline.ResolveRule | tracking_blender.py:72-120 | every disambiguated row has id `Class_<c>` and the point the selection rule picks from the detections of its frame, with the partner's detections as reference |
| Pipeline.DuplicateCountConservation | csv-processor-cli.py:23-34 | the printed duplicate count plus the disambiguated rows equals the candidate detections of classes 0..9 |
| Pipeline.ResolveSpans | csv-processor-cli.py:36-72 | the disambiguated rows of a class span a frame exactly when the detections of that class (in 0..9) do |
| Pipeline.OutputCoverage | tracking_blender.py:60-133 | the output has exactly one row per (frame, class), strictly sorted; (f, c) is present exactly when c is in 0..9 and f lies between two detections of class c |
| Interpolation.InterpAtSample | csv-processor-cli.py:111-112 | interpolation reproduces each sample at its own frame |
| Interpolation.InterpBracket | tracking_blender.py:153-154 | between neighbouring samples the value is the straight line through them |
| Interpolation.InterpBetween | csv-processor-cli.py:110-112 | an interpolated value lies between the values of its bracketing samples |
| JumpClamp.FreezeAt | csv-processor-cli.py:114-128 | each later emitted point is the new point, unless clamping is active and it jumps by more than the threshold from the previously emitted point, which is then held |
| JumpClamp.FreezeBoundedSteps | csv-processor-cli.py:117-120 | where clamping is active, an emitted point either repeats its predecessor or is within the threshold of it on both axes |
| JumpClamp.FreezeFromInput | tracking_blender.py:157-169 | the clamp invents no positions: each emitted point is an input point at or before it |
| JumpClamp.FreezeWithoutJumps | tracking_blender.py:159-161 | when no consecutive input points jump apart, the clamp changes nothing |
| JumpClamp.FreezeInactive | tracking_blender.py:376-379 | where clamping is off, the point is emitted as it is |
| JumpClamp.FreezeExample | csv-processor-cli.py:115-120 | x = 10, 15, 20 passes threshold 5; with threshold 3 frames 1 and 2 freeze at 10 |
| Trajectory.GroupByClass | csv-processor-cli.py:95-98 | the grouping loop maps every class seen, in order of first appearance, to its rows in input order |
| Trajectory.ClampClass | csv-processor-cli.py:114-128 | the clamp loop of one class emits rows `Class_<c>` for consecutive frames from the first, carrying the clamped points |
| Trajectory.InterpolateAndThreshold | csv-processor-cli.py:94-132 | the function returns the sorted concatenation of every class's filled and clamped track |
| Trajectory.TrackCovers | csv-processor-cli.py:107-127 | a class's track has one row for each frame from its first to its last detection, each with that class and its track name |
| Trajectory.TrackClamp | tracking_blender.py:156-169 | each row of a track carries the interpolated point, or the previous row's point when the interpolated one jumps by more than the threshold |
| Trajectory.TrackAtSamples | tracking_blender.py:150-169 | without jumps, the track reproduces every detection at its frame |
| Trajectory.FilledDense | csv-processor-cli.py:107-112 | filling a class with a detection at every frame of its range returns its points unchanged |
| Trajectory.AllTracksUnique | tracking_blender.py:144-169 | tracks of distinct classes share no (frame, class) pair |
| Trajectory.InterpolatedSorted | tracking_blender.py:171-173 | the result is strictly sorted by (Frame, Class) and holds exactly the rows of all tracks |
| Trajectory.ClassRange | csv-processor-cli.py:103-108 | a frame lies between two detections of a class exactly when it lies between the class's first and last detection (`min`/`max` of its frames) |
| Trajectory.InterpolatedCoverage | tracking_blender.py:136-173 | the result has a row (f, c) exactly when f lies between two input rows of class c: no extrapolation, no gap |
| Trajectory.ScenarioExample | csv-processor-cli.py:100-132 | class 0 at frames 0 (10,10) and 2 (20,10) gives (15,10) at frame 1 under threshold 5, and (10,10) at frames 1 and 2 under threshold 3 |
| Reprocess.PairedClass | tracking_blender.py:328 | the paired class is the other part of the same mouse, and pairing twice returns the class |
| Reprocess.GroupScoped | tracking_blender.py:336-341 | the grouping loop keeps only detections from the start frame on of the selected and paired classes |
| Reprocess.ScopedBucket | tracking_blender.py:340-341 | a scoped list equals the full list for frames from the start and the two classes, and is empty otherwise |
| Reprocess.SelectAgreesWithFullRun | tracking_blender.py:349-355 | the reprocess selection rule chooses the same point as the full run's |
| Reprocess.SelectRows | tracking_blender.py:343-363 | the frame loop emits the selected class's rows for the visited frames |
| Reprocess.SelectedComplete | tracking_blender.py:345-349 | a visited frame gets a row exactly when it has a detection of the selected class |
| Reprocess.PickedRows | tracking_blender.py:343-366 | the redone rows have strictly increasing frames, all from the start frame, with the selected class, its track name and the selection rule's point |
| Reprocess.PickedFrames | tracking_blender.py:336-363 | a frame is redone exactly when it is at or after the start and has a detection of the selected class |
| Reprocess.ClampWithGrace | tracking_blender.py:368-382 | the clamp loop with `prev` starting empty rewrites X and Y of each row as the grace-window clamp does |
| Reprocess.ClampedAt | tracking_blender.py:369-379 | the first row and rows before `start + fps` keep their point; later rows hold the previous emitted point on a jump |
| Reprocess.KeptRowsMembers | tracking_blender.py:387 | the retained rows are exactly the stored rows of other classes or of earlier frames |
| Reprocess.ReprocessTrack | tracking_blender.py:326-397 | reprocessing writes the sorted union of the retained stored rows and the redone rows |
| Reprocess.ReprocessIsolation | tracking_blender.py:384-391 | a row of another class, or of the selected class before the start frame, is in the new output exactly when it was in the stored output |
| Reprocess.ReprocessMerge | tracking_blender.py:389-391 | the new output is sorted by (Frame, Class), is the retained rows plus the redone rows, and its rows of the redone range all come from the redo |
| Reprocess.RedoneFrames | tracking_blender.py:343-382 | the redone rows have increasing frames, and there is one at frame f exactly when f is at or after the start and the class was detected at f |
| Markers.ExportAfterImport | tracking_blender.py:220-223 | exporting an imported marker gives back the pixel coordinate |
| Markers.ImportAfterExport | tracking_blender.py:266-269 | importing an exported marker gives back the marker |
| Markers.ToMarker | tracking_blender.py:223 | a point inside the frame maps into the unit square, with the top edge at v = 1 |
| Markers.FromMarker | tracking_blender.py:268-269 | a marker in the unit square maps inside the frame, v = 1 to the top edge |
| TrackNames.TrackNameRoundTrip | tracking_blender.py:257-258 | the class id read back from the track name `Class_<c>` is c |
| TrackNames.NoUnderscoreIsClassZero | tracking_blender.py:259-261 | a track name without an underscore reads back as class 0 |
| TrackNames.TrackNameInjective | tracking_blender.py:220 | different classes get different track names |
| TrackNames.IntRoundTrip | tracking_blender.py:258 | `int(str(i)) == i` for every integer |
| Segments.ExtractNumberLastRun | merge-videos-and-csv.py:9-13 | the segment number is the value of the last run of digits in the name, whatever numbers come before it |
| Segments.ExtractNumberNoDigits | merge-videos-and-csv.py:13 | a name without digits has segment number 0 |
| Segments.ExtractNumberExample | merge-videos-and-csv.py:11-13 | `cam2_seg10_output.csv` is segment 10 |
| Segments.SortFilesOrder | merge-videos-and-csv.py:15 | the files are a permutation of the input in ascending segment number, equal numbers in listing order |
| Segments.CsvFiles | merge-videos-and-csv.py:28 | exactly the listed names ending in `_output.csv` are kept |
| Segments.ShiftFrames | merge-videos-and-csv.py:40-42 | the row loop adds `last_frame + 1` to every frame of the segment |
| Segments.MergeCsvFiles | merge-videos-and-csv.py:26-59 | the merge writes the shifted rows of the sorted segments, sorted by frame, and writes a file only when there is a row |
| Segments.LastFrameIsLastRow | merge-videos-and-csv.py:46-48 | `last_frame` is the frame of the last row collected so far, or -1 |
| Segments.Continuity | merge-videos-and-csv.py:31-48 | each segment is appended shifted by one more than the last collected frame; the first non-empty segment is kept as it is |
| Segments.MergedRows | merge-videos-and-csv.py:44-51 | the output holds every shifted row once (its length is the total of the segments), sorted by frame, equal frames in collection order |
| Segments.AlreadyInOrder | merge-videos-and-csv.py:50-51 | when every segment's frames are non-negative and ascending, the final sort changes nothing |

## Left out

- File reading and writing, `csv.DictReader`/`DictWriter`, `argparse` and every `print` are left out. The model works on parsed rows and returns the rows written.
- The editor API is left out: operators, panels, property groups, clip loading, track creation and reload. Only the coordinate and track-name conversions they perform are modelled.
- The `execute` checks of the reprocess operator (no clip, no class selected, track not found) are left out. So are the class-id parse of the selected name and the unused `total_frames` parameter.
- `merge_videos` and all video handling (`moviepy`) are left out.
- Floating-point arithmetic is modelled as exact real arithmetic. `np.interp` rounding, and NaN or infinite coordinates, are not modelled.
- The distance is compared squared. The square root and `**` would give the same order, but their rounding is not modelled.
- Rows are parsed records. The CSV string round trip of `str(x)` and `int(row['Frame'])` is not modelled, nor is the fact that reprocessed X and Y are stored as strings.
- Rows of a merged segment are records with the five columns. Other columns a segment file may carry are not modelled.
- TrackNames.ClassIdOfTrackName: accepts ASCII digits with an optional leading minus. Python's `int` also accepts surrounding whitespace, a `+` sign and non-ASCII digits. Those names read back as None here; the source would give a number.
- Segments.ExtractNumber: `\d` is read as the ASCII digits 0-9. Python's `\d` also matches other Unicode decimal digits.
- Trajectory.InterpolateAndThreshold: requires its input strictly sorted by (Frame, Class), which is how `process_csv` calls it. Under that order a class's `min`/`max` frame is its first/last row. Unsorted input, which `np.interp` would treat as undefined, is not modelled.
- Pipeline.DuplicateCountConservation: relates the count to the detections of classes 0..9 in the visited frames, not to the total input row count. Detections of other classes are dropped without being counted, as in the source.
- Segments.MergeCsvFiles: `folder` maps each listed name to its parsed rows and must hold every listed name. A file that cannot be opened, or a name listed twice, is not modelled.

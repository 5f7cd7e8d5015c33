# Zebrafish tank-position analysis, modelled in Dafny

This project models the analysis core of a script that post-processes the
per-frame output of the Ctrax animal tracker for zebrafish tank tests:

- **Track merging** (`combine_df`, module `TrackMerge`). The raw table has one
  row per frame. Its columns come in groups of six: track id, x, y and three
  unused fields. For every frame, the merged trajectory keeps the (x, y) of the
  last group whose id is non-negative. A frame with no such group is dropped.
- **Region classification and per-minute buckets** (`min_by_min_top_bottom_analysis`,
  modules `Regions`, `Buckets`, `MinuteAnalysis`). Each frame's y is tested
  against the half, one-third and two-thirds lines between the tank's bottom
  and top. Hits are counted for the top/bottom half and the top/middle/bottom
  third of every bucket. The counts become percentages of the bucket's frames.
  In "time" mode a trial of T minutes gets T buckets of floor(F/T) frames
  (F = merged frames). In "fps" mode every minute has fps*60 frames, and a
  trailing partial bucket follows. That bucket's label is the number of whole
  minutes plus 0.6 times the fractional minute.
- **Tank extents** (the max/min part of `get_top_and_bottom`, module `Arena`).
  The tank outline polygon is reduced to top, bottom, left and right.
- **Frame duration** (`time_per_frame`, module `Timing`).

The script is Python 2, so `/` between two integers is floor division. This
matters at line 97 (frames per minute) and line 73 (frame rate). Coordinates
are exact `real` numbers. Python's exceptions are `Err` values of
`Wrappers.Result`:

- `DivisionByZero`: the time mode with T = 0, or with fewer frames than
  minutes (then every bucket is empty and line 122 divides by 0.0); the fps
  mode with a zero frame rate; `time_per_frame` with a frame rate that rounds
  down to 0.
- `EmptySequence`: `max()` of an empty outline.
- `UnknownMode`: a mode that is neither "time" nor "fps". The table is then
  never bound.

In fps mode an empty bucket does not raise: numpy divides 0 by 0 and the cells
become NaN (`Regions.Cell.NaN`).

A fish resting exactly on the half line counts in the top half, because the
tests at line 108 use `>=`. So a stationary fish at mid-height in a 0–100 tank
counts 100% in the top half and 100% in the middle third
(`MinuteAnalysis.StationaryExample`).

## Model

| member | source | states |
|---|---|---|
| `TrackMerge.CombineFrames` | Ctrax_zebrafish_tracking.py:37-62 | the nested frame/group loops return exactly `Merged(table)`: per frame, the last detection, frames without one skipped |
| `TrackMerge.Pick` | Ctrax_zebrafish_tracking.py:48-60 | a frame that yields a point yields the (x, y) of one of its groups whose id is >= 0 (which group: `PickIsLastDetection`) |
| `TrackMerge.PickIsLastDetection` | Ctrax_zebrafish_tracking.py:48-60 | a frame yields nothing iff no group id is >= 0; otherwise it yields the (x, y) of the highest-offset group with a valid id, so lower-offset valid groups are ignored |
| `TrackMerge.MergedAppend` | Ctrax_zebrafish_tracking.py:46-62 | merging works frame by frame and keeps input order: merging a concatenation is the concatenation of the merges |
| `TrackMerge.MergedLength` | Ctrax_zebrafish_tracking.py:58-62 | the trajectory has one point per frame with a detection, never more points than frames, and exactly as many iff every frame has a detection |
| `Regions.DividingLines` | Ctrax_zebrafish_tracking.py:87-89 | the half line is the midpoint; the third lines split the height into three equal parts; for an upright tank bottom <= 1/3 <= 1/2 <= 2/3 <= top |
| `Regions.Classify` | Ctrax_zebrafish_tracking.py:108-119 | the four branches are exhaustive for every y; top half iff y >= half line; top third only with top half, bottom third only with bottom half |
| `Regions.RecordIncrements` | Ctrax_zebrafish_tracking.py:108-119 | counting a frame adds one to the counter of its half and one to the counter of its third, and leaves the other three counters unchanged |
| `Regions.ThirdsFollowLines` | Ctrax_zebrafish_tracking.py:108-119 | in an upright tank the third a frame counts in depends only on the one-third and two-thirds lines |
| `Regions.TallyTotals` | Ctrax_zebrafish_tracking.py:105-119 | every frame increments exactly one half counter and one third counter; count(top 1/3) <= count(top 1/2) and count(bottom 1/3) <= count(bottom 1/2) |
| `Regions.TallyAgainstLines` | Ctrax_zebrafish_tracking.py:105-119 | the counters equal direct counts against the lines: top half = frames on or above the half line; in an upright tank top third = frames on or above 2/3, bottom third = frames below 1/3 |
| `Regions.TallyUniform` | Ctrax_zebrafish_tracking.py:105-119 | a bucket whose frames all fall in one zone counts all of them in that zone's two counters and none elsewhere |
| `Regions.Percent` | Ctrax_zebrafish_tracking.py:155 | a percentage cell is NaN exactly when the bucket is empty, the numpy 0/0 of the fps branch; the time branch raises at line 122 before an empty bucket reaches it (`MinuteAnalysis.BoundaryColumns`) |
| `Regions.PercentScale` | Ctrax_zebrafish_tracking.py:121-122 | a percentage multiplied by the bucket size gives back 100 times the count |
| `Regions.PercentBounds` | Ctrax_zebrafish_tracking.py:121-122 | in a non-empty bucket a count within the bucket gives a value in [0, 100], 100 for all frames, 0 for none |
| `Regions.ColumnPercentages` | Ctrax_zebrafish_tracking.py:121-122 | in a non-empty bucket every cell is a number in [0, 100], top and bottom half sum to 100, the three thirds sum to 100, and top (bottom) third <= top (bottom) half |
| `Buckets.TimeSpansShape` | Ctrax_zebrafish_tracking.py:97-104 | exactly T contiguous half-open buckets from frame 0, each of floor(F/T) frames; the last ends at T*floor(F/T) <= F, so fewer than T trailing frames are never read |
| `Buckets.TimeMarks` | Ctrax_zebrafish_tracking.py:99-100 | T + 1 minute boundaries, the first at frame 0 and the last at T*floor(F/T) |
| `Buckets.TimeSpans` | Ctrax_zebrafish_tracking.py:100-104 | one bucket per minute; together they start at frame 0 and stop at T*floor(F/T) |
| `Buckets.Between` | Ctrax_zebrafish_tracking.py:102-104 | one bucket for each pair of consecutive boundaries |
| `Buckets.FinalMinuteValue` | Ctrax_zebrafish_tracking.py:127-131 | the final fps label is q + 0.6*r/fpm (q whole minutes, r leftover frames) and equals q exactly when r = 0 |
| `Buckets.FinalMinute` | Ctrax_zebrafish_tracking.py:127-131 | the final label lies in [q, q + 0.6) for q whole minutes |
| `Buckets.FpsMinutes` | Ctrax_zebrafish_tracking.py:127-131 | the fps labels are 1 .. q followed by the final label, q + 1 labels in all |
| `Buckets.FpsSpansShape` | Ctrax_zebrafish_tracking.py:126-138 | q + 1 contiguous buckets from frame 0; the first q hold fpm frames each; the last is [q*fpm, q*fpm + floor(3r/5)), leaves r - floor(3r/5) frames unread, and is empty iff r <= 1 |
| `Buckets.FpsSpan` | Ctrax_zebrafish_tracking.py:138 | a bucket ends at the next time interval scaled to frames and truncated: hi <= interval*fpm < hi + 1 |
| `Buckets.SpansOf` | Ctrax_zebrafish_tracking.py:137-138 | one bucket for each pair of consecutive time intervals |
| `Buckets.FpsExample` | Ctrax_zebrafish_tracking.py:126-138 | 165000 frames at 30 fps: 91 full buckets, then a bucket labelled 91.4 that covers frames 163800 to 164520 |
| `MinuteAnalysis.CountFrames` | Ctrax_zebrafish_tracking.py:105-119 | the counting loop over range(lo, hi) produces the counters of `Tally` over those frames |
| `MinuteAnalysis.TimeModeColumns` | Ctrax_zebrafish_tracking.py:94-122 | the time-mode loop raises a division by zero iff floor(F/T) = 0, and otherwise returns the T columns of the time-mode buckets |
| `MinuteAnalysis.BoundaryColumns` | Ctrax_zebrafish_tracking.py:102-122 | the loop over consecutive boundaries raises a division by zero when a bucket is empty, and otherwise returns one column per bucket labelled 1, 2, ... |
| `MinuteAnalysis.FpsModeColumns` | Ctrax_zebrafish_tracking.py:124-155 | the fps branch builds time_intervals, puts 0 in front and returns the fps-mode columns: one per bucket, labelled by the time intervals |
| `MinuteAnalysis.IntervalColumns` | Ctrax_zebrafish_tracking.py:137-155 | the loop over consecutive time intervals returns one column per interval pair, each the counts of its bucket as percentages, labelled by the later interval |
| `MinuteAnalysis.MinByMinAnalysis` | Ctrax_zebrafish_tracking.py:77-157 | the whole analysis returns what `Analysis` specifies for each mode, including the error cases |
| `MinuteAnalysis.TimeModeOutcome` | Ctrax_zebrafish_tracking.py:91-122 | for T > 0: a division by zero iff F < T; otherwise T columns labelled 1 .. T, each with well-formed percentages |
| `MinuteAnalysis.TimeModeIgnoresTail` | Ctrax_zebrafish_tracking.py:100-104 | frames at or after T*floor(F/T) are never read: trajectories that agree before that point give the same table |
| `MinuteAnalysis.FpsModeOutcome` | Ctrax_zebrafish_tracking.py:124-155 | q + 1 columns; columns 1 .. q hold well-formed percentages; the last is labelled with the final label, is well formed when r >= 2 and is all NaN when r <= 1 |
| `MinuteAnalysis.StationaryExample` | Ctrax_zebrafish_tracking.py:87-122 | 600 frames at y = 50 in a 0–100 tank, one-minute trial: 100% top half, 100% middle third, 0 elsewhere |
| `MinuteAnalysis.ExtremeVerticesClassified` | Ctrax_zebrafish_tracking.py:184-185 | with the outline's extents as top and bottom, the highest vertex counts in the top half and top third, the lowest in the bottom half and bottom third |
| `Arena.Largest` | Ctrax_zebrafish_tracking.py:184 | max of a non-empty list is an element of it and no element exceeds it |
| `Arena.Smallest` | Ctrax_zebrafish_tracking.py:185 | min of a non-empty list is an element of it and no element is below it |
| `Arena.ArenaExtents` | Ctrax_zebrafish_tracking.py:183-189 | an empty outline raises; otherwise top >= bottom, right >= left, every vertex lies inside the box, and each side is attained by a vertex |
| `Timing.FloorDiv` | Ctrax_zebrafish_tracking.py:73 | Python 2 integer division rounds toward minus infinity: q <= a/b < q + 1 |
| `Timing.TimePerFrame` | Ctrax_zebrafish_tracking.py:65-75 | a zero length raises; a result is the reciprocal of the integer frame rate, and for a positive length it lies in (0, 1] |
| `Timing.TimePerFrameBounds` | Ctrax_zebrafish_tracking.py:65-75 | zero length raises; for a positive length the result exists iff frames >= 60*minutes, is never below the true frame duration, and equals it when the frame rate divides exactly |

## Left out

- File and pickle I/O: `load_data` (CSV reading), the scan of the annotation file and the unpickling in `get_top_and_bottom`, and all CSV writing and blank-line padding in `main`. The model starts from the parsed table, the parsed outline and the parsed mode.
- Command-line handling in `main`, and the lower-casing of the mode string. The mode is the parsed datatype `MinuteAnalysis.Mode`.
- The process-wide pandas display precision. It only affects formatting.
- Floating-point rounding. Coordinates, percentages and labels are exact reals, and the `int()` truncations are explicit floors.
- NaN cells in the raw tracking table (empty CSV fields). Cells are reals, so a missing id is not modelled. Nor is a valid id with a NaN y: such a frame matches none of the four branches at lines 108-119 and 141-152 but still counts in the bucket size, so in the program that bucket's percentages need not sum to 100, which `Regions.ColumnPercentages` does not cover.
- TrackMerge.CombineFrames: requires every row to be readable. The KeyError that pandas raises when a valid id sits in a truncated last group is not modelled as an error.
- The fps mode takes the frames per minute (fps*60) as a natural number. With a non-integral value, the source starts bucket t at `t * int(fpm)` but ends it at `int((t+1) * fpm)`. Those bounds can disagree, and the model does not cover that case, nor negative frame rates.
- MinuteAnalysis.FpsModeOutcome: when F is a positive multiple of fps*60, the final label equals the last whole minute q, so two columns share the label q (`Buckets.FinalMinuteValue` shows when). The model keeps the columns as an ordered sequence and proves the column at index q - 1 well formed. In pandas, selecting a duplicated label returns a two-column copy, so the writes at line 155 probably never reach the table, and both columns labelled q stay NaN. That outcome is not modelled.
- The output table is pre-allocated by pandas and filled cell by cell. The model builds the same columns in order.
- The left and right extents are computed but never used by the analysis, so the left/right halves are not part of the model.
- Tank coordinates are taken to be floating point, as the unpickled outline provides them. If top and bottom were Python 2 integers, lines 87-89 would floor-divide. The model does not cover that case.
- Freezing detection, distance travelled, distance from the bottom, left/right halves, calibration and a long-format reshape are not computed anywhere in this script, so nothing of them is modelled.

# nam-choreo-analyzer utilities in Dafny

This project models the three computational utilities of nam-choreo-analyzer. The tool reads an
animation log and analyses the rotation channels of a performance.

- **Statistics** (`src/utils/stats.js`):
  - `calculateStats` reads a channel's samples for a list of frames, where a missing frame reads 0.
  - It scans speed and acceleration by finite differences at 50 frames per second.
  - It keeps the first strict maximum of each, and lists every position where a per-channel limit
    is exceeded.
  - `frameToTimestamp` renders a frame number as `m:ss`.
  - `groupFramesIntoIntervals` sorts `[frame, magnitude]` events and merges runs of consecutive
    frames into `[start, end, peak]` intervals.
- **Section parser** (`src/utils/parser.js`):
  - `parseSection` finds the first `User Data: <name>` header, ignoring letter case.
  - It cuts the section at the next `User Data:` or `NULL OBJECTS` marker.
  - It collects every `Frame <digits>: <value>` line of the section into a frame-to-value map.
- **CSV export** (`src/utils/download.js`):
  - `downloadCSV` builds a header row and one row per frame.
  - It joins cells with `,` and rows with line breaks.
  - It derives the `.csv` file name from the loaded `.txt` name.

Modules:

- `Text` holds decimal digits, ASCII case folding, joining and splitting.
- `Series` holds frame-to-sample maps and events.
- `Stats`, `Intervals`, `Parser` and `Download` each follow one source function or file.

The loops of the source are methods with loop invariants:

- the two scans of `calculateStats` (`ScanDerivative`);
- the coalescing loop of `groupFramesIntoIntervals` (`CoalesceSorted`);
- the `exec` loop of `parseSection` (`CollectFrames`);
- the `forEach` that builds the rows (`BuildRows`).

Each of these methods is proved against a specification function or predicate. Lemmas state what
the source promises about those specifications: uniqueness, partition, ordering, last write wins,
and round trips.

The two regular expressions of the parser are written out as scanners:

- `LocateSection` with `FindHeader` and `SectionEnd` is the section expression.
- `MatchFrameAt` is the frame expression tried at one position.
- `NextMatch` and `Occurrences` are `exec` with the `lastIndex` cursor of a global expression.

The matcher reaches the search and the loop as a function-valued parameter (`Matcher`). Their
proofs rely only on its anchoring property (`Anchored`), and `FrameMatcherAnchored` establishes
that property for the frame expression.

Sample values are exact `real`s, and frame numbers are `nat`s. `parseFloat` and the
number-to-text conversion of the CSV cells are function parameters.

## Model

| member | source | states |
|---|---|---|
| Text.DecimalString | src/utils/stats.js:47-48 | The rendering of a whole number is a non-empty digit string that denotes it, with no leading zero, and is one character long exactly below 10. |
| Text.SplitJoin | src/utils/download.js:14 | Splitting a joined text at the separator gives the parts back when no part contains it. |
| Text.JoinAvoids | src/utils/download.js:14 | A character that is neither the separator nor in any part does not occur in the joined text. |
| Text.Join | src/utils/download.js:14 | `join` puts the separator between neighbouring parts only. When no part holds it, the joined text holds it exactly when there are two parts or more. |
| Text.DecimalValue | src/utils/parser.js:14 | The number a digit string denotes, as `parseInt(_, 10)` reads it. It is 0 exactly when every digit is 0, so leading zeros are read through. |
| Stats.Magnitude | src/utils/stats.js:17-26 | Speed and acceleration are never negative. Speed is 0 exactly when the two neighbouring samples are equal, and acceleration exactly when the two successive differences are equal. |
| Stats.Samples | src/utils/stats.js:4 | The value list has one entry per listed frame, in order: the frame's sample, or 0 when the channel has none. |
| Stats.ScanDerivative | src/utils/stats.js:16-32 | One pass computes the first strict maximum (0 and position 0 when no magnitude is positive) and the ascending list of exactly the positions whose magnitude is strictly above the limit, each with its magnitude. |
| Stats.CalculateStats | src/utils/stats.js:3-41 | Speed covers positions 1..n-1 and acceleration 2..n-1, both over the samples of the listed frames. Each gets its first maximum and its exceedances of the channel's limits, and the reported frames are positions in the list. |
| Stats.FirstMaxUnique | src/utils/stats.js:16-30 | The first-maximum specification admits one value and one position, so the result is determined by the samples. |
| Stats.RisingListsEqual | src/utils/stats.js:16-31 | Two event lists with strictly rising positions and the same members are equal. |
| Stats.ExceedancesUnique | src/utils/stats.js:16-31 | The exceedance specification admits exactly one list. |
| Stats.ExceedancesWithin | src/utils/stats.js:22 | Every reported exceedance lies at a scanned position, from the derivative's order up to the end of the samples. |
| Stats.AccelNeedsThreeSamples | src/utils/stats.js:25-31 | With fewer than three samples no acceleration exceedance is reported. |
| Stats.Remainder | src/utils/stats.js:47 | JavaScript's `%` with a positive divisor: the remainder lies in [0, divisor) for a non-negative dividend and in (-divisor, 0] for a negative one. |
| Stats.PadTwo | src/utils/stats.js:47 | `padStart(2, '0')`: the result is two characters long or the input's length if longer, ends with the input, and is zeros before it. |
| Stats.TimestampFields | src/utils/stats.js:45-47 | The floors of the real-valued minutes and of the seconds remainder are frame div 3000 and (frame div 50) mod 60. |
| Stats.Clock | src/utils/stats.js:48 | The template `${minutes}:${seconds}`: the minutes field is the decimal rendering of the minutes, with no leading zero, and the seconds field is two digits denoting the seconds. |
| Stats.FrameToTimestamp | src/utils/stats.js:44-49 | The text is `minutes:seconds`. The minutes field is exactly the decimal rendering of frame div 3000, so it has no leading zero. The seconds are exactly two digits and denote (frame div 50) mod 60. |
| Intervals.Insert | src/utils/stats.js:55 | Inserting adds exactly the one event to the multiset of events. |
| Intervals.InsertSorted | src/utils/stats.js:55 | Inserting into a list sorted by frame keeps it sorted. |
| Intervals.SortByFrame | src/utils/stats.js:55 | The copy is sorted by frame and is a permutation of the input. |
| Intervals.SortSorted | src/utils/stats.js:55 | Sorting a list already sorted by frame returns it unchanged. |
| Intervals.SortDistinct | src/utils/stats.js:55 | Sorting keeps frames distinct. |
| Intervals.Runs | src/utils/stats.js:58-79 | There are no runs exactly when there are no events, every run is non-empty, and the last run ends with the last event. |
| Intervals.Peak | src/utils/stats.js:60-74 | The peak is at least every magnitude of the run and equals one of them. |
| Intervals.Summary | src/utils/stats.js:71-79 | The `[start, prev, maxVal]` pushed for each run: its first frame, its last frame, and a peak that is at least every magnitude of the run and equals one of them. |
| Intervals.FlattenRuns | src/utils/stats.js:62-79 | The runs laid end to end are the sorted events, so every event lies in exactly one interval. |
| Intervals.RunsConsecutive | src/utils/stats.js:65-68 | Within a run each frame is its predecessor plus one. |
| Intervals.RunsBreak | src/utils/stats.js:69-74 | A new run starts only where the frame is not the previous frame plus one. |
| Intervals.RunsSplit | src/utils/stats.js:62-79 | The runs cut the events into consecutive stretches, in order, exactly at the breaks. |
| Intervals.RunSplitUnique | src/utils/stats.js:62-79 | Any cut of the events into consecutive stretches that cuts exactly at the breaks is the computed one. |
| Intervals.RunsFollow | src/utils/stats.js:55-76 | Over sorted events each run ends no later than the next begins, and strictly earlier when frames are distinct. |
| Intervals.IntervalsOrdered | src/utils/stats.js:58-79 | Over sorted events every interval has start <= end and the intervals ascend. With distinct frames the next start is at least the previous end plus 2. |
| Intervals.ExampleRuns | src/utils/stats.js:62-76 | Frames 5, 6, 7, 10, 11 fall into the runs 5..7 and 10..11. |
| Intervals.ExampleGrouping | src/utils/stats.js:51-81 | Frames 5, 6, 7, 10, 11 with magnitudes 1, 3, 2, 5, 4 give `[[5,7,3],[10,11,5]]`. |
| Intervals.ExpandSorted | src/utils/stats.js:51-81 | Expanding ascending, separated intervals into one event per frame gives events sorted by frame, none beyond the last end. |
| Intervals.SpansSplit | src/utils/stats.js:62-79 | The spans of such intervals are a run split of their expansion. |
| Intervals.RegroupExpanded | src/utils/stats.js:51-81 | Grouping the expansion of ascending, separated intervals gives the same intervals back. |
| Intervals.GroupingIdempotent | src/utils/stats.js:51-81 | Over distinct frames, grouping the expansion of a grouping result reproduces that result. |
| Intervals.SummariesExtendRun | src/utils/stats.js:65-68 | An event that follows the run in progress moves that run's end to the event and raises its peak only when the magnitude is strictly larger. |
| Intervals.SummariesStartRun | src/utils/stats.js:69-75 | An event that does not follow completes the run in progress and opens a one-event run of its own. |
| Intervals.CoalesceSorted | src/utils/stats.js:58-80 | The loop over the sorted events pushes one summary per run: first frame, last frame and peak. |
| Intervals.GroupFramesIntoIntervals | src/utils/stats.js:51-81 | The result is one summary per run of the sorted copy. It is empty exactly for empty input, ascends, and is separated by a gap when frames are distinct. |
| Parser.HeaderAt | src/utils/parser.js:3 | A header for the name starts at the position, letter case ignored. Every header also starts with the marker `User Data:`, so the next header ends the section before it. |
| Parser.BoundaryAt | src/utils/parser.js:3 | A `User Data:` or `NULL OBJECTS` marker starts at the position, letter case ignored. It lies within the text and opens with `u` or `n`. |
| Parser.FindHeader | src/utils/parser.js:2-6 | The result is the first header position at or after the start, or none when no header follows. |
| Parser.SectionEnd | src/utils/parser.js:3 | The end is the first marker at or after the start, or the end of the text. |
| Parser.LocateSection | src/utils/parser.js:2-9 | There is no section exactly when no header occurs. Otherwise the section starts at the first header and ends at the first marker after the header's name, or at the end of the text. |
| Parser.ExampleHeaders | src/utils/parser.js:2-5 | Headers match in any letter case and when the requested name is only a prefix of the name in the text. A header without its colon does not match. |
| Parser.RunLengthMaximal | src/utils/parser.js:10 | A greedy run holds only characters of its class and is not followed by one. |
| Parser.MatchFrameAt | src/utils/parser.js:10 | A match found at a position starts there and ends within the text, at least one character later. |
| Parser.MatchFrameAtSound | src/utils/parser.js:10 | A match has the frame-line shape. That is the literal `Frame `, at least one digit denoting the frame, the literal `: `, and a maximal non-empty run of `0-9 . - e E`. |
| Parser.MatchFrameAtComplete | src/utils/parser.js:10 | Text with the frame-line shape is matched, with exactly its digits and token. |
| Parser.ExampleFrameLine | src/utils/parser.js:10-14 | `Frame 12: -3.5e2 x` gives frame 12 and token `-3.5e2`. |
| Parser.ExampleLowerCaseFrame | src/utils/parser.js:10 | `frame` in lower case is not matched. |
| Parser.ExampleMissingSeparator | src/utils/parser.js:10 | A frame number not followed by `: ` is not matched. |
| Parser.NextMatch | src/utils/parser.js:13 | A match found by `exec` starts at or after the cursor and ends within the text. |
| Parser.NextMatchFound | src/utils/parser.js:13 | What `exec` reports is the match at its own start. |
| Parser.NextMatchLeftmost | src/utils/parser.js:13 | No match starts between the cursor and the reported match. |
| Parser.NextMatchNone | src/utils/parser.js:13 | When `exec` finds nothing, no match starts anywhere from the cursor on. |
| Parser.Occurrences | src/utils/parser.js:13 | The repeated `exec` search from the cursor reports at most one match per remaining character, because every match takes up at least one. |
| Parser.OccurrencesHits | src/utils/parser.js:13 | Each match of the repeated search is a match where it starts, no earlier than the previous match's end. |
| Parser.OccurrencesMisses | src/utils/parser.js:13 | No match starts at a position the repeated search skipped, including after the last match. |
| Parser.OccurrencesScan | src/utils/parser.js:10-13 | The repeated search is a complete non-overlapping left-to-right scan. |
| Parser.FrameLines | src/utils/parser.js:10-13 | The frame lines of a section are its complete non-overlapping left-to-right scan, and each has the frame-line shape. |
| Parser.Collect | src/utils/parser.js:12-17 | The map's keys are exactly the frame numbers of the matches. |
| Parser.CollectSnoc | src/utils/parser.js:16 | One more match sets its frame to its parsed token in the map built so far. |
| Parser.CollectLastWins | src/utils/parser.js:16 | A frame's value is the token parsed from its last match. |
| Parser.CollectFrames | src/utils/parser.js:10-18 | The `exec` loop builds the map of all matches of the repeated search, in order. |
| Parser.ParseSection | src/utils/parser.js:1-19 | The result is null exactly when no header occurs. Otherwise it is the map of the frame lines of the located section, which is empty, not null, when there are none. |
| Download.DataRow | src/utils/download.js:7-11 | A frame's row is three number cells: the structure, left-arm and right-arm samples of that frame, each the channel's own sample when it has one and 0 when it has none. |
| Download.Table | src/utils/download.js:5-12 | The rows are the header `0,1,2` and then one three-cell row per frame, in order. Each data row holds the structure, left-arm and right-arm samples, with 0 for a missing sample. |
| Download.TableSnoc | src/utils/download.js:6-11 | One more frame appends one more row. |
| Download.BuildRows | src/utils/download.js:5-12 | The header-then-push loop builds exactly that table. |
| Download.RowText | src/utils/download.js:14 | `r.join(",")`: an empty row gives the empty text, and a one-cell row gives that cell's text with no comma. |
| Download.CsvContent | src/utils/download.js:14 | The rows' lines joined with line breaks: no rows give the empty text, and a single row gives its line with no line break. |
| Download.HeaderText | src/utils/download.js:5 | The header line reads `0,1,2`. |
| Download.CsvRoundTrip | src/utils/download.js:14 | Splitting the CSV text at line breaks gives one line per row, and splitting a line at commas gives that row's cell texts. This holds when no cell text holds a separator. |
| Download.TableRoundTrip | src/utils/download.js:5-14 | The CSV text has one line more than there are frames. The first line is `0,1,2`, and each following line splits into the three formatted samples of its frame. |
| Download.ExampleCsv | src/utils/download.js:14 | The rows `["0","1","2"]` and `[1,2,3]` give `0,1,2`, a line break and `1,2,3`, with no trailing newline. |
| Download.HasTxtSuffix | src/utils/download.js:18 | `/\.txt$/i`: the name ends with `.` followed by `t`, `x`, `t`, each in either letter case. |
| Download.CsvFileName | src/utils/download.js:18 | The name ends in `.csv`, and what precedes that suffix is a prefix of the loaded name. |
| Download.CsvNameOfTxt | src/utils/download.js:18 | A `.txt` suffix in any letter case is replaced by `.csv`, and only that one suffix. |
| Download.CsvNameOfOther | src/utils/download.js:18 | A name without that suffix just gets `.csv` appended. |
| Download.DownloadCsv | src/utils/download.js:1-14 | The file name and the CSV text of the table of the result's frames and channels. |

## Left out

- `src/main.js` and `src/store.js` are not part of this model. They hold the user interface and its store, with no logic.
- The browser download is not modelled (`src/utils/download.js:15-20`): the Blob, the link element, the object URL, the click and the revocation.
- Floating-point rounding is not modelled. Speed, acceleration and `frameNumber / fps` use exact real arithmetic.
- `parseFloat` is a function parameter on the value token, so NaN for tokens such as `-` is not modelled.
- `parseInt` is exact on every digit string. Loss of precision beyond 2^53 is not modelled.
- The number-to-text conversion of CSV cells is a formatter parameter. `Download.TableRoundTrip` assumes the formatter never writes a comma or a line break.
- Parser.ParseSection: requires a section name without regular-expression metacharacters, which the source interpolates into the expression unescaped.
- Stats.CalculateStats: requires the channel to have limits. The source fails only when there are at least two samples, because the first scan then reads `limit.speed`; with fewer it returns without reading the limits.
- Case-insensitive matching folds ASCII letters only. The expressions' own literals are ASCII, but a section name with non-ASCII letters would match more case variants in the source.
- The map is a Dafny `map`, so the insertion order of JavaScript's `Map` is not modelled.
- Stats.FrameToTimestamp: takes only non-negative whole frame numbers. Negative and fractional frames are not modelled.
- The sort is a stable insertion sort, as `Array.prototype.sort` is stable. Only sortedness and permutation are stated, not stability.
- Intervals.GroupFramesIntoIntervals: Dafny sequences are values, so "the caller's array is not reordered" holds by construction and is not a separate property.
- Parser.CollectFrames: takes the frame matcher as a parameter and relies only on its anchoring property; `Parser.ParseSection` passes the frame expression's matcher.
- Resampling, interpolation and the merging of several performers' choreography appear in none of these files and are not modelled.

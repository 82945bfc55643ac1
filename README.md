# Astronomy helper scripts, modelled in Dafny

This project models three Ruby scripts from a collection of radio-astronomy helpers.

- **`eps_convert.rb`** rewrites the annotation part of a kvis EPS plot. kvis draws a coloured "+" as two short strokes after a colour line such as ` 1.0000   0.0000   0.0000  setrgbcolor`. For each colour asked for on the command line (red, green, blue, yellow, pink, in that order), the script repeats three steps until that colour's marker line is gone:
  - find the marker's region;
  - comment the region out with `%  `;
  - append, at the end of the annotations, a section comment, a white (black with `--switch`) header, the converted glyphs (cross, plus, circle or nothing), a black (white) header, and the glyphs once more.

  It then writes the header (everything up to `grestore`) and the new annotations to `<stem>_modified.<ext>`.
- **`ical.rb`** turns an HTML observing timetable into calendar events:
  - it splits the page into table rows;
  - it keeps the rows whose `C\d{4}` project code is requested;
  - it cuts the date, start-time and duration columns at their sentinels;
  - it emits one event per date, with the duration formatted as `T<h>H<m>M`.
- **`functions.rb`** (class `Astro`) is modelled in part:
  - the sexagesimal-to-degrees conversion `radec_to_deg`;
  - the reference subtraction `offset`;
  - the sign handling of `gc_to_hms`;
  - the decision logic of `overwrite?`.

Modules:

- `Wrappers`: `Result` and `Option`.
- `RubyText`: Ruby's `String#split` (trailing empty pieces dropped), the awk-style `split(" ")`, `join`, `File.readlines`, `puts`, `chomp` and `downcase`.
- `RubyNumber`: `String#to_f`, the strict `Float()` that `sprintf` uses on a String, `Integer#to_s`, `%02d`, `truncate`, `abs` and `% 1`. All of them are over exact reals.
- `EpsShapes`: the pure half of `eps_convert.rb`, meaning `str_pair?`, `cross`, `plus` and `circle`.
- `EpsConvert`: the marker lines, `capture_lines`, `comment`, and `bw_append` with its glyph loop.
- `EpsDriver`: the per-colour `while` loop, the header split, the output name, and the whole per-file pass.
- `Ical`: all of `ical.rb`.
- `Astro`: the `functions.rb` helpers.

Related properties of the two imperative scripts:

- The loops of the imperative scripts are `method`s with `while` loops. Each is proved equal to a specification function, and the source's promises are proved about those functions as lemmas:
  - `capture_lines`, `comment` and the glyph loop in `eps_convert.rb`;
  - the per-colour `while` loop (`ColourRounds`) and the loop over the requested colours (`ConvertAll`, inside `FileConversion`);
  - the column loops and the event loop in `ical.rb`.
- The marker-count argument is proved: each round removes exactly one occurrence of the colour's marker, and the appended text never contains a marker line. From that:
  - the `while` loop runs exactly as many times as the marker occurs;
  - the other colours' markers are left as they were;
  - every marker asked for is gone from the output.

## Model

| member | source | states |
|---|---|---|
| EpsShapes.ShapeNamed | eps_convert.rb:113-116 | "cross", "plus" and "circle" each select their own drawing. Every other name, "none" included, selects no drawing. |
| EpsShapes.PairIsCentreMatch | eps_convert.rb:93-99 | Two lines pair exactly when both midpoint differences lie within ±1e-5. The test is symmetric, and every line pairs with itself. |
| EpsShapes.CrossSegments | eps_convert.rb:58-72 | The cross keeps the centre (x from tokens 0/3 of the first line, y from tokens 1/4 of the second). Its extents are the box's extents times 2^-0.5, and the second diagonal mirrors the first. |
| EpsShapes.CircleArc | eps_convert.rb:79-84 | A circle can be drawn exactly when token 1 exists and `Float()` accepts it. Its centre is the x midpoint and that value, and its radius is the size option. |
| EpsShapes.RenderLines | eps_convert.rb:72-83 | The printed pieces of each shape concatenate to exactly that shape's text. That they are whole lines without a marker is `EpsDriver.RenderLinesPlain`. |
| EpsConvert.ColourMarkerShaped | eps_convert.rb:11-29 | Every colour's marker is one line: a space, a digit, and `setrgbcolor` plus newline at the end. |
| EpsConvert.MarkerLineInjective | eps_convert.rb:12-28 | Different colour components give different marker lines. |
| EpsConvert.RequestedColours | eps_convert.rb:136-141 | Every colour walked by the loop has a well-shaped marker, and no two of them share a marker. |
| EpsConvert.RequestedDistinct | eps_convert.rb:136-141 | The walked colours have pairwise different components, all taken from the five option constants. |
| EpsConvert.Count | eps_convert.rb:142 | An occurrence count of a line: zero exactly when the line is absent, and never more than the length. |
| EpsConvert.CountAppend | eps_convert.rb:142 | Counting over a concatenation adds the two counts. |
| EpsConvert.CountUpdate | eps_convert.rb:88 | Replacing one line changes the count by what left and what came in. |
| EpsConvert.MarkerEndsRegion | eps_convert.rb:142 | A marker line itself matches the region's end pattern. |
| EpsConvert.IndexOf | eps_convert.rb:48-49 | `index` is None exactly when the line is absent; otherwise it is the first position holding it. |
| EpsConvert.RegionStop | eps_convert.rb:51-54 | The scan stops at the first line at or after its start that matches `setrgbcolor` or `setlinewidth`, or at the end. |
| EpsConvert.FindRegion | eps_convert.rb:47-56 | The result is nil exactly when no line equals the marker. Otherwise `start` is the first exact match and `start <= end < length`. Every line in `start+1..end` fails the end pattern, and line `end+1` is absent or matches it. |
| EpsConvert.CaptureLines | eps_convert.rb:47-56 | The counting loop with `break` computes exactly that region. |
| EpsConvert.CommentRegion | eps_convert.rb:87-91 | The `sub!` loop over the region's lines computes the commented buffer. |
| EpsConvert.CommentedLines | eps_convert.rb:88 | After commenting, every line is either unchanged or starts with `%  ` and ends with the original line. |
| EpsConvert.CommentedRegionLines | eps_convert.rb:87-91 | When each region line is the first copy of itself and does not start with `%`, commenting changes exactly the lines `lo..hi`, each to `%  ` plus the line, and no other line. |
| EpsConvert.NoShapeDrawsNothing | eps_convert.rb:116 | With the shape "none" the glyph block is empty. It still fails when the region reaches the buffer's last line, whose partner is nil. |
| EpsConvert.GlyphsStep | eps_convert.rb:111-117 | One loop step appends the piece for line `i` and line `i+1`, or ends with that piece's error. |
| EpsConvert.GlyphsFailure | eps_convert.rb:111-115 | For every shape but the circle, the glyph loop fails exactly when its index range is not empty and ends on the buffer's last line, whose partner `lines[i+1]` is nil. Its only error is then the nil-line error. |
| EpsConvert.RewriteFailure | eps_convert.rb:107-117 | For every shape but the circle, a round's rewrite fails exactly when the region has a second line and ends on the buffer's last line. |
| EpsConvert.DrawGlyphs | eps_convert.rb:109-117 | The glyph loop concatenates, in index order over `start+1..end`, the drawing of every pair that passes `str_pair?`. |
| EpsConvert.SwitchSwapsColours | eps_convert.rb:101-105 | Header 1 ends with weight1 and header 2 with weight2. `--switch` exchanges only the white and black directives between them. |
| EpsConvert.BwAppend | eps_convert.rb:86-121 | `bw_append` returns the joined buffer with the region commented, then the section comment, header 1, the glyphs, header 2 and the glyphs again. It returns an error when a pair cannot be drawn. |
| EpsDriver.AppendedText | eps_convert.rb:119 | The appended part, seen as lines, concatenates to the section comment, header 1, glyphs, header 2 and glyphs. |
| EpsDriver.RenderLinesPlain | eps_convert.rb:72-83 | Drawing a pair of annotation lines yields only whole lines, none of which is a colour marker. |
| EpsDriver.GlyphsPlain | eps_convert.rb:111-117 | The whole glyph block of a region consists of whole lines, none of which is a colour marker. |
| EpsDriver.AppendedPlain | eps_convert.rb:101-119 | With one-line weights and name, nothing `bw_append` appends is a colour-marker line. |
| EpsDriver.Reflow | eps_convert.rb:145 | Re-splitting at newlines and adding a newline to each piece always gives whole lines. |
| EpsDriver.SplitWholeLines | eps_convert.rb:145 | Splitting whole lines at newlines gives each line without its newline, minus trailing empty pieces. |
| EpsDriver.ReflowLines | eps_convert.rb:145 | Re-splitting whole lines gives back a prefix of them, and only trailing blank lines are lost. |
| EpsDriver.CommentFirstCount | eps_convert.rb:88 | Commenting the first copy of a line removes one occurrence of a marker when that line is the marker, and none otherwise. |
| EpsDriver.CommentedWellFormed | eps_convert.rb:88 | Commenting keeps the buffer made of whole lines. |
| EpsDriver.CommentedKeeps | eps_convert.rb:88 | Commenting lines other than a marker leaves that marker's count unchanged. |
| EpsDriver.RegionCommented | eps_convert.rb:107-108 | Commenting the found region removes exactly one occurrence of its marker and keeps every other marker's count. |
| EpsDriver.ReflowAppended | eps_convert.rb:145 | Re-splitting the commented buffer plus the appended part keeps the buffer as a prefix, adds at least four lines, and adds no marker line. |
| EpsDriver.RoundFacts | eps_convert.rb:142-146 | One round lowers the colour's marker count by one and keeps every other marker's count. The commented buffer is a prefix of the result. |
| EpsDriver.ColourRoundsFacts | eps_convert.rb:142-146 | The repeated rounds, when they succeed, leave no copy of the marker. From whole lines they give whole lines and keep every other marker's count. For a shape other than the circle, their only failure is the nil-line error. |
| EpsDriver.ConvertColour | eps_convert.rb:142-146 | The `while` loop computes exactly the rounds `ColourRounds` defines. After it the marker is gone. On whole-line input the loop ran once per occurrence of the marker and other markers keep their counts. With no occurrence the lines are unchanged. |
| EpsDriver.SplitHeader | eps_convert.rb:131-133 | It fails when `grestore` is absent (nil + 1 raises). Otherwise the header runs to the first `grestore` line inclusive, and header plus annotations is the whole file. |
| EpsDriver.FirstFrom | eps_convert.rb:126 | The first position of a character at or after the start, or None exactly when there is none. |
| EpsDriver.LastBefore | eps_convert.rb:126 | The last position of a character before a bound, or None exactly when there is none. |
| EpsDriver.NameParts | eps_convert.rb:126 | `/(.*)\.(.*)/` fails exactly when the name has no dot. Otherwise it matches on the first line holding a dot: the stem runs from that line's start to its last dot, and the extension from there to the line's end. |
| EpsDriver.MatchAt | eps_convert.rb:126 | A whole line with no point before it, cut at a point with no later point on the line, satisfies every condition of the regular expression. |
| EpsDriver.LineMatches | eps_convert.rb:126 | The match built around the first dot satisfies every condition of that regular expression. |
| EpsDriver.LastPointUnique | eps_convert.rb:126 | Splitting at a dot with no dot after it determines stem and extension uniquely. |
| EpsDriver.OutputName | eps_convert.rb:125-127 | The output name is `stem_modified.ext`, and it is an error exactly when the name has no dot. |
| EpsDriver.OutputNameSimple | eps_convert.rb:126-127 | For `stem.ext` with no dot in `ext`, the output is `stem_modified.ext`. |
| EpsDriver.HeaderFacts | eps_convert.rb:129-133 | The header is whole lines and a prefix of the file. The annotations are whole lines when the file ends in a newline. |
| EpsDriver.ColourStep | eps_convert.rb:136-147 | Converting the next colour clears its marker and keeps every other marker still to be converted. |
| EpsDriver.ConvertAllUntouched | eps_convert.rb:136-147 | When none of the requested markers occurs, converting every colour gives back the annotations unchanged. |
| EpsDriver.FileUntouched | eps_convert.rb:124-148 | A file with a dot in its name and a `grestore` line, but no requested marker in its annotations, is written back with the same header and annotations. |
| EpsDriver.ConvertFile | eps_convert.rb:124-148 | The loop computes exactly `FileConversion`: output name, header split, then each requested colour's rounds in turn. It fails when the name has no dot or `grestore` is missing. Otherwise it keeps the header exactly and names the output from the input. On a newline-terminated file, no requested marker is left, and every other marker-shaped line keeps its count. |
| EpsDriver.WrittenPrefix | eps_convert.rb:148 | The written file starts with the header text exactly as read. |
| RubyText.DropTrailingEmpty | eps_convert.rb:145 | Ruby's `split` yields a prefix of the raw pieces, never ending in an empty piece, and drops only empty pieces. |
| RubyText.JoinSplitRaw | eps_convert.rb:145 | Joining the raw pieces of a split with the separator gives back the text. |
| RubyText.SplitRawLines | eps_convert.rb:145 | Splitting whole lines plus a tail at newlines gives each line without its newline, then the tail's pieces. |
| RubyText.Tokens | eps_convert.rb:59-60 | The awk-style `split(" ")` yields non-empty tokens without white space. |
| RubyText.ReadLinesFacts | eps_convert.rb:129 | The lines `readlines` returns concatenate to the file. Every line but the last ends in its only newline, and all of them do when the file ends in a newline. |
| RubyText.PutsPrefix | eps_convert.rb:148 | `puts` writes leading whole lines verbatim, before the rest. |
| RubyText.Chomp | functions.rb:11 | `chomp` drops at most two trailing characters and keeps a prefix. |
| RubyText.DowncaseY | functions.rb:12 | `downcase == "y"` holds exactly for "y" and "Y". |
| RubyNumber.ScanUnsigned | eps_convert.rb:61-64 | `to_f` reads no number exactly when no digit comes first, and what it reads is never negative. |
| RubyNumber.ReadFromBlank | eps_convert.rb:61-64 | `to_f` skips leading white space. |
| RubyNumber.StrictFloatAgrees | eps_convert.rb:82-83 | When `Float()` accepts a string, it gives the same value as `to_f`. |
| RubyNumber.ToFNegate | functions.rb:42 | `to_f` of a minus sign and a number is the number's negation. |
| RubyNumber.NatToStringRoundTrip | ical.rb:13 | The decimal text of a natural number reads back as that number. |
| RubyNumber.ToFOfIntToString | functions.rb:75 | `to_f` of an integer's decimal text is that integer. |
| RubyNumber.Pad2 | functions.rb:57 | `%02d` gives at least two characters: the digits of a non-negative number, or a leading `-`. |
| RubyNumber.Truncate | functions.rb:57 | `truncate` rounds toward zero. |
| RubyNumber.Frac | ical.rb:12 | `h % 1` lies in [0, 1), and subtracting it leaves a whole number. |
| Ical.HoursMinutes | ical.rb:10-12 | The hours are the floor of `h`, the minutes lie in 0..59, and together they are the floor of `h` in minutes. |
| Ical.Hours2hmWhole | ical.rb:10-14 | A whole number of hours `n` gives `TnH0M`. |
| Ical.Hours2hmHalf | ical.rb:10-14 | `n + 0.5` hours gives `TnH30M`. |
| Ical.FindCode | ical.rb:20 | The project-code pattern's first match at or after a position, or None exactly when it never matches. |
| Ical.ProjectCode | ical.rb:20-21 | It is absent exactly when the pattern never matches. Otherwise the code is `C` plus four digits, found framed by the cell tags in the row. |
| Ical.CodeFrame | ical.rb:20 | Where the pattern matches, its group is `C` plus four digits, framed by the two cell tags. |
| Ical.ProjectCodeLeftmost | ical.rb:20-21 | The code is taken from the leftmost position where the whole pattern matches. |
| Ical.ColumnPiece | ical.rb:25 | A row without the cell opener has no column, which is an error because nil has no `split`. A column that is there is the text after the leftmost opener, up to the next opener or the end of the row. |
| Ical.ColumnPresent | ical.rb:25 | When the leftmost opener is followed by text that does not start another opener, the column exists, is not empty, and is that text. |
| RubyText.SplitRawFirstPiece | ical.rb:25 | The first piece of a split runs from the start up to the leftmost separator or the end, and holds no separator. |
| RubyText.SplitRawAt | ical.rb:25 | Split at its leftmost separator, the text gives the part before it, then the split of what follows the separator. |
| RubyText.SplitRawNone | ical.rb:25 | A text without the separator splits into itself alone. |
| RubyText.SplitRawSecond | ical.rb:25 | The second piece of a split is the text from the leftmost separator to the next separator or the end. |
| Ical.TakeWhile | ical.rb:26-29 | The longest prefix of pieces that all pass the test, stopped by the first piece that fails. |
| Ical.TakeWhileUnique | ical.rb:26-29 | Any prefix with those three properties is that one. |
| Ical.CollectDates | ical.rb:24-29 | The dates are the longest prefix of the ` <br>` pieces not matching `Total`. |
| Ical.CollectStartTimes | ical.rb:31-36 | The start times are the longest prefix of the ` <br> ` pieces with a line starting in a digit. |
| Ical.CollectDurations | ical.rb:38-43 | The durations are the longest prefix of the `<br>` pieces without `valign`, each passed through `to_f` and `hours2hm`. |
| Ical.MapAllAt | ical.rb:42 | Converting every piece puts the conversion of piece `k` at position `k`. |
| Ical.MapAllAppend | ical.rb:42 | Converting a list with one more piece appends that piece's conversion. |
| Ical.AddRowEvents | ical.rb:45-56 | Exactly one event is appended per date. Event `i` starts at date `i` plus start time `i` and has duration `i` (nil past the list). Its summary is the project code. |
| Ical.ConvertRow | ical.rb:20-56 | One row's loop body appends exactly that row's events, or fails on a missing column. |
| Ical.CalendarStep | ical.rb:19 | One row of the page loop appends its events, or its failure ends the run. |
| Ical.BuildCalendar | ical.rb:17-57 | The page loop builds the events of all rows in order. |
| Ical.RowEventsFacts | ical.rb:20-56 | A row yields events only when its code is requested, and each of its events has that code as summary. |
| Ical.RowListSummaries | ical.rb:54 | Every event of a row carries the row's code. |
| Ical.RowEventsCount | ical.rb:45-55 | A requested row fails when its date column is missing, and yields as many events as dates. |
| Ical.CalendarSummaries | ical.rb:19-57 | Every event's summary is a requested project code of the form `C` plus four digits. |
| Ical.CalendarNoProjects | ical.rb:18-22 | With no projects requested the calendar is empty. |
| Astro.Magnitudes | functions.rb:42 | One field value per `:` field, each `to_f.abs`, so never negative. |
| Astro.WeightedIsProduct | functions.rb:42 | Field `k` is weighted by 1, 1/60 or 1/3600. |
| Astro.InjectProducts | functions.rb:42 | `inject` over the weighted fields is the sexagesimal sum. |
| Astro.Component | functions.rb:42 | A component fails with more than three fields (nil weight), is nil with no fields, and is otherwise `\|f0\| + \|f1\|/60 + \|f2\|/3600`. |
| Astro.ReadingCongruent | functions.rb:42 | Components with as many fields and the same sum read the same. |
| Astro.RadecToDeg | functions.rb:39-42 | It aborts with "Input array is not of size 2." unless there are two strings. It succeeds exactly when both have one to three fields. RA is 15 times its component, and Dec is negated exactly when the Dec string contains `-`. |
| Astro.SignedComponent | functions.rb:42 | A leading minus does not change a component, because `abs` drops it. |
| Astro.RaSignDiscarded | functions.rb:42 | A minus sign on the RA string changes nothing. |
| Astro.DecSignNegates | functions.rb:42 | A minus sign on an unsigned Dec string negates the Dec result and leaves RA alone. |
| Astro.ComponentNonNegative | functions.rb:42 | Every component value is non-negative. |
| Astro.ComponentOfHms | functions.rb:42 | `h:m:s` in whole numbers reads as `h + m/60 + s/3600`. |
| Astro.RadecToDegPair | functions.rb:42 | The result combines the two component readings: RA times 15 and Dec signed by its `-`. |
| Astro.RadecToDegOfReadings | functions.rb:42 | Given readable components `x` and `y`, the result is `[15x, ±y]`. |
| Astro.RadecToDegOfHms | functions.rb:39-42 | For `h:m:s` and `d:dm:ds`, the result is `[15(h + m/60 + s/3600), d + dm/60 + ds/3600]`. |
| Astro.RadecToDegOfHmsSouth | functions.rb:39-42 | For a Dec of `-d:dm:ds`, the Dec result is `-(d + dm/60 + ds/3600)`. |
| Astro.Differences | functions.rb:75 | `zip` then subtraction gives one entry per coordinate, `co[i] - ref[i]`. It fails, because nil cannot be subtracted, when the reference is shorter. |
| Astro.Offset | functions.rb:72-76 | One formatted text per coordinate, failing exactly when the reference is shorter. |
| Astro.OffsetAt | functions.rb:75 | With enough reference entries, entry `i` is the formatted `co[i] - ref[i].to_f`. |
| Astro.OffsetOfIntegers | functions.rb:75 | For integer references, entry `i` is the formatted `co[i] - n[i]`, and equal inputs give formatted zeros. |
| Astro.GcToHmsAsWritten | functions.rb:55-59 | As written, every entry but the second is its hms text, and the second is prefixed with `-` when negative. |
| Astro.GcToHmsDoubledSign | functions.rb:57-58 | As written, the second entry starts with `--` exactly when `gc[1] <= -1`. |
| Astro.GcToHmsAsWrittenExample | functions.rb:57-58 | `[0.0, -2.5]` gives a second entry starting with `--2:30`. |
| Astro.GcToHms | functions.rb:55-59 | The corrected conversion has the same entries except the second. |
| Astro.GcToHmsSign | functions.rb:58 | In the corrected conversion, the second entry starts with a single `-` exactly when `gc[1] < 0`, then a digit, and ends with the hms text of `\|gc[1]\|`. |
| Astro.GcToHmsAgrees | functions.rb:57-58 | When `gc[1] > -1`, the corrected and as-written conversions agree. |
| Astro.Overwrite | functions.rb:4-21 | The answer for each case: `force` removes and proceeds without prompting. A missing file proceeds. `ignore` declines silently. Otherwise it prompts and proceeds, after removing, exactly on an empty, `y` or `Y` answer. End of input is an error. |
| Astro.OverwriteDefault | functions.rb:11-17 | Pressing return, or answering `Y` with CRLF, removes and proceeds; answering `n` keeps the file. |

## Left out

- Command-line parsing (OptionParser), `File.readlines`, `File.open`, `File.read`, and the `puts` messages ("Found …", "Updated file", the prompts of `overwrite?`) are I/O. The model takes the file name, the contents and the chosen options as parameters and returns what would be written.
- `--interactive` is parsed by the script but never used, so it is not modelled.
- `sprintf("%.5f")`, `%.2f`, `%.3f` and `%.6f` are an uninterpreted `Formatter` parameter; decimal rendering is not modelled. The marker lemmas assume only that such output is one line.
- Floating point is not modelled: every number is an exact real. `2**-0.5` is its shortest decimal, and the 1e-5 tolerance is exact.
- `String#to_f` is modelled for an optional sign, digits, an optional `.digits`, and an optional exponent. Underscores between digits and the `.5` form without a leading digit are not modelled. The circle's `Float()` reading (`RubyNumber.StrictFloat`) uses the same scanner, so it also rejects `.5`, `1_0` and `0x1A`, which Ruby's `Float()` accepts.
- `EpsConvert.CommentFirst`: the regex `sub!` of `comment` is modelled as prefixing the first line that equals the region line. Regex metacharacters in an annotation line are not interpreted. A region line without a final newline, possible only on the last line of a file, is not matched as a line prefix.
- `EpsDriver.ConvertColour`: the exact round count and the other markers' kept counts are stated for input made of whole lines. For a file whose unterminated last line equals a marker without its newline, the first rewrite adds the missing newline and creates one more marker.
- `EpsDriver.ConvertFile`: the lemmas that require one-line weights, colour names and formatter output promise nothing about weights that contain a newline.
- `File.basename` is not modelled: the name given is taken as the base name.
- `DateTime.parse`, `new_offset`, `DateTime.now`, the `Icalendar` objects and `to_ical` are library calls. An event keeps its start as the text handed to `DateTime.parse` and its duration as the `hours2hm` text.
- `Astro.Offset`: the reference values are strings read with `to_f`; numeric references are modelled as their decimal text (`IntTexts`).
- `Astro.Overwrite`: `FileUtils.rm_rf` and the prompt text become the `removed` and `prompted` fields of the decision. The file's existence and the line read from standard input are parameters. End of input (nil) is an error, because `chomp` on nil raises.
- `Astro.cotra_radec` and `Astro.cotra_gc` run an external program, and `Astro.fitsfile?` is a file-system check.
- `Astro.radec_to_hms` (float formatting only) is not part of this model.
- `kvis-setup.rb` (desktop automation), `moment.rb` (external MIRIAD tasks run concurrently) and `spectrum_extractor.py` (FITS I/O and plotting) are not part of this model.
- Aborts and Ruby exceptions (a nil `split`, a nil in arithmetic) are modelled as `Err` results carrying a message. The process exit is not modelled.
- Coordinate tokens are read with `to_f`, which never fails and reads junk as 0.0. Only the circle's y value goes through `Float()`, and it can fail.
- `EpsShapes.CircleArc`: a `--size` given on the command line stays a String and reaches `sprintf("%.2f")` as one, where a non-numeric value raises. The model takes the size as a number already read, so that failure is not modelled.
- `EpsDriver.ConvertColour`: a weight that contains a newline followed by the colour's marker line puts a new marker into every round, so the `while` loop never ends. The requires `'\n' !in weight` excludes every weight that contains a newline. That covers these inputs and also weights on which the loop ends. This is a note on the code, not executed.

## Findings

| source | as written | input that shows it | evidently intended | confidence | as-written member | corrected member |
|---|---|---|---|---|---|---|
| functions.rb:57-58 | `truncate` keeps the sign of a negative latitude, and then `"-"` is put in front once more | `gc = [0.0, -2.5]` gives a second entry starting `--2:30:` | a single `-` in front of the hms text of `\|gc[1]\|` | not executed | Astro.GcToHmsAsWritten | Astro.GcToHms |

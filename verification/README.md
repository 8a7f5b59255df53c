# Derush sheet generator — timecode arithmetic and sheet assembly

A Dafny model of the computational core of `derush_sheet.py`, the script that
builds a derush (rushes log) sheet for a directory of `.MXF` video files. For
every clip the sheet records a start timecode (tc-in), an end timecode
(tc-out) and a duration; the rest of each row is left blank for the editor's
notes. The model covers:

- the timecode converter: `tc_to_frames` (`HH:MM:SS:FF` to an absolute frame
  count at the fixed rate of 25 frames per second) and its inverse
  `frames_to_tc` (floor division and modulo, each field formatted `02d`);
- the pure part of `get_video_info`: the inclusive out-point
  `in + duration_frames - 1`, the zero-timecode defaults for a missing tag and
  for a probe failure, and the `HH:MM:SS` duration built from
  `timedelta(seconds=...).seconds`;
- the table assembly in `main`: the fixed 8-field header, the case-sensitive
  `.MXF` filter, the regular-file check, one 7-field row per file in listing
  order, and a run that stops at the first error escaping `get_video_info`.

Files:

- `base.dfy` — `Option` and `Result`.
- `text.dfy` — the Python string operations the core relies on:
  `format(i, '02d')` with the decimal digit rendering inside it, `int(s)` on
  a field, `str.split`, `str.endswith`.
- `timecode.dfy` — `tc_to_frames`, `frames_to_tc` and their laws.
- `video_info.dfy` — `get_video_info` with the probe's outputs as inputs.
- `sheet.dfy` — the header, the file selection and the driver loop.

The probe (`ffprobe`) is replaced by its results. `Probe` is either
`ProbeFailed` (a subprocess error on either query) or `Probed(tag, duration)`.
Here `tag` is the stripped timecode output, and `duration` holds the two
rounded values the source derives from the float: `round(duration * FPS)`
frames and `round(duration)` seconds. It is `None` when `float` rejects what
the probe printed. A directory listing is a sequence of `Entry(name,
regularFile, probe)` in listing order, and the CSV file is the sequence of its
rows.

Behaviour of the code that the model keeps, where it differs from what one
might expect:

- Only `subprocess.SubprocessError` is caught in `get_video_info`. A tag that
  `tc_to_frames` rejects and a duration that `float` rejects raise
  `ValueError`, which escapes and ends the run. The rows written before it stay
  in the file, because each row is flushed. `Table.completion` records this as
  `Aborted(file, cause)`. A drop-frame tag such as `01:00:00;00` is one such
  tag (`DropFrameTagIsFatal`).
- Data rows have 7 fields while the header has 8: the `CHOIX` cell is never
  written.
- tc-in is the tag exactly as the probe printed it, not re-formatted.
- `frames_to_tc` does not wrap hours at 24 and accepts negative counts. A clip
  whose duration rounds to zero frames and starts at `00:00:00:00` gets the
  out-point `-1`, formatted `-1:59:59:24` (`OneFrameBeforeZero`). The round
  trip through `tc_to_frames` still holds for every integer, negative ones
  included.

## Model

| member | source | states |
|---|---|---|
| Text.ParseInt | derush_sheet.py:45 | `int` on a field; given meaning by `Text.ParseIntAccepts` (which fields it accepts and what it reads) and `Text.ParsePad2` (every `02d` field reads back as its number) |
| Text.ParseIntAccepts | derush_sheet.py:45 | `int` accepts a field iff it is decimal digits after at most one sign, reads the digits in base ten and negates them after '-'; every other field raises |
| Text.Pad2 | derush_sheet.py:55 | a `02d` field has at least two characters, all decimal digits except a leading '-', which is there iff the number is negative; it starts with '0' iff the number is in [0, 10), and a negative number has no zero after its sign |
| Text.ParsePad2 | derush_sheet.py:45-55 | `int` reads a `02d` field back as the number it was formatted from |
| Text.Pad2Width | derush_sheet.py:55 | a `02d` field is exactly two digits iff the number is in [0, 100) |
| Text.EndsWith | derush_sheet.py:129 | `str.endswith`; given meaning by `DerushSheet.MxfFiles` and `DerushSheet.LowerCaseSuffixSkipped` |
| Text.Split | derush_sheet.py:45 | every part of `tc.split(':')` is free of ':' and joining the parts with ':' gives back the string |
| Text.SplitJoin | derush_sheet.py:45 | splitting ':'-free parts joined by ':' returns exactly those parts |
| Timecodes.TcToFrames | derush_sheet.py:43-46 | `tc_to_frames`; given meaning by `Timecodes.TcToFramesAccepts` (when it raises), `Timecodes.TcToFramesReads` (what it reads, padded or not), `Timecodes.CanonicalTimecode` and `Timecodes.RoundTrip` |
| Timecodes.TcToFramesAccepts | derush_sheet.py:43-46 | `tc_to_frames` returns iff the tag splits on ':' into exactly four integer literals, padded or not; otherwise it raises |
| Timecodes.TcToFramesReads | derush_sheet.py:43-46 | four ':'-separated fields that `int` reads as HH, MM, SS, FF give ((HH*3600 + MM*60 + SS) * 25) + FF, whatever their spelling |
| Timecodes.ToFrames | derush_sheet.py:46 | the frame formula; given meaning by `Timecodes.DecomposeToFrames` and `Timecodes.Decompose`, which make it a bijection between in-range fields and frame counts |
| Timecodes.ReadFields | derush_sheet.py:45 | `map(int, ...)` unpacked into four names; given meaning by `Timecodes.ReadFieldsOfFields` and `Timecodes.TcToFramesAccepts` |
| Timecodes.FramesToTc | derush_sheet.py:48-55 | `frames_to_tc`: the floor-division fields, each `02d`, joined by ':'; given meaning by `Timecodes.RoundTrip`, `Timecodes.FramesToTcFields` and `Timecodes.FormatCanonical` |
| Timecodes.Decompose | derush_sheet.py:50-54 | the floor-division fields have frames in [0, 25), seconds and minutes in [0, 60), denote exactly the input frame count, and the hours are negative iff the count is |
| Timecodes.DecomposeToFrames | derush_sheet.py:50-54 | fields within those bounds are the only ones denoting their frame count |
| Timecodes.TcToFramesOfRender | derush_sheet.py:43-46 | any four integer fields, padded and joined by ':', are read by `tc_to_frames` as ((HH*3600 + MM*60 + SS) * 25) + FF |
| Timecodes.RoundTrip | derush_sheet.py:43-55 | `tc_to_frames(frames_to_tc(f)) == f` for every integer f |
| Timecodes.FramesToTcFields | derush_sheet.py:48-55 | for f >= 0 the output is four ':'-separated digit fields of at least two characters; minutes, seconds and frames are two digits and in range, and the fields add back up to f |
| Timecodes.FormatCanonical | derush_sheet.py:48-55 | `frames_to_tc` of the count that in-range fields denote renders exactly those fields |
| Timecodes.FramesToTcSpelled | derush_sheet.py:48-55 | `frames_to_tc` of the count that in-range fields denote is those fields' `02d` spellings joined by ':' |
| Timecodes.CanonicalTimecode | derush_sheet.py:43-55 | a two-digit-field `HH:MM:SS:FF` with MM, SS < 60 and FF < 25 denotes ((HH*3600 + MM*60 + SS) * 25) + FF frames, and `frames_to_tc` of that count returns the same string |
| Timecodes.HoursNotWrapped | derush_sheet.py:52-55 | one day of frames formats as `24:00:00:00`, so hours are not wrapped at 24 |
| Timecodes.OneFrameBeforeZero | derush_sheet.py:50-55 | frame -1 formats as `-1:59:59:24` |
| VideoInfo.OutPoint | derush_sheet.py:78 | the inclusive out-point; given meaning by `VideoInfo.OutPointIsLastFrame` and `VideoInfo.OutPointStrictlyIncreasing` |
| VideoInfo.OutPointIsLastFrame | derush_sheet.py:78 | laid out from its in-point, a clip of d >= 1 frames ends exactly on the out-point (the duration is counted inclusively) |
| VideoInfo.OneFrameClip | derush_sheet.py:78 | a one-frame clip's out-point equals its in-point |
| VideoInfo.OutPointStrictlyIncreasing | derush_sheet.py:78 | for a fixed in-point the out-point is strictly increasing in the duration in frames |
| VideoInfo.TcOutStrictlyIncreasing | derush_sheet.py:74-79 | for a fixed readable tag, the tc-out `get_video_info` writes denotes a strictly later frame for a clip of more frames |
| VideoInfo.FormatDuration | derush_sheet.py:85-89 | the `HH:MM:SS` duration; given meaning by `VideoInfo.DurationFields` and `VideoInfo.DurationDropsDays` |
| VideoInfo.DaySeconds | derush_sheet.py:85-86 | `timedelta(seconds=s).seconds` is in [0, 86400) and differs from s by whole days |
| VideoInfo.DurationFields | derush_sheet.py:85-89 | the duration is three two-digit fields with hours < 24, minutes and seconds < 60, and HH*3600 + MM*60 + SS equals the rounded seconds modulo 86400 |
| VideoInfo.ClockFields | derush_sheet.py:86-88 | the hours, minutes and seconds taken from a time of day are below 24, 60 and 60 and add back up to it |
| VideoInfo.DurationDropsDays | derush_sheet.py:85 | adding whole days to the duration does not change its string |
| VideoInfo.GetVideoInfo | derush_sheet.py:57-95 | `get_video_info` on the probe's results; given meaning by `VideoInfo.VideoInfoOutcomes`, `VideoInfo.TimecodeOut` and `VideoInfo.MissingTagDefaults` |
| VideoInfo.VideoInfoOutcomes | derush_sheet.py:57-95 | a probe failure gives (`00:00:00:00`, `00:00:00:00`, `00:00:00`); an unreadable float is an error; an empty tag gives the zero timecode for in and out; a non-empty tag succeeds iff `tc_to_frames` accepts it and otherwise raises naming the tag |
| VideoInfo.TimecodeOut | derush_sheet.py:74-79 | with a readable tag, tc-in is the tag as printed, tc-out is `frames_to_tc(in + duration_frames - 1)` and reads back as that frame, and the duration comes from the rounded seconds |
| VideoInfo.MissingTagDefaults | derush_sheet.py:80-82 | a missing tag makes both tc-in and tc-out `00:00:00:00` whatever the duration |
| VideoInfo.ZeroTimecodeIsFrameZero | derush_sheet.py:81-82 | the substituted zero timecode is `frames_to_tc(0)` |
| VideoInfo.ZeroTimecodeIsRead | derush_sheet.py:43-46 | `tc_to_frames("00:00:00:00")` is frame 0 |
| VideoInfo.OneFrameClipAtZero | derush_sheet.py:74-79 | a one-frame clip tagged `00:00:00:00` ends on `00:00:00:00` |
| VideoInfo.ZeroFrameClipAtZero | derush_sheet.py:74-79 | a clip tagged `00:00:00:00` whose duration rounds to 0 frames ends on `-1:59:59:24` |
| VideoInfo.ZeroDurationIsZeroSeconds | derush_sheet.py:95 | the substituted zero duration is the duration string of 0 seconds |
| VideoInfo.OneHourTimecode | derush_sheet.py:43-46 | `tc_to_frames("01:00:00:00")` is frame 90000 |
| VideoInfo.UnpaddedTimecode | derush_sheet.py:43-46 | fields need not be padded: `tc_to_frames("1:0:0:0")` is 90000, like `01:00:00:00` |
| VideoInfo.OneHourPlus249Frames | derush_sheet.py:48-55 | frame 90249 formats as `01:00:09:24` |
| VideoInfo.TenSeconds | derush_sheet.py:85-89 | 10 seconds format as `00:00:10` |
| VideoInfo.OneHourClipExample | derush_sheet.py:74-89 | tag `01:00:00:00` with 250 frames and 10 seconds gives (`01:00:00:00`, `01:00:09:24`, `00:00:10`) |
| VideoInfo.DropFrameTagIsFatal | derush_sheet.py:45 | a tag with ';' before the frames does not split into four fields, so the error escapes |
| DerushSheet.DataRow | derush_sheet.py:138 | the 7-cell row of one file; given meaning by `DerushSheet.DataRowShape` |
| DerushSheet.MxfFiles | derush_sheet.py:129 | the kept entries come from the listing and end with `.MXF`, and every listing entry ending with `.MXF` is kept |
| DerushSheet.Process | derush_sheet.py:133-139 | the loop over the `.MXF` names; given meaning by `DerushSheet.ProcessWritesRegularFiles` and `DerushSheet.ProcessRowShape` |
| DerushSheet.Derush | derush_sheet.py:123-139 | the table `main` leaves: header, then the loop's rows; given meaning by `DerushSheet.SheetContents` and `DerushSheet.DataRowShape` |
| DerushSheet.ProcessWritesRegularFiles | derush_sheet.py:133-139 | row k belongs to the k-th regular file; rows stop at the first file whose metadata raises, which the run names; the run completes iff every regular file got its row |
| DerushSheet.RegularMxfFiles | derush_sheet.py:129-135 | the suffix filter followed by the regular-file check selects exactly the `.MXF` regular files, in listing order |
| DerushSheet.SelectedFilesAreSelected | derush_sheet.py:129-135 | every selected entry is a `.MXF` regular file of the listing |
| DerushSheet.SelectedFilesKeepAll | derush_sheet.py:129-135 | every `.MXF` regular file of the listing is selected, so it gets its row unless an earlier file raises |
| DerushSheet.SheetContents | derush_sheet.py:123-139 | the table starts with the fixed 8-title header `Header` of :125 and then holds the rows of the selected files in listing order, up to the first failing file |
| DerushSheet.DataRowShape | derush_sheet.py:138 | every data row has 7 fields (one fewer than the header), starts with a `.MXF` name and ends with three empty strings |
| DerushSheet.ProcessRowShape | derush_sheet.py:133-138 | over `.MXF` entries the loop writes only 7-field rows whose name ends with `.MXF` and whose last three cells are empty |
| DerushSheet.NothingSelected | derush_sheet.py:125-139 | a listing without `.MXF` regular files yields the header alone and completes |
| DerushSheet.EmptyDirectory | derush_sheet.py:125-139 | an empty directory yields the header alone |
| DerushSheet.LowerCaseSuffixSkipped | derush_sheet.py:129 | the suffix test is case-sensitive: `A001.mxf` gets no row |
| DerushSheet.WriteRows | derush_sheet.py:133-139 | the loop over the `.MXF` names computes the recursive definition `Process` and writes rows in order up to the first failure |
| DerushSheet.RunDerush | derush_sheet.py:123-139 | the driver's table equals `Derush`, starts with the header, and every later row has 7 fields and a `.MXF` name |

## Left out

- `check_ffprobe` and the two `ffprobe` invocations (derush_sheet.py:31-41, 61-72): external processes. Their results are the `Probe` input.
- The directory-existence check, `os.listdir`, `os.path.isfile`, path joining, CSV writing, quoting and flushing (derush_sheet.py:110-139): filesystem I/O. The listing is a sequence of entries and the CSV is its sequence of rows.
- The fatal exits for a missing `ffprobe` or a missing video directory (derush_sheet.py:36-41, 118-120): they happen before any row is written and depend only on the environment.
- `float(...)`, `round(duration * FPS)` and `round(duration)` (derush_sheet.py:68, 77, 85): binary floating point with round-half-to-even. The two rounded integers are inputs and are independent of each other in the model.
- `str.strip` of the probe output (derush_sheet.py:65): the tag input is the already stripped string.
- `print_progress` and every console message (derush_sheet.py:97-103, 114-115, 131, 141): output only.
- The `OverflowError` `timedelta` raises beyond 999999999 days, and the errors `round` raises on infinite or NaN durations: both need a float the model does not carry.
- Text.ParseInt: accepts an optional sign followed by ASCII digits only. Python's `int` also accepts surrounding whitespace, `_` between digits and non-ASCII decimal digits; such tags are rejected here instead.
- `csv_to_pdf.py`: PDF layout through a rendering library whose behaviour is not part of this model.

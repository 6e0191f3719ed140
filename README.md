# reportgen core, modelled in Dafny

reportgen turns sensor log files into weekly PDF/HTML reports. A small Flask front end
accepts the uploads and queues report jobs in Redis. This project models the logic of
that pipeline that makes decisions, without running any of it:

- **report.py.** `sensor_stats` prunes sensors that have too few packets. It is a class
  whose stream dictionary is updated in place. `get_week_range` builds the list of
  Monday-to-Sunday report weeks. `report` selects which series are plotted.
- **aggregate.py.**
  - `transpose`, `find_range` and `limit_by_hours`: the working-hours window, which
    wraps past midnight.
  - `extract_stats`: the per-period, per-series idxmax/idxmin statistics. It is an
    imperative method proved against a recursive specification.
  - The reshaping loop of `tabulate`: a method proved against a fold over the series.
- **server.py and uploads.py.** Their shared helpers are `rkey`, `escape_filename`,
  `save_file`'s extension and whitelist logic, and the upload route's reply. Each file
  also has its own parse of the Redis host (and port) from the environment. server.py
  also builds the series list of `generate` from the form.
- **flask-uploads.py.** `allowed_file`, the filename character filter, and a session
  class. The session's `files` list is created and appended to by `upload`, reset by
  `clear_files` and read by the listing route.
- **graphing.py.** The layout arithmetic of `graph`:
  - which side an extra axis sits on, and its offset;
  - the palette cycling;
  - the y-limits given to each series;
  - which axes object a series is drawn on.

Time is integer seconds since the Unix epoch (UTC). Day numbers count from 1970-01-01, and
day 4 was a Monday. Python exceptions become `Option`/`Result` failure values, or a
`Crash` reply for a route. Functions the code calls but that are not part of this model are
parameters: werkzeug's `secure_filename`, the temporary-file name generator, the
environment and the set of existing Redis keys.

Where comments in the source and its code disagree, the model follows the code:

- report.py:51 says the default is temperature, humidity and light. The code selects
  `types[3:]`, the movement and signal plots.
- graphing.py:41 lists offsets in steps of 50. The multiplier at graphing.py:44 is 60.

## Model

| member | source | states |
|---|---|---|
| Report.Pruned | report.py:119-123 | the dictionary keeps exactly the sensors with more than one packet, each with its own rows unchanged |
| Report.SensorTable.SensorStats | report.py:119-130 | drops, in place, every sensor with at most one packet: the new table is `Pruned` of the old one, and the same table object is returned |
| Report.MondaysComplete | report.py:154-161 | `date_range(freq='W-MON', normalize=True)` lists a day iff it is a Monday between the two normalised days |
| Report.CandidateWeeksShape | report.py:154-162 | each (Monday, next Monday − 1 day) pair starts on a Monday, ends six days later, and the next pair starts the day after |
| Report.CandidateWeeksOrdered | report.py:162 | the candidate weeks are ascending and do not overlap |
| Report.CandidateWeeksCover | report.py:153-162 | every day between the first and last timestamp falls in one of the candidate weeks (padded by 7 days each side) |
| Report.WeekRangeAsWrittenKeeps | report.py:163-165 | as written, a week is kept iff a reading lies between its Monday 00:00 and its Sunday 00:00, and kept weeks stay ascending |
| Report.SundayReadingDropped | report.py:164-165 | as written, a report whose only reading is on a Sunday at noon gets no week; the corrected filter keeps that week |
| Report.WeekRangeKeeps | report.py:164-165 | a week is kept iff it is a candidate week holding some reading; kept weeks stay in ascending order |
| Report.WeekRangeCovers | report.py:153-166 | every reading within the data's time span lies inside one of the kept weeks |
| Report.SelectTypes | report.py:47-51 | with no series requested, the movement and signal plots are drawn |
| Report.SelectTypesListed | report.py:43-49 | with series requested, the plots are exactly those whose key is listed, in the fixed temperature … rssi order |
| Aggregate.Transpose | aggregate.py:113-114 | `zip(*l)` has one row per column of the shortest input row, and `r[j][i] == l[i][j]` |
| Aggregate.TransposeShape | aggregate.py:113-114 | an m-by-n rectangle transposes to an n-by-m rectangle |
| Aggregate.TransposeRagged | aggregate.py:113-114 | a shorter row truncates the result; an empty row empties it |
| Aggregate.TransposeTwice | aggregate.py:113-114 | transposing a non-empty rectangle twice gives it back |
| Aggregate.FindRange | aggregate.py:120-121 | `np.ptp`: fails only on an empty series; bounds every pairwise difference and is attained by one |
| Aggregate.FindRangeZero | aggregate.py:120-121 | the range is zero iff the series is constant |
| Aggregate.LimitByHoursSpec | aggregate.py:127-128 | keeps exactly the rows, with multiplicity and in order, whose time of day lies in the half-open window; applying it twice changes nothing |
| Aggregate.WorkHoursWindow | aggregate.py:30 | with the default hours a row is kept iff stamped in [09:00, 17:00) |
| Aggregate.IdxMaxOf | aggregate.py:72 | `idxmax`: the first position holding the largest value |
| Aggregate.IdxMinOf | aggregate.py:72 | `idxmin`: the first position holding the smallest value |
| Aggregate.StatForSpec | aggregate.py:72-77 | a statistic names a sensor of the period with that sensor's own value, which is maximal (idxmax) or minimal (idxmin) over the period |
| Aggregate.SeriesStatsSpec | aggregate.py:70-77 | a series gets one statistic per operation, in the operations' order |
| Aggregate.CollectPeriod | aggregate.py:65-77 | the nested loops build exactly the period's `stats` dictionary, `PeriodStats` |
| Aggregate.ExtractStats | aggregate.py:58-82 | the period loop builds exactly `StatsByPeriod` |
| Aggregate.StatsByPeriodKeys | aggregate.py:61-80 | the results dictionary has exactly the periods as keys |
| Aggregate.StatsByPeriodValue | aggregate.py:61-80 | a period no later period repeats (every period, when they are distinct as an index level's are) maps to its own `PeriodStats` |
| Aggregate.PeriodStatsKeys | aggregate.py:65-68 | a period's dictionary has exactly the operations' series as keys |
| Aggregate.PeriodStatsPerSeries | aggregate.py:65-77 | each series maps to one statistic per operation, in declaration order |
| Aggregate.DefaultOperationsDistinct | aggregate.py:33-52 | the default operations name Temp, Humidity and Light once each |
| Aggregate.ZipDictKeys | aggregate.py:144 | `dict(zip(headers, v))` has the headers that have a value as keys |
| Aggregate.ZipDictLast | aggregate.py:144 | a header that is not repeated later maps to its own value (the last one wins) |
| Aggregate.ReshapeFails | aggregate.py:142-143 | `t_data[0]` raises iff the series has no rows or an empty row |
| Aggregate.ReshapeStatRows | aggregate.py:142-144 | (label, name, value) rows with distinct labels give the labels as headers and two dictionaries, label→name and label→value |
| Aggregate.TablesSpec | aggregate.py:140-145 | the items fail iff some series cannot be reshaped; otherwise their keys are the `<series>_table` names, and each series not shadowed by a later one is stored as reshaped |
| Aggregate.Tabulate | aggregate.py:140-145 | the loop builds exactly the items dictionary `Tables` |
| Uploading.RKeyEmptySuffix | server.py:141-142 | an empty suffix is falsy and composes the same key as no suffix |
| Uploading.RKeySplit | uploads.py:120-121 | a key of colon-free parts splits back into those parts |
| Uploading.EscapeFilenameSpec | server.py:72-73 | the escaped name holds only `[a-zA-Z0-9-_.]`, deletes without reordering, keeps each allowed character's count, and is idempotent |
| Uploading.EscapeFilenameKeepsSafe | uploads.py:56-57 | a name the sanitiser leaves alone and that holds only `[a-zA-Z0-9-_.]` passes unchanged |
| Uploading.FileExtension | server.py:78 | the extension has no dot, is empty without a dot, else is the lower-cased text after the last dot |
| Uploading.FileExtensionOfJoin | uploads.py:62 | the extension of `stem.tail` is `tail` lower-cased |
| Uploading.TemporaryNameKeepsExtension | server.py:79 | the temporary name ends in `.` + extension and has the same extension |
| Uploading.SaveFile | server.py:76-97 | a file is saved iff it has a filename and its extension is listed; the record holds the escaped name, its lower-cased extension (a listed one), the temporary name `candidate.ext` whose extension reads back the same, and the file's size and content type |
| Uploading.NoExtensionRejected | uploads.py:60-81 | a name without a dot is rejected by both extension lists |
| Uploading.SaveFileByExtension | uploads.py:65 | when "" is unlisted and sanitises to "", the extension alone decides |
| Uploading.UploadRejectedCrashes | server.py:337 | as written, every upload `save_file` rejects (empty filename or unlisted extension) raises TypeError |
| Uploading.Upload | uploads.py:275-287 | 200 iff the file is accepted and new; otherwise 400, naming the rejected extension |
| Uploading.UploadAgrees | server.py:322-337 | the corrected route answers as the original wherever the original does not raise |
| Server.RedisAddress | server.py:43-45 | the host is the colon-free prefix of the setting; a setting without ':' gives (setting, 6379); otherwise the port is `int()` of the second ':'-field, and ValueError exactly when that field is not a number |
| Server.RedisAddressHostPort | server.py:43-45 | `host:port` reads back as (host, port) |
| Server.RedisAddressRejectsScheme | server.py:44 | a `redis://host:port` URL fails `int()` (ValueError) |
| Server.SeriesFromFormSpec | server.py:253-256 | the list holds a series name iff the form sends 'true' for it, in the fixed order |
| Server.FormSelectsPlots | server.py:253-256 | a ticked set of boxes selects exactly those plots; none selects movement and signal |
| Uploads.RedisHost | uploads.py:30-31 | fails (IndexError) iff the setting has no ':'; the host has no ':' |
| Uploads.RedisHostOfUrl | uploads.py:30-31 | `scheme://host` and `scheme://host:port` give `host` |
| Uploads.RedisHostDefault | uploads.py:30-31 | without REDIS_URL the host is REDIS_HOSTNAME, or 'localhost' |
| FlaskUploads.AllowedFileSpec | flask-uploads.py:46-48 | a name is allowed iff the text after its last dot is listed |
| FlaskUploads.AllowedFileRejectsUpperCase | flask-uploads.py:48 | the comparison is case-sensitive: 'A.TXT' is refused |
| FlaskUploads.LowerCasedExtensionAccepted | server.py:78 | server.py lower-cases the same name's extension and accepts it |
| FlaskUploads.AllowedFileExtensionListed | flask-uploads.py:14 | an allowed name's lower-cased extension is listed too |
| FlaskUploads.ListingAppend | flask-uploads.py:31 | listing one more record appends its (name, size) pair |
| FlaskUploads.UploadReply | flask-uploads.py:70-71 | 201 iff the file is allowed; otherwise 400 naming the escaped file name |
| FlaskUploads.UploadReplyAgrees | flask-uploads.py:50-71 | as written every refused upload raises UnboundLocalError; accepted ones get the same reply |
| FlaskUploads.UploadSession.constructor | flask-uploads.py:43 | a new session has no 'files' key |
| FlaskUploads.UploadSession.ClearFiles | flask-uploads.py:33-36 | 'files' becomes the empty list; reply ('Files cleared', 200) |
| FlaskUploads.UploadSession.Upload | flask-uploads.py:38-71 | creates the list when absent; appends exactly one record (escaped name, temporary name, size) for an allowed file and nothing otherwise; stored names stay safe; the reply is the corrected `UploadReply` (the as-written route raises UnboundLocalError on a refused file, see Findings) |
| FlaskUploads.UploadSession.ListFilesAsWritten | flask-uploads.py:29-31 | as written the listing succeeds only for an empty list (KeyError 'name') |
| FlaskUploads.UploadSession.ListFiles | flask-uploads.py:29-31 | fails only without 'files'; otherwise lists each record's (name, size) |
| Graphing.OrientFlip | graphing.py:37-38 | `orient(i, 1)` is the other side from `orient(i)`; 'right' iff i is odd |
| Graphing.OffsetValues | graphing.py:42-44 | axis 2k is pushed 60k to the left, axis 2k+1 60k to the right |
| Graphing.OffsetsSeparate | graphing.py:42-44 | from the third axis on, offsets are distinct and negative exactly on the left |
| Graphing.ExtraAxis | graphing.py:60-64 | an extra axis exists iff i > 1, twin_x and not twin_y; it is shown on the right iff i is odd, pushed outward by 60·⌊i/2⌋ (negative on the left), and the other side is hidden |
| Graphing.ColorFor | graphing.py:71 | `colors[i % len(colors)]` is in the list; an empty list fails |
| Graphing.ColorPeriodic | graphing.py:79 | with the default palette colours repeat every 20 series |
| Graphing.PaletteDistinct | graphing.py:122-124 | the 20 palette colours are pairwise different |
| Graphing.PaletteWindowDistinct | graphing.py:71 | any 20 consecutive series get different colours |
| Graphing.LineYLim | graphing.py:84-88 | a tuple applies to every series, a list's entry i applies, an empty list means none, a short list raises IndexError |
| Graphing.SeriesYLim | graphing.py:66-88 | 'vlines' pins (0, 1); other series get `LineYLim`; a short plot_func list raises IndexError |
| Graphing.TwinXYUnreachable | graphing.py:51-54 | as written no input reaches the twinned-both branch |
| Graphing.AxesFor | graphing.py:50-56 | TwinXY iff i > 0 and both twins; TwinX iff i > 0, twin_x, not twin_y; else the host |
| Graphing.AxesForAgrees | graphing.py:50-56 | without twin_y the corrected choice equals the original |

## Left out

- The data reading and cleaning pipeline: datahandling.py's file readers and pir2csv.py's CSV export, and the cleaning steps `dh.split_by_id` and `dh.clean_data` called at report.py:209-212, whose definitions are not part of this model.
- Flask routing, Redis, sessions, the file system, logging, JSON serialisation, jinja2 and PDF rendering are I/O. The values they produce are parameters, or they are not modelled.
- werkzeug's `secure_filename`: a parameter (any string function).
- The temporary-name generator is a parameter too.
- Report.WeekRangeAsWritten: readings are taken to be in time order. report.py:202 concatenates the files in the order given, without sorting, and on an index out of time order pandas' label slice at report.py:164 raises KeyError when a bound is not itself a timestamp; that KeyError is not modelled.
- Server.SeriesFromForm: the form is a map from field to one value. `request.form` is a MultiDict whose `form[k]` reads the first of repeated fields; repeated fields are not modelled.
- Aggregate.ExtractStats: statistics carry integer values. The source formats float values as `'{0:.1f}'` strings. Floating point is not modelled.
- Aggregate.FindRange: integers rather than floats.
- Aggregate.Tabulate: models the `items` dictionary only. The Flask-Table classes (`get_table`, `NestedTableCol`, `TopTable`) are rendering.
- Aggregate.PeriodStatsPerSeries: assumes distinct series names. The source's operations are a dictionary, so they are distinct there.
- Report.SensorTable.SensorStats: the log lines it prints are not modelled.
- Text.ParseInt: `int()` here accepts an optionally signed run of ASCII digits. The surrounding whitespace, digit-group underscores and non-ASCII Unicode digits that Python also accepts are not modelled.
- Text.Lower: lower-cases ASCII letters only; Python's `str.lower()` also maps non-ASCII letters. The names it sees have already been reduced to `[a-zA-Z0-9-_.]`, so no result here changes.
- Uploading.SaveFileByExtension: assumes the sanitiser maps "" to "", which werkzeug's does.
- Graphing.ColorPeriodic: stated for the default 20-colour palette only.
- Graphing.PaletteWindowDistinct: stated for the default 20-colour palette only.
- The matplotlib calls of `graph` and `weekly_graph` are left out: drawing, tick colours, `set_yscale`, titles, saving.
- `generate`'s map-file handling and the report worker thread are job plumbing around Redis, and are not modelled.

## Findings

| source | as written | input that shows it | evidently intended | confidence | as-written member | corrected member |
|---|---|---|---|---|---|---|
| report.py:164 | `df.loc[monday:sunday]` ends at Sunday 00:00, so Sunday's data after midnight does not count | only one reading, on Sunday 1970-01-11 at 12:00: no week is kept, and `weeks[0]` at report.py:54 raises | a week holds data on any of its seven days | not executed | Report.SundayReadingDropped | Report.WeekRangeKeeps |
| flask-uploads.py:71 | the rejection message formats `original_name`, which is bound only in the accepted branch | a PUT of 'a.exe': UnboundLocalError instead of a 400 reply | reply 400 naming the refused file | not executed | FlaskUploads.UploadReplyAgrees | FlaskUploads.UploadReply |
| server.py:337 | the rejection message subscripts `file_info`, which is None for a rejected file (same at uploads.py:287) | a PUT of 'a.exe': TypeError instead of a 400 reply | reply 400 naming the rejected extension | not executed | Uploading.UploadRejectedCrashes | Uploading.Upload |
| graphing.py:53 | `elif twin_x and twin_y` follows `if twin_x`, so it is never taken | twin_x = twin_y = True, i = 1: a plain twinx axis is used | the more specific test first | not executed | Graphing.TwinXYUnreachable | Graphing.AxesFor |
| flask-uploads.py:31 | the listing reads `fil['name']`, but records are stored with 'original_name' | one accepted upload, then GET /files: KeyError | list each record's original name and size | not executed | FlaskUploads.UploadSession.ListFilesAsWritten | FlaskUploads.UploadSession.ListFiles |

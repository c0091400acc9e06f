# afi_tracker in Dafny

afi_tracker is a Discord bot that tracks a game clan's rating. Every so often it fetches
the clan total and the rating of each member and stores the pair as a *snapshot*. It then
reports the *delta* between two snapshots: per member, the current rating and the change,
with leavers reported at the end. The report is an embed with a description and three
code-block columns.

This project models the core of that system and proves properties about it:

- **the delta engine** (`get_member_delta`, three copies). Module `Delta` models it over
  Python's `dict` semantics.
- **the report builder** (`generate_report`, two versions). Module `Report`, with the
  text helpers of `Text`.
- **the snapshot store** (`insert_rating`, `get_last_rating`, `get_rating_at_time`, two
  copies). Module `Store`, a class over a sequence of snapshots.
- **the report clock** of the configuration. Module `Schedule`.
- **the `/сравнить` and `/сегодня` slash commands**, reduced to the reply they choose.
  Module `Commands`, over the calendar arithmetic of `Calendar`.

Loops in the source are methods proved against the functions that specify them:
`Delta.ComputeDelta`, `Report.FormatDiffs`, and the report methods that call them. Insert
is a method of `Store.RatingStore` that appends to the history.

Two behaviours of the code are easy to expect otherwise, and the model states them as
the code has them:

- **Empty member lists.** A member absent from the old list is a joiner whose change is
  its rating, so a joiner rated 0 has a change of 0 and is dropped like any unchanged
  member (utils.py:55-56). The copies in utils.py and afi_tracker/utils/frontend.py also
  return no rows at all when either list is empty (utils.py:33-35,
  `Delta.GuardedMemberDelta`). Only the unguarded copy in frontend.py reports every
  member of an empty old list with a non-zero rating (`Delta.EmptyOldDictReportsJoiners`).
- **Snapshots stored in the same second.** `get_last_rating` orders by timestamp alone
  (afi_tracker/database/models.py:129), so of two snapshots with the same timestamp
  either may come back, and a snapshot's member rows come back in no fixed order. The
  model promises the appended snapshot, up to the order of its rows, only when its
  timestamp is strictly later than every other (`Store.LaterInsertIsLast`), and
  otherwise only its timestamp (`Store.LastAfterInsertHasItsStamp`).

## Model

| member | source | states |
|---|---|---|
| Delta.DictOf | utils.py:37-38 | `dict(pairs)` yields a dictionary whose keys are distinct and whose key set equals the map's domain |
| Delta.DictKeys | frontend.py:9-10 | the dict has a key for exactly the names of the list |
| Delta.DictLastWins | utils.py:37-38 | a name's rating in the dict is the rating of its last pair |
| Delta.DictOfDistinct | afi_tracker/utils/frontend.py:36-37 | with distinct names the keys are the names in list order, each with its own rating |
| Delta.SortByRating | utils.py:41 | the sorted names are a permutation of the keys |
| Delta.SortIsDescending | utils.py:41 | the sorted names are in non-increasing order of new rating |
| Delta.SortIsStable | frontend.py:11 | names with equal ratings keep the dict's key order (Python's sort is stable) |
| Delta.InsertKeepsOrder | utils.py:41 | inserting one name keeps the relative order of equal-rated names, with the inserted one first |
| Delta.InsertByRating | utils.py:41 | one step of the stable descending sort: `Delta.InsertKeepsDescending` keeps a descending list descending, and `Delta.InsertKeepsOrder` puts the name in front of equal-rated names |
| Delta.PresentRows | utils.py:44-56 | each loop row is a sorted name with its new rating (0 when absent) and its non-zero change; every name with a non-zero change has a row; rows follow the sorted order |
| Delta.NewRating | utils.py:45 | `new_dict.get(name, 0)`: the rows of `Delta.PresentRows` carry it as the current rating |
| Delta.Change | utils.py:46-52 | new minus old for a known name, the new rating for a joiner: the change each row of `Delta.DeltaRows` carries |
| Delta.Present | utils.py:43-56 | the rows of the loop over the sorted names, as `Delta.PresentRows` states them |
| Delta.LeaverRows | utils.py:59 | each leaver row is an old key missing from the new dict, reported as (name, old, -old); every such key has one; rows keep the old dict's order |
| Delta.Leavers | frontend.py:26 | the leaver comprehension, as `Delta.LeaverRows` states it |
| Delta.DeltaOf | utils.py:37-63 | the loop rows followed by the leavers: `Delta.DeltaRows`, `Delta.DeltaCoversChanges`, `Delta.DeltaLeaversLast`, `Delta.DeltaRatingOrder` and `Delta.DeltaNamesDistinct` state what it yields, and `Delta.ComputeDelta` is the loop that computes it |
| Delta.MemberDelta | frontend.py:8-28 | the unguarded `get_member_delta`: `Delta.EmptyNewDictReportsAllLeavers` and `Delta.EmptyOldDictReportsJoiners` give its empty-list cases, `Delta.ComputeMemberDelta` computes it |
| Delta.GuardedMemberDelta | utils.py:21-64 | the guarded `get_member_delta`: `Delta.GuardedAgreesWhenBothNonEmpty` states that it is empty when either list is empty and `MemberDelta` otherwise |
| Delta.DeltaRows | afi_tracker/utils/frontend.py:43-62 | a row of a name in the new dict has the new rating and change new-old (or new for a joiner), never 0; any other row is a leaver (old, -old) |
| Delta.DeltaCoversChanges | utils.py:55-63 | no member is lost: every non-zero change and every leaver has a row |
| Delta.DeltaLeaversLast | utils.py:59-63 | all leaver rows come after all rows of present names, and leavers follow the old dict's order |
| Delta.DeltaRatingOrder | frontend.py:11-24 | rows of present names are in non-increasing current rating, ties in the new dict's key order |
| Delta.DeltaNamesDistinct | utils.py:44-63 | no name appears in two rows |
| Delta.IdenticalDictsGiveNoRows | utils.py:55-56 | identical old and new dicts give no rows |
| Delta.EmptyNewDictReportsAllLeavers | frontend.py:26-27 | without the guard, an empty new list reports every old member as a leaver, in old order |
| Delta.EmptyOldDictReportsJoiners | frontend.py:14-24 | an empty old dict reports every new member with a non-zero rating as a joiner whose change is its rating, and nobody else |
| Delta.DisjointDictsReportEveryone | utils.py:44-63 | disjoint member sets with non-zero new ratings give one row per old and per new member |
| Delta.GuardedAgreesWhenBothNonEmpty | utils.py:33-35 | the guarded delta is empty when either list is empty and equals the unguarded one otherwise |
| Delta.WorkedExample | frontend.py:8-28 | old {A:100, B:50}, new {A:120, C:10} give [(A,120,+20), (C,10,+10), (B,50,-50)] |
| Delta.ComputeDelta | utils.py:43-63 | the loop with its append, then the appended leavers, yields exactly the rows `DeltaOf` specifies |
| Delta.ComputeMemberDelta | frontend.py:8-28 | the unguarded procedure yields `MemberDelta` of the two lists |
| Delta.ComputeGuardedMemberDelta | afi_tracker/utils/frontend.py:21-63 | the guarded procedure yields `GuardedMemberDelta` of the two lists |
| Text.IntToString | utils.py:129 | `str(n)` is a minus sign exactly for negative `n`, followed by one or more digits |
| Text.ParseInt | cogs/commands_cog.py:125 | `int(s)` succeeds exactly on an optional minus sign followed by one or more digits (so `"-"` and `""` raise), and gives a non-negative value without the sign; `Text.ParseIntToString` shows it inverts `str` |
| Text.ParseIntToString | afi_tracker/utils/frontend.py:128 | `int(str(n)) == n` |
| Text.Split | cogs/commands_cog.py:125 | `s.split(c)` has one more piece than `s` has separators, and no piece contains one |
| Text.Count | cogs/commands_cog.py:116 | `s.count(c)`: `Text.CountAppend` adds counts over a concatenation and `Text.CountAbsent` gives 0 without `c`; `Text.Split` ties it to the number of pieces |
| Text.Join | utils.py:111 | `c.join(items)`: `Text.SplitJoin` shows that splitting it at `c` gives the items back |
| Text.SplitJoin | utils.py:111 | splitting a newline join gives the items back when none contains a newline |
| Report.DiffCellRoundTrip | utils.py:133-141 | a diff cell reads back as its change; it is green with a plus sign exactly when the change is positive and red exactly when negative |
| Report.DiffCell | utils.py:133-141 | the cell of one change, whose meaning `Report.DiffCellRoundTrip` states |
| Report.ColumnRoundTrip | utils.py:126-130 | a code-block column reads back as its items |
| Report.Column | utils.py:126-130 | a fenced code block of the items joined by newlines, read back by `Report.ColumnRoundTrip` |
| Report.Columns | utils.py:125-153 | the three inline fields: `Report.NameColumnReadsBack`, `Report.RatingColumnReadsBack` and `Report.DiffColumnReadsBack` state what each lists |
| Report.NameColumnReadsBack | utils.py:126-127 | the first column lists the row names in order |
| Report.RatingColumnReadsBack | afi_tracker/utils/frontend.py:128-129 | the second column lists the current ratings in order |
| Report.DiffColumnReadsBack | utils.py:132-142 | the third column (`ansi`) lists the changes in order |
| Report.Truncate | utils.py:114 | `[:50]` keeps a prefix of length min(n, 50) |
| Report.TruncationDropsLeaversFirst | utils.py:114 | once a leaver is shown, every row truncation drops is also a leaver |
| Report.ReportOf | utils.py:90-91 | the report raises exactly when either list is empty; otherwise it carries the given title |
| Report.Description | utils.py:96-111 | the description text, whose lines `Report.DescriptionReadsBack` states |
| Report.DescriptionReadsBack | utils.py:97-111 | the description has 2 lines, or 3 when there is a 20th member; the second line states the new total and the third the 20th member's rating |
| Report.ReportFieldsIffChanges | utils.py:114-130 | the report has no columns exactly when the delta is empty, and otherwise its columns are those of the first 50 rows |
| Report.ReportDescriptionLines | afi_tracker/utils/frontend.py:116-121 | without columns, the description is the summary lines plus a blank line and the no-changes line; otherwise it is the summary lines alone |
| Report.ReportShowsDeltaPrefix | utils.py:114-153 | when the delta is non-empty, the report has three columns and the names column lists the first min(n, 50) delta rows |
| Report.LegacyReportOf | frontend.py:40 | the legacy report raises exactly when there is no 20th new member, and otherwise always has three columns |
| Report.LegacyAgreesWithCurrent | frontend.py:31-76 | with a 20th member and a non-empty delta, the legacy report equals the current one |
| Report.LegacyEmptyColumns | frontend.py:46-74 | with an empty delta, the legacy report keeps three columns of no rows, not the no-changes line |
| Report.EmptyColumns | frontend.py:48-63 | columns of no rows are empty code blocks, the third one headed `ansi` |
| Report.FormatDiffs | utils.py:132-141 | the diff loop yields one cell per row, as `DiffCells` specifies |
| Report.GenerateReport | utils.py:67-156 | the procedure, built on the delta loop and the diff loop, yields `ReportOf` |
| Report.GenerateLegacyReport | frontend.py:31-76 | the legacy procedure yields `LegacyReportOf` |
| Store.WholeSeconds | afi_tracker/database/models.py:108 | `replace(microsecond=0)` is the whole second containing the clock reading |
| Store.Newest | afi_tracker/database/models.py:156-162 | filter then `ORDER BY timestamp DESC LIMIT 1`: nothing exactly when no row passes the filter; otherwise a passing row with no later passing row |
| Store.RatingStore.Insert | afi_tracker/database/models.py:97-114 | a list with distinct names is appended, stamped in whole seconds; a list naming a member twice violates `uix_member_per_rating` and leaves the store as it was |
| Store.RatingStore.Last | models.py:49-58 | nothing exactly when the store is empty; otherwise a snapshot with the greatest timestamp |
| Store.RatingStore.AtOrBefore | models.py:61-78 | nothing exactly when every timestamp is after `t`; otherwise a snapshot at or before `t` with no stored timestamp strictly between it and `t` |
| Store.LaterInsertIsLast | afi_tracker/database/models.py:117-138 | after appending a snapshot later than all others, the latest snapshot is the one appended: same timestamp, same total, the same member rows in some order |
| Store.LastAfterInsertHasItsStamp | models.py:38-58 | after an append that is not earlier than any stored snapshot, the latest snapshot has the appended timestamp |
| Store.ExactStampIsFound | afi_tracker/database/models.py:158 | the filter is `<=`: a lookup at a stored timestamp finds that timestamp |
| Store.AtOrBeforeIsMonotone | models.py:65-67 | a later bound never finds an earlier snapshot |
| Store.LateBoundFindsLast | afi_tracker/database/models.py:141-170 | a bound no earlier than every timestamp finds the timestamp of the latest snapshot |
| Store.InsertThenReadBack | afi_tracker/database/models.py:97-138 | insert followed by `get_last_rating` returns the inserted timestamp, total and member rows (in some order) when the clock moved on; after a duplicate-name failure the store is unchanged |
| Store.StoredRowsMakeWholeDicts | afi_tracker/database/models.py:89-91 | the unique constraint makes every stored snapshot's rows build a dictionary with each member once, in row order, with its own rating |
| Schedule.RangeUp | config.py:78 | `range(start, stop, step)` is `start + k*step` for each k, all below `stop`; the next one would reach `stop` |
| Schedule.ReportTimes | config.py:75-79 | an interval of 0 raises; a negative interval gives no times |
| Schedule.Grid | config.py:76-79 | the comprehension over `range(0, 24 * 60, interval)`, whose times `Schedule.GridTimes`, `Schedule.ReportTimesCount` and `Schedule.ReportTimesStep` state |
| Schedule.ReportTimesGrid | config.py:75-79 | a positive interval yields the grid, and its first time is 00:00 |
| Schedule.GridTimes | config.py:76-78 | the k-th time is minute `k*interval` of the day as (x div 60, x mod 60) and is a valid clock time |
| Schedule.ReportTimesCount | config.py:78 | there are ceil(1440 / interval) times |
| Schedule.ReportTimesStep | config.py:78 | consecutive times are exactly `interval` minutes apart |
| Schedule.DefaultGridHas48Times | config.py:75 | the default interval of 30 gives 48 times |
| Schedule.EndOfDayReportTime | config.py:83-87 | the end-of-day time is the configured one, 01:05 by default; it raises exactly when out of range |
| Calendar.NextDay | cogs/commands_cog.py:67 | the day after a valid date has the next ordinal, across month and year ends |
| Calendar.Valid | cogs/commands_cog.py:129 | what the `datetime` constructor accepts: `Commands.TargetOf` succeeds exactly on a valid datetime |
| Calendar.Ordinal | cogs/commands_cog.py:129-133 | the proleptic Gregorian day number: `Calendar.NextDay` and `Calendar.OrdinalFollowsCalendar` show that it counts the valid dates in calendar order |
| Calendar.Seconds | cogs/commands_cog.py:133 | the instant of a datetime in seconds: `Calendar.InstantOrderIsCalendarOrder` shows that comparing instants is comparing datetimes |
| Calendar.OrdinalFollowsCalendar | cogs/commands_cog.py:129-133 | an earlier valid date has a smaller ordinal |
| Calendar.InstantOrderIsCalendarOrder | cogs/commands_cog.py:133 | comparing two datetimes as instants is comparing them field by field |
| Commands.ParseAll | cogs/commands_cog.py:125-126 | `map(int, parts)` succeeds exactly when every piece is an integer, and then gives each piece's value |
| Commands.ParseFields | cogs/commands_cog.py:125-126 | unpacking into n names succeeds exactly when there are n pieces and all are integers, and then the i-th value is the integer of the i-th piece |
| Commands.ParseTarget | cogs/commands_cog.py:124-129 | a parsed target is a valid datetime with zero seconds whose day, month and year are the values `ParseFields` reads from the date and whose hour and minute are those it reads from the time; either unpacking failing is malformed; the constructor overflows exactly when all fields parse but one does not fit a C `int`; the target exists exactly when both unpackings succeed and their values make a valid datetime |
| Commands.TargetOf | cogs/commands_cog.py:129 | the `datetime` constructor: overflow exactly when a field does not fit a C `int`, otherwise a datetime exactly when the fields make a valid one, carrying those fields with zero seconds |
| Commands.CompareCommandAsWritten | cogs/commands_cog.py:116-168 | as written, any reply other than the format error requires a date with exactly one dot |
| Commands.CompareCommand | cogs/commands_cog.py:111-168 | with the corrected normalisation, any reply other than the format error requires a date with one or two dots |
| Commands.NormaliseDateAsWritten | cogs/commands_cog.py:116-117 | the year appended to any date with fewer than three dots: `Commands.AppendYearAddsOneDot` and `Commands.AsWrittenNeedsOneDot` state its effect |
| Commands.NormaliseDate | cogs/commands_cog.py:116-117 | corrected, the year appended only to a date with fewer than two dots: `Commands.NormalisationsDifferOnlyOnFullDates` and `Commands.CorrectedNeedsOneOrTwoDots` state its effect |
| Commands.CompareAt | cogs/commands_cog.py:119-172 | the handler after normalisation, whose replies `Commands.CompareOutcome` states |
| Commands.Respond | cogs/commands_cog.py:144-168 | the reply shared by both commands once a baseline is looked up, as `Commands.RespondOutcome` states |
| Commands.TodayAt | cogs/commands_cog.py:64-65 | `now.replace(hour=day_start[0] + 1, minute=day_start[1], second=0, microsecond=0)`: `Commands.StartOfDay` states when it is valid |
| Commands.TodayCommand | cogs/commands_cog.py:59-97 | the `/сегодня` handler, whose replies `Commands.TodayOutcome` states |
| Commands.StartOfDay | cogs/commands_cog.py:64-67 | the boundary exists exactly when `replace` accepts `day_start[0]+1` and `day_start[1]`, and the one-day rollback stays after year 1's first day; it is that time today, less one day of seconds before 02:00 |
| Calendar.DayBeforeIsPreviousOrdinal | cogs/commands_cog.py:67 | `- timedelta(days=1)` on any valid date but 1 January of year 1 gives a valid date with the previous ordinal, one day of seconds earlier |
| Calendar.DayBefore | cogs/commands_cog.py:67 | `- timedelta(days=1)`, whose result `Calendar.DayBeforeIsPreviousOrdinal` states |
| Commands.AsWrittenNeedsOneDot | cogs/commands_cog.py:116-125 | as written, only a date with one dot can make three fields |
| Commands.FullDateRefusedAsWritten | cogs/commands_cog.py:111-142 | as written, every date with two dots (the documented `DD.MM.YYYY`) gets the format-error reply |
| Commands.ExampleFullDateRefusedAsWritten | cogs/commands_cog.py:116-142 | as written, `"15.03.2024"` gets the format-error reply |
| Commands.NormalisationsDifferOnlyOnFullDates | cogs/commands_cog.py:116-117 | the two normalisations differ exactly on dates with two dots |
| Commands.FieldsReadBack | cogs/commands_cog.py:125-126 | numbers written with `str` and joined by `.` or `:` read back as the same numbers |
| Commands.FullDateAccepted | cogs/commands_cog.py:111-129 | corrected, `d.m.y` and `h:mi` parse to the datetime they name |
| Commands.FullDateLookedUp | cogs/commands_cog.py:111-145 | corrected, a full date that is not in the future is looked up at its instant; as written, the same arguments get the format error |
| Commands.PaddedDateReads | cogs/commands_cog.py:111-125 | the documented example `"15.03.2024"` splits into three fields read as 15, 3 and 2024 (a leading zero is accepted) |
| Commands.DocumentedDateAccepted | cogs/commands_cog.py:111-129 | corrected, `"15.03.2024"` with the default time `"02:00"` parses to 2024-03-15 02:00:00 |
| Commands.DocumentedDateLookedUp | cogs/commands_cog.py:111-145 | corrected, `"15.03.2024"` with the default time is looked up at 2024-03-15 02:00 once that is not in the future; as written, the same arguments get the format error |
| Commands.ShortDateTakesCurrentYear | cogs/commands_cog.py:116-117 | both normalisations read `DD.MM` as that day of the current year |
| Commands.DefaultTimeIsTwoOClock | cogs/commands_cog.py:104 | the default time `"02:00"` reads as hour 2, minute 0 |
| Commands.OverflowReachesOuterHandler | cogs/commands_cog.py:116-172 | a field that does not fit a C `int` (and has at most 4300 digits) raises OverflowError, which `except ValueError` does not catch: the outer handler replies under either normalisation |
| Commands.ExampleOverflowingMonth | cogs/commands_cog.py:116-172 | `compare_date="1.3000000000"` with the default time gets the outer handler's reply |
| Commands.CompareOutcome | cogs/commands_cog.py:124-172 | format error exactly when the target is malformed; the outer handler's reply when a field overflows; refusal exactly when it is after now (so a target equal to now is looked up); no data exactly when nothing is stored at or before it; otherwise the shared reply |
| Commands.RespondOutcome | cogs/commands_cog.py:145-168 | no data exactly without a baseline; no changes exactly when the delta is empty; a report exactly when it is not, carrying the delta's columns; the report never raises |
| Commands.TodayOutcome | cogs/commands_cog.py:59-97 | the handler fails exactly when the boundary cannot be formed or the fetch fails; no data exactly when every snapshot is later than the boundary; the report never raises |
| Commands.EarlyBoundaryIsYesterday | cogs/commands_cog.py:64-67 | before 02:00 the boundary is `(day_start[0]+1):day_start[1]` on the previous calendar date (previous ordinal), and so in the past |
| Commands.LateBoundaryIsToday | cogs/commands_cog.py:64-65 | from 02:00 on, the boundary is `(day_start[0]+1):day_start[1]` today, and it is past exactly when that time has passed |
| Commands.DaytimeTodayUsesLatest | cogs/commands_cog.py:64-70 | with the default `day_start`, from 02:00 to 17:59 the boundary (18:00 today) is still ahead, so the baseline is the newest snapshot |

## Left out

- Fetching the ratings (the HTTP requests, retries and HTML parsing of both scraper.py files). The fetched total and members are a parameter. A failed fetch is `None` and leads to the outer handler's reply.
- Discord I/O: sending embeds and follow-ups, deferring interactions, the `database_command` file upload, `tasks.loop` scheduling. Each command is reduced to the `Commands.Reply` it would send. The reply wording is not modelled.
- The report cogs (cogs/report_cog.py, afi_tracker/bot/cogs/report_cog.py, report_cog.py) and afi_tracker/bot/cogs/commands_cog.py. They orchestrate fetch, insert, delta and send. Their own logic is not modelled:
  - the daily report's start of day. Only cogs/report_cog.py:127-129 uses the formula of `Commands.StartOfDay`. report_cog.py:48 and afi_tracker/bot/cogs/report_cog.py:125 use `now.replace(hour=day_start[0], ...)`, with no `+ 1` and no rollback to the previous day before 02:00;
  - the first-run acknowledgement ("clean start") when there is no stored baseline (cogs/report_cog.py:81-84);
  - the silent return on an empty delta (cogs/report_cog.py:88-90);
  - the `silence` flag that keeps the hourly run from sending a report (cogs/report_cog.py:93-94, :115);
  - the store error reply when `insert_rating` fails (cogs/report_cog.py:72-78).
- SQLAlchemy sessions, `init_db`, SQLite storage and commit/rollback. The store is a sequence of snapshots on one time base of whole seconds. Naive versus aware datetimes in SQLite are not modelled.
- Time zones: the fixed offset of `TIMEZONE` is the same for the clock, the stored timestamps and the targets, so all instants are counted on one base.
- `datetime.now()`: the current time and the current year are parameters (`now`, `localYear`). They may disagree near New Year, as the two calls in the handler can.
- The report title (`strftime` of now) and the rendering of the stored timestamp in the description (`str(datetime)`) are parameters, `title` and `showTime`.
- YAML and environment loading in config.py. A missing setting is `None` and takes its default; `int()` of an environment string is not modelled.
- Python `int()` accepts surrounding whitespace, a `+` sign and digit underscores. `Text.ParseInt` accepts only an optional `-` followed by decimal digits.
- Commands.ParseTarget: reads integer fields of any length. CPython (3.11, and 3.10.7 on) refuses to convert a decimal string of more than 4300 digits (`sys.int_info.default_max_str_digits`, settable by `PYTHONINTMAXSTRDIGITS`) and raises ValueError, so such a field gets the format-error reply, where the model reports an overflow and the outer handler's reply.
- Commands.OverflowReachesOuterHandler: holds in CPython only for fields of at most 4300 digits, for the same reason.
- Text.ParseInt: the same 4300-digit limit of `int()` is not modelled; `Text.IntToString` likewise ignores the limit of `str()`.
- `day_start` is given as two integers. A configured tuple of another length is not modelled.
- Store.Newest: promises a snapshot with the greatest admissible timestamp and its members up to order. The database fixes neither which of several rows with the same timestamp comes back nor the order of a snapshot's member rows. The model's own tie-break (the last one inserted) is not promised.
- Store.RatingStore.Last: promises only what `Store.Newest` promises, for the same reason.
- Store.RatingStore.AtOrBefore: promises only what `Store.Newest` promises, for the same reason.
- Report.RatingCells: promises only the length. The read-back of each cell is stated by `Report.RatingColumnReadsBack`.
- Report.DiffCells: promises only the length. The read-back of each cell is stated by `Report.DiffColumnReadsBack`.
- Store.RatingStore.Insert: does not model I/O errors of the database, only the unique-constraint failure.

## Findings

| source | as written | input that shows it | evidently intended | confidence | as-written member | corrected member |
|---|---|---|---|---|---|---|
| cogs/commands_cog.py:116 | the current year is appended to any date with fewer than three dots, so a full `DD.MM.YYYY` date gets a fourth field and fails the three-way unpack at line 125 | `/сравнить compare_date="15.03.2024"` always gets the format-error reply | append the year only to `DD.MM` dates (fewer than two dots), as the documented format at line 111 requires | not executed | Commands.CompareCommandAsWritten (Commands.FullDateRefusedAsWritten, Commands.ExampleFullDateRefusedAsWritten) | Commands.CompareCommand (Commands.FullDateAccepted, Commands.FullDateLookedUp, Commands.DocumentedDateAccepted, Commands.DocumentedDateLookedUp) |

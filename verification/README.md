# task_tracker in Dafny

A model of the rules inside the task_tracker Flask app, a family chore and
practice tracker: children (users) have recurring tasks with a frequency such
as `daily` or `Mon, Wed`; each day they mark tasks done, and the time of
completion is logged; a history page groups the log by date and gives each
date a 0/1/2 star rank; an AI-problems page shows generated questions, cached
per user, difficulty and day, at a difficulty level the child can step up and
down; a parent page edits tasks and users; and a fallback time-zone helper
picks US Pacific standard or daylight time by the US daylight-saving rule
(second Sunday of March to first Sunday of November).

The database tables are sequences of immutable records, and `.first()` is the
first row in sequence order. Every form action is a pure function from the old
tables to the new ones. Clocks, the OpenAI generator and the JSON log file
become parameters. Python's string and date built-ins the rules depend on
(`strip`, `lower`, `capitalize`, `split`, `int`, `strptime`, `weekday`,
`toordinal`, string order, list indexing with negative indices) are written
out in `text.dfy`, `calendar.dfy` and `seqs.dfy`.

Modules, one per component:

- `Records`: the four tables.
- `Schedule`: the frequency filter.
- `Streak`: the "latest completion before noon" check.
- `DailyTasks`: the daily task page.
- `History`: the history page.
- `Difficulty`: the difficulty lookup, setter and both controls.
- `QuestionCache`: `fetch_ai_problems` and its log.
- `AiProblems`: question extraction, age and the hint route.
- `ParentAdmin`: the parent page.
- `Pacific`: the fallback time-zone rule.

Two behaviours of the app are reproduced as written, not corrected:

- The daily page's before-noon check does not require every task to be Done.
- The history page pads every past date with the tasks due on today's weekday, not on that date's weekday.

## Model

| member | source | states |
|---|---|---|
| Difficulty.NewUserGetsDefault | models.py:17 | a user created without a level, under a new name, reads back level 10, the same value the lookup gives for an unknown name |
| Text.Strip | routes/tasks.py:27 | the result is a slice of the input with no leading or trailing Python whitespace, and only whitespace was removed |
| Text.Lower | routes/tasks.py:27 | same length; every ASCII upper-case letter is mapped to lower case and nothing else changes |
| Text.CapitalizedMatchIgnoresCase | routes/tasks.py:27 | two strings capitalize to the same text iff they are equal ignoring ASCII case |
| Text.Split | routes/tasks.py:27 | `str.split(sep)`: joining the parts with the separator gives the input back, and no part contains the separator |
| Text.SplitAtFirst | routes/ai_problems.py:52 | splitting `a + sep + b` where `a` holds no separator gives `a` followed by the parts of `b` |
| Text.ParseInt | routes/parent.py:33 | `int()`: a text parses to `v` only if, once stripped, it is an optional sign, any leading zeros and the decimal digits of the magnitude of `v`, with a minus only before a value that is not positive; blank text, a lone sign or any other character raises |
| Text.ParseIntIff | routes/parent.py:33 | both directions: a text parses to `v` exactly when its stripped form spells `v` that way |
| Text.ParseIntOfShowInt | routes/parent.py:67 | `int()` of any integer written in decimal gives that integer back |
| Text.LexLeTotal | openai_helper.py:62 | Python's string order is total, so timestamps can always be compared |
| Text.LexLeTransitive | openai_helper.py:62 | Python's string order is transitive |
| Calendar.Weekday | timezone_utils_fallback.py:23 | `date.weekday()` is a number in 0..6 |
| Calendar.WeekdayOfNextDay | timezone_utils_fallback.py:23-24 | `date.weekday()` advances by one, modulo 7, from every day to the next, across month and year ends |
| Calendar.WeekdayWithinMonth | timezone_utils_fallback.py:23-24 | moving `k` days forward within a month moves `date.weekday()` forward by `k` modulo 7 |
| Calendar.ParseTime | routes/tasks.py:69 | `strptime(s, "%H:%M:%S")` either fails or yields a valid time of day whose `HH:MM:SS` form is the parsed text itself |
| Calendar.FormatTime | routes/tasks.py:47 | `strftime("%H:%M:%S")` writes eight characters; with ParseTime and ParseFormattedTime it is the exact inverse of the parser |
| Calendar.ParseFormattedTime | routes/tasks.py:69 | a time written `HH:MM:SS` parses back to itself |
| Calendar.ParseDate | routes/ai_problems.py:47 | `strptime(s, "%Y-%m-%d")` either fails or yields a valid calendar date whose `YYYY-MM-DD` form is the parsed text itself |
| Calendar.FormatDate | routes/tasks.py:18 | `strftime("%Y-%m-%d")` writes ten characters; with ParseDate and ParseFormattedDate it is the exact inverse of the parser |
| Calendar.ParseFormattedDate | routes/ai_problems.py:47 | a date written `YYYY-MM-DD` parses back to itself |
| Schedule.IsDue | routes/tasks.py:27 | the due test as the source writes it (`lower() == "daily"` or the weekday among the stripped, capitalized parts); Schedule.IsDueIff characterises it independently |
| Schedule.IsDueIff | routes/tasks.py:27 | a task is due on a weekday iff its frequency lowered is "daily" or some comma part, stripped, equals the weekday's abbreviation ignoring case |
| Schedule.PartMatches | routes/tasks.py:27 | a part, stripped and capitalized, equals the abbreviation iff it equals it ignoring case |
| Schedule.DayNameIgnoresCaseAndBlanks | routes/tasks.py:27 | "mon" and " MON " are both due on Monday |
| Schedule.FullDayNameNeverDue | routes/tasks.py:27 | "monday" is never due |
| Schedule.DailyAlwaysDue | routes/tasks.py:27 | "daily" in any case is due every day |
| Schedule.SingleDayDueOnlyThatDay | routes/tasks.py:27 | a frequency naming one day is due on that day and no other |
| DailyTasks.DueTasks | routes/tasks.py:21-27 | exactly the user's tasks due on the weekday, as a subsequence of the task table (table order kept) |
| DailyTasks.EntryFor | routes/tasks.py:28-35 | a row takes the status of the first log with its title, or TODO with none; duration is the stored minutes or "as needed"; a time is shown only for a Done log |
| DailyTasks.LoadTasks | routes/tasks.py:9-36 | one row per due task of the user, in table order, each built from the day's logs |
| DailyTasks.LoadTasksShowsExactlyDue | routes/tasks.py:24-36 | every due task of the user gets a row built from today's logs, and a task not due today has no row with its frequency |
| DailyTasks.LoadTasksRowsAreDue | routes/tasks.py:24-36 | every row shown is due today and comes from one of the user's tasks |
| DailyTasks.StatusTime | routes/tasks.py:47 | a time is recorded iff the status is Done, and it is the current time |
| DailyTasks.LogTaskStatus | routes/tasks.py:38-56 | the first row with the key (user, title, date) is updated, or, when there is none, one row is appended carrying the fresh id, the key, the status, the time only for a done status, and no page numbers; rows with other keys and later duplicates are untouched |
| DailyTasks.UpsertTwiceKeepsOneRow | routes/tasks.py:49-55 | when the key had at most one row, two upserts of it leave exactly one row, holding the second status and time |
| DailyTasks.UpsertKeepsKeysUnique | models.py:29-37 | the table has no uniqueness constraint; the upsert preserves "at most one row per key" |
| DailyTasks.OtherKeyCountUnchanged | routes/tasks.py:49-55 | an upsert does not change how many rows any other key has |
| DailyTasks.CheckAllDoneBeforeNoon | routes/tasks.py:58-73 | true iff some row has a time and every shown time parses with hour below 12; a parse error gives false; statuses are not consulted |
| DailyTasks.BeforeNoonIgnoresStatus | routes/tasks.py:66-73 | a page with one task still TODO can be "all done before noon" |
| DailyTasks.MarkTask | routes/tasks.py:92-100 | the row index follows Python list indexing (negative from the end, out of range is an error); mark logs Done, unmark logs TODO, other actions change nothing |
| Streak.PresentTimes | routes/tasks.py:67 | keeps exactly the times that are present and non-empty |
| Streak.ParseAll | routes/tasks.py:69 | parses every time or fails when any fails |
| Streak.Latest | routes/tasks.py:69 | `max` of the parsed times: one of them, and no earlier than any |
| Streak.LatestHourBound | routes/tasks.py:69-70 | the latest time is before noon iff all times are |
| Streak.LatestBeforeNoon | routes/tasks.py:67-70 | true iff there is a time and every time parses with hour below 12 |
| Streak.BeforeNoonOf | routes/tasks.py:66-73 | the same rule over optional times: some present time, and every present time is a morning time |
| History.Details | routes/history.py:29-32 | a logged title takes the frequency and duration of the last task with that title, or "Unknown" and no duration |
| History.Group | routes/history.py:31-40 | the rows of a date are the logs of that date, in log order, with the task details |
| History.GroupHoldsItsLogs | routes/history.py:31-40 | each log of the date is in the group, every row comes from a log of the date, and a log for no task shows "Unknown" |
| History.TodoEntry | routes/history.py:53-60 | a padded row is TODO with no time and no page numbers, and the task's frequency and duration |
| History.Missing | routes/history.py:49-52 | exactly the tasks due on the weekday whose title is not logged, as a subsequence of the task table |
| History.Padding | routes/history.py:46-60 | one TODO row per missing task, in table order; every due, unlogged task gets its row, and every added row is such a task's with a title not logged |
| History.PaddingStep | routes/history.py:49-60 | one turn of the loop: one more task appends its TODO row after the earlier ones when it is due and unlogged, and nothing otherwise |
| History.PaddingKeepsLoggedTitles | routes/history.py:52 | padding never adds a second row for a title already logged |
| History.Star | routes/history.py:62-75 | 2 iff all rows are Done and the before-noon rule holds, 1 iff all are Done and it fails, 0 iff some row is not Done |
| History.UnparsableTimeGivesOneStar | routes/history.py:72-74 | an unparsable time on an all-done date gives that date one star |
| History.DayOf | routes/history.py:47-75 | a date's rows are its logged rows followed by the padding, and its star is computed from them |
| History.OtherDatesDoNotMatter | routes/history.py:47-75 | adding a log of another date does not change a date's rows or star |
| History.InsertKeepsDescending | routes/history.py:41 | inserting a date keeps the list strictly newest first |
| History.SortedDates | routes/history.py:41 | `sorted(keys, reverse=True)`: strictly descending, and exactly the logged dates |
| History.History | routes/history.py:19-75 | one day per distinct date of the user's logs, built from the user's logs and tasks |
| History.HistoryIsNewestFirst | routes/history.py:41 | the days are in strictly descending date order |
| History.HistoryDatesAreTheUsersDates | routes/history.py:20-41 | a date is shown iff the user has a log on it |
| History.LogLandsInOneDay | routes/history.py:31-40 | every log of the user appears in the day of its own date, and that day is unique |
| History.PastDaysUseTodaysWeekday | routes/history.py:46-51 | the same Monday date gets two stars when viewed on a Saturday and none when viewed on a Monday |
| Difficulty.GetUserDifficulty | openai_helper.py:24-35 | the stored level of the first user with the name, or 10 when there is none |
| Difficulty.UpdateUserDifficulty | openai_helper.py:127-137 | the first user with the name gets the level as given; with no such user nothing changes |
| Difficulty.GetAfterUpdate | openai_helper.py:127-137 | reading after writing gives the written level for a known user, 10 for an unknown one |
| Difficulty.SetterDoesNotClamp | openai_helper.py:134-137 | the setter stores any level, in range or not |
| Difficulty.TasksPageAdjust | routes/tasks.py:102-121 | increase at 20 or more warns and writes nothing, otherwise writes one more; decrease writes one less but not below 1; other actions do nothing |
| Difficulty.StepDifficulty | routes/ai_problems.py:93-103 | a missing level counts as 10; increase at 20 or more keeps it and warns, otherwise adds one; decrease is `max(1, d-1)`; other actions keep it |
| Difficulty.ChangeDifficulty | routes/ai_problems.py:86-107 | an unknown user changes nothing; a known user gets the stepped level written back |
| Difficulty.StepStaysInRange | routes/ai_problems.py:94-103 | a step keeps a level in [1, 20] in [1, 20] |
| Difficulty.ControlsKeepRange | routes/tasks.py:105-118 | both controls keep every level in [1, 20] |
| Difficulty.ControlsAgree | routes/ai_problems.py:92-105 | the task-page control and `change_difficulty` give the same table and the same warning |
| QuestionCache.LatestMatch | openai_helper.py:56-62 | no entry iff none matches user, difficulty and day; otherwise the first entry with the greatest timestamp among the matches |
| QuestionCache.StripFences | openai_helper.py:81-84 | removes a leading "```html" and then a trailing "```", each only when present |
| QuestionCache.StripFencesOfFenced | openai_helper.py:81-84 | a fenced reply is stripped back to its body |
| QuestionCache.SaveQuestions | openai_helper.py:94-125 | appends exactly one entry at the end and keeps every earlier entry |
| QuestionCache.FetchAiProblems | openai_helper.py:49-92 | a cache hit returns the latest match and leaves the log alone; otherwise a reply is stripped, logged and shown, and a failure shows the error text and logs nothing |
| QuestionCache.FetchAppendsAtMostOne | openai_helper.py:86-92 | a call appends at most one entry, and none when generation fails |
| QuestionCache.ForceRefreshIgnoresCache | openai_helper.py:52 | a forced refresh gives the same page whatever the log holds |
| QuestionCache.SecondCallIsCached | openai_helper.py:52-64 | with a clock moving forward, a second call the same day shows what the first showed and logs nothing |
| AiProblems.ExtractQuestions | routes/ai_problems.py:52 | at most three questions: the text after each of the first three `<li>`, with no `<li>` inside |
| AiProblems.CutAtClose | routes/ai_problems.py:53 | the result is a prefix with no `</li>`, and is either the whole text or followed by `</li>`: the text before the first closing tag |
| AiProblems.SelectQuestion | routes/ai_problems.py:32-53 | question `n` is item `n-1` cut at its `</li>`, counting from the end when `n-1` is negative as Python does; an index out of range fails |
| Seqs.PyIndex | routes/ai_problems.py:53 | Python list indexing: defined iff `-len <= i < len`, item `i`, or item `len + i` for a negative index |
| AiProblems.QuestionZeroIsTheLast | routes/ai_problems.py:32 | question number 0 selects the last extracted question |
| AiProblems.SelectFromRendered | routes/ai_problems.py:52-53 | rendering plain questions as a list and selecting question `k` gives question `k` back |
| AiProblems.Age | routes/ai_problems.py:49 | the age is the whole days since birth divided by 365, rounded down |
| AiProblems.FutureBirthGivesNegativeAge | routes/ai_problems.py:49 | a birth date after today gives a negative age |
| AiProblems.GetHint | routes/ai_problems.py:30-53 | a bad question number raises first; then an unknown user, then an empty date of birth stop the request; an unparsable date of birth or an out-of-range question raises; otherwise the result is the age from the date of birth and the selected question |
| AiProblems.HintForRenderedQuestions | routes/ai_problems.py:30-53 | end to end: with a date of birth stored as `strftime` writes it and a rendered list of plain questions, asking about question `k` gives the age from that date and question `k` itself |
| AiProblems.FetchingUser | routes/ai_problems.py:32-52 | the first question fetch is reached exactly when the question number parses and the first user of that name has a date of birth that is present and parses |
| AiProblems.EarlyExitIgnoresQuestions | routes/ai_problems.py:32-47 | a request that stops before the fetch has the same outcome whatever questions the cache holds |
| AiProblems.HintRoute | routes/ai_problems.py:30-77 | a request that stops before line 52 leaves the question log alone; otherwise the outcome is the one for the questions the first fetch shows, for the user's stored difficulty; the log only grows, by at most two entries |
| AiProblems.LogAfterHint | routes/ai_problems.py:74 | the second fetch happens only when a hint was reached; otherwise the log is unchanged |
| AiProblems.HintRouteLogsAtMostOne | routes/ai_problems.py:52-74 | with the clock moving forward, one hint request adds at most one entry, for that user: a list generated at line 52 is read back at line 74 |
| AiProblems.ErrorAfterFetchKeepsEntry | routes/ai_problems.py:52-53 | an out-of-range question raises at line 53 only after line 52 has generated and logged its list, so that entry stays in the log |
| ParentAdmin.ParseDuration | routes/parent.py:33 | an empty duration is none; a filled one is its integer, or an error |
| ParentAdmin.Checked | routes/parent.py:48 | the box counts as ticked iff the field is exactly "on" |
| ParentAdmin.AddTask | routes/parent.py:44-54 | a task is appended only when title and frequency are filled; the flag is set iff the box says "on", and with the box unticked the row is the default new task; a bad duration raises |
| ParentAdmin.FindTask | routes/parent.py:29 | the first task of the user with that title, or none |
| ParentAdmin.EditTask | routes/parent.py:23-35 | the first matching task gets the new fields; with no match nothing changes; a bad duration or a missing title or frequency raises |
| ParentAdmin.EditKeepsOthers | routes/parent.py:29-35 | editing changes only the matched task and keeps its id and owner |
| ParentAdmin.DeleteTask | routes/parent.py:37-42 | only the first matching task is removed; with no match nothing changes |
| ParentAdmin.DeleteKeepsOthers | routes/parent.py:37-42 | every other task stays, in order, and exactly one copy of the matched task goes |
| ParentAdmin.Clamp | routes/parent.py:68 | `max(1, min(20, d))` lies in [1, 20] and is `d` when `d` already does |
| ParentAdmin.FindUser | routes/parent.py:62 | `User.query.get(id)`: the first user with that id, or none when no user has it |
| ParentAdmin.EditUser | routes/parent.py:56-70 | with all four fields filled and the user found, name, birth date and clamped level are written; otherwise nothing changes; a non-integer level raises |
| ParentAdmin.EditUserKeepsRange | routes/parent.py:61-68 | editing a user keeps every level in [1, 20] |
| ParentAdmin.EditUserKeepsParents | models.py:18 | editing a user keeps every user's reference to an existing parent |
| ParentAdmin.SelectedUserId | routes/parent.py:10-16 | the requested user, or the first user when none is requested |
| ParentAdmin.SelectedTasks | routes/parent.py:17 | the tasks listed are exactly those of the selected user |
| ParentAdmin.DefaultShowsFirstUser | routes/parent.py:12-17 | with no user requested, a task is listed iff it belongs to the first user |
| Pacific.DaysToSunday | timezone_utils_fallback.py:23 | the day count to the first Sunday lies in 0..6 |
| Pacific.FirstSundayIsSunday | timezone_utils_fallback.py:22-24 | the computed first Sunday is a Sunday on day 1 to 7 of its month |
| Pacific.DstStart | timezone_utils_fallback.py:21-26 | daylight time starts in the given year, in March, on day 8 to 14, at 10:00 UTC |
| Pacific.DstStartIsSecondSunday | timezone_utils_fallback.py:25 | the start day is a Sunday |
| Pacific.DstEnd | timezone_utils_fallback.py:28-32 | daylight time ends in the given year, in November, on day 1 to 7, at 09:00 UTC |
| Pacific.DstEndIsFirstSunday | timezone_utils_fallback.py:31 | the end day is a Sunday |
| Pacific.DstStartBeforeEnd | timezone_utils_fallback.py:25-32 | in every year the start comes before the end |
| Pacific.OffsetHours | timezone_utils_fallback.py:35-38 | UTC-7 iff start <= now < end, UTC-8 otherwise |
| Pacific.UtcToPacific | timezone_utils_fallback.py:46-52 | a UTC value is shifted back seven hours when the clock is in the daylight-saving period and eight hours otherwise |
| Pacific.PacificToUtc | timezone_utils_fallback.py:54-60 | a Pacific value is shifted forward seven hours when the clock is in the daylight-saving period and eight hours otherwise |
| Pacific.OneClockOneShift | timezone_utils_fallback.py:46-60 | under one clock every value is shifted by the same amount, whatever the value |
| Pacific.ConversionsRoundTrip | timezone_utils_fallback.py:46-60 | with one clock, converting there and back is the identity both ways |
| Pacific.ClockChoosesOffset | timezone_utils_fallback.py:50-52 | a summer value converted while the clock reads winter gets UTC-8 |
| Pacific.IsBeforeNoonPst | timezone_utils_fallback.py:110-118 | true iff the text parses as `HH:MM:SS` with hour below 12; unparsable text gives false |
| Pacific.BeforeNoonOfFormatted | timezone_utils_fallback.py:110-118 | on a formatted time the check is "hour < 12" and agrees with the task pages' rule |

## Left out

- Database, sessions, `flash`, `render_template` and `redirect` are left out. Tables are sequences, a flashed warning is a returned flag, and a redirect is an outcome value.
- The OpenAI calls are left out. The question generator is an optional reply (`None` when it raises), and the hint text itself is not modelled.
- Reading and writing the JSON question log is left out; the log is a sequence. A save that fails on I/O is not modelled.
- `datetime.now()` and `date.today()` are left out. The date, weekday, time and UTC instant are parameters.
- Text.Lower, Text.Capitalize: map only ASCII letters; Python's Unicode case mapping is not modelled.
- Text.ParseInt: accepts ASCII digits only. Underscores between digits and non-ASCII digits, which Python's `int()` accepts, are rejected.
- Calendar.ParseTime, Calendar.ParseDate: accept exactly the zero-padded forms `strftime` writes (two-digit fields, four for the year). Python's `strptime` also accepts single-digit fields, which the model rejects.
- Pacific.UtcToPacific, Pacific.PacificToUtc: model naive values only, as whole seconds; an aware value's own offset is not modelled.
- Sub-second precision of the clocks is not modelled.
- The unique constraint on a parent's name is not modelled: no modelled action adds or changes parents.
- Column lengths (`String(50)`, `String(200)` and so on) are not enforced.
- Form ids are already-parsed integers. A missing `user_id` on add, edit or delete, and `int()` of `task_idx`, are not modelled.
- routes/parent.py:9 queries a `parent` column that the User model does not have; the user list is an input.
- AiProblems.HintRoute: a failed generation shows an error paragraph with no `<li>`, so line 53 then raises and line 74 is never reached. The model does not prove this about the error text, so its log bound still allows an entry from line 74 in that case.
- The `ai_problems` index route and the `refresh` route are not modelled. They call `get_user_difficulty` and `fetch_ai_problems`, which are modelled.
- `now_pst`, `format_pst_date`, `format_pst_time`, `format_pst_datetime` and `get_pst_weekday` are not modelled. They format the current clock; the weekday they give is a parameter of the history page.
- timezone_utils.py (a pytz wrapper), migrate_database.py, db.py, app.py and routes/home.py are not part of this model.

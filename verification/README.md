# Standup report core, modelled in Dafny

The `standup` command of this rtm-cli plugin prints a daily standup report from Remember The Milk tasks. It has three sections:
- what was completed on the previous work day;
- what was completed today;
- what is still due today.

Before querying anything, the command decides the report's dates and query strings:

- **The working-day calendar.** Monday to Friday are working days, except for ten listed holidays of 2021.
- **The previous working day.** Starting from today, the command steps back one day at a time until it reaches a working day.
- **Widening.** When at least one non-working day lies between the previous working day and today, the previous-day query is widened. It asks for tasks completed after the previous working day and before today, so weekend and holiday work is included.
- **The caller's filter.** This is the words of the first argument joined by single spaces.
- **Query strings.** Each one is `filter + " " + type + ":" + day`. For the widened query, `_getTaskNames` appends `":" + previousWorkday` after the type. The widened query therefore carries both bounds (`Filters.WidenedQuery`).

The command then runs three task queries in sequence. The first two results each print a header and one `    - <name>` bullet per task. The due result prints only bullets, directly after the today bullets. A failed query ends the run. The due list is printed without the names already completed today.

The model consists of these modules:

- `Dates`:
  - dates as integer day numbers (day 0 is 1970-01-01);
  - proleptic Gregorian conversion in both directions;
  - weekdays numbered as moment's `day()` numbers them (0 = Sunday);
  - the `DD/MM/YYYY` and `YYYY-MM-DD` texts and their parsers.
- `BusinessCalendar`:
  - the working-day rule as an immutable value;
  - the backward walk to the previous working day;
  - the gap test;
  - the configured standup calendar. Its holiday list is written as the `YYYY-MM-DD` texts of ten dates (`BusinessCalendar.HolidayTexts`), and `BusinessCalendar.HolidayTextsWritten` proves these texts equal the ten literal strings of standup.js:60-69.
- `Filters`:
  - the caller's filter;
  - the query strings;
  - how those strings read back as space-separated words.
- `Dedup`:
  - the order-preserving removal of completed names from the due list;
  - the nested loop that computes it.
- `Render`:
  - the bullet lines of a task list;
  - the printing loop.
- `Standup`:
  - the plan (dates, texts and the three queries) an invocation resolves to;
  - the report as nested callbacks;
  - the same report as a state machine driven by query results, and the proof that the two agree.
- `Scenarios`: worked examples around the Ascension holiday of 2021 (Thursday 2021-05-13).

## Model

| member | source | states |
|---|---|---|
| Dates.CivilRoundTrip | standup.js:76-77 | Every valid calendar date converts to a day number and back to itself, so distinct valid dates have distinct day numbers |
| Dates.CivilFromDaysNumber | standup.js:76-77 | Every day number is the day number of the date it converts to |
| Dates.CivilFromDaysValid | standup.js:76-77 | Every day number converts to a date that exists in the calendar; with the two round trips, the conversion is a bijection between valid dates and day numbers |
| Dates.NextDay | standup.js:76-77 | The date after a valid date is valid: the next day of the month, else the 1st of the next month, else 1 January of the next year |
| Dates.NextDayNumber | standup.js:76-77 | The date after a valid date has the next day number, across month ends, the end of February in leap and common years, and year ends |
| Dates.CivilFromDaysNext | standup.js:76-77 | Day `z + 1` is the calendar date after day `z`, so subtracting one from a day number (`subtract(1, 'd')`, and each step of the backward walk) gives the previous calendar date |
| Dates.DisplayRoundTrip | standup.js:75-76 | A date of years 0..9999 written as `DD/MM/YYYY` parses back, in that format, to the same date |
| Dates.IsoRoundTrip | standup.js:59-70 | A date of years 0..9999 written as `YYYY-MM-DD` (the holiday format) parses back to the same date |
| Dates.DayTextRoundTrip | standup.js:76-80 | The `DD/MM/YYYY` text of a day parses back to the same day, so re-reading the previous working day's text for the gap test loses nothing |
| Dates.DayTextCharacters | standup.js:76 | A day's text holds only digits, slashes and minus signs, and from year 0 on no minus sign, so it is one word of a query |
| Dates.ParseFixedDigits | standup.js:59-76 | Zero-padded fixed-width digits read back as the number they were written from, when it fits the width |
| Dates.Weekday | standup.js:58 | Weekdays are numbered 0..6 |
| Dates.DayText | standup.js:76 | A day's text has at least ten characters, with slashes at positions 2 and 5 (`DD/MM/YYYY`) |
| Dates.DayWithWeekday | standup.js:58 | Every run of seven consecutive days holds a day of each weekday |
| BusinessCalendar.IsWorkingDay | standup.js:57-71 | A holiday is never a working day. Under the Monday-to-Friday rule no Saturday or Sunday is a working day |
| BusinessCalendar.HasNonWorkingGap | standup.js:80 | The millisecond test `diff >= 1` between yesterday and the previous working day holds exactly when today is at least two days after the previous working day, that is, when yesterday is later than it |
| BusinessCalendar.StepBack | standup.js:76 | Walking back from a day ends on a working day no later than it, and every day skipped is a weekend day or a holiday |
| BusinessCalendar.PreviousWorkingDay | standup.js:76 | The previous working day is strictly before today, has a working weekday and is not a holiday, and every day strictly between it and today is not a working day |
| BusinessCalendar.PreviousWorkingDayUnique | standup.js:76 | Those properties determine the previous working day: any working day before today with no working day after it is that day |
| BusinessCalendar.PreviousWorkingDayStep | standup.js:76 | If yesterday is a working day it is the previous working day; otherwise today and yesterday share the same previous working day |
| BusinessCalendar.GapMeansNonWorkingYesterday | standup.js:77-83 | The widening test holds if and only if today minus the previous working day is at least two days, and if and only if yesterday is not a working day |
| BusinessCalendar.StandupCalendar | standup.js:57-71 | The configured calendar has a working weekday, so the backward walk always ends |
| BusinessCalendar.HolidayDays | standup.js:59-70 | Every entry that parses as a `YYYY-MM-DD` date of the calendar contributes that date's day number |
| BusinessCalendar.NonDateIgnored | standup.js:59-70 | A list whose one entry is the text of a non-date (a day past the end of its month, say) names no holiday |
| BusinessCalendar.February30Ignored | standup.js:59-70 | The entry `2021-02-30` adds no holiday |
| BusinessCalendar.IsoHolidayDays | standup.js:59-70 | A list of `YYYY-MM-DD` texts of valid dates of years 0..9999 denotes exactly the day numbers of those dates, in both directions |
| BusinessCalendar.Iso2021 | standup.js:59-70 | A date of 2021 is written as `2021-MM-DD` with the two digits of its month and of its day |
| BusinessCalendar.IsoTextsWritten | standup.js:59-69 | The `YYYY-MM-DD` texts of the ten holiday dates are `2021-03-08`, `2021-04-02`, ..., `2021-12-26`, in the source's order |
| BusinessCalendar.HolidayTextsWritten | standup.js:59-69 | The configured holiday list equals the ten literal strings of the source |
| BusinessCalendar.HolidayDatesPrintable | standup.js:59-69 | Every listed holiday is a valid date in a four-digit year |
| BusinessCalendar.StandupHolidays | standup.js:59-70 | The configured holidays are exactly the days of the ten listed dates |
| BusinessCalendar.HolidayDatesNumbers | standup.js:59-69 | The day numbers of the ten listed holiday dates |
| BusinessCalendar.StandupHolidayNumbers | standup.js:59-69 | A day is a configured holiday if and only if it is one of the ten listed day numbers |
| BusinessCalendar.StandupCalendarRule | standup.js:57-71 | The configured calendar is Monday to Friday minus exactly the listed holidays |
| Filters.CallerFilter | standup.js:73 | With no arguments, or a first argument holding no words, the filter is the empty string |
| Filters.JoinWords | standup.js:73 | Joining no words gives the empty string. Otherwise the text starts with the first word, and with two or more words a single space follows it |
| Filters.CallerFilterWords | standup.js:73 | The filter read back at single spaces is exactly the caller's words, in order, when they hold no spaces |
| Filters.SplitJoin | standup.js:73 | Joining space-free words with single spaces and splitting at spaces gives the words back |
| Filters.TypedFilter | standup.js:17 | A query is the filter, then one space, then `type:day`; its length is the sum of the parts plus two |
| Filters.CompletedQueryText | standup.js:17 | A `completed` query is the filter followed by ` completed:<day>` |
| Filters.DueQueryText | standup.js:17 | A `due` query is the filter followed by ` due:<day>` |
| Filters.QueryWords | standup.js:17 | A query adds exactly one word `type:day` after the filter's words |
| Filters.Widening | standup.js:82 | Spliced between `completed` and the query builder's `:`, the widening text reads `completedBefore:<today> completedAfter:` |
| Filters.WidenedQuery | standup.js:80-87 | With the widening text spliced into the type, the query is `filter completedBefore:<today> completedAfter:<previous day>`, with the second date appended by the query builder |
| Filters.WidenedQueryWords | standup.js:80-87 | The widened query reads as the filter's words followed by exactly two words: `completedBefore:<today>` and `completedAfter:<previous day>` |
| Filters.PreviousDayQuery | standup.js:77-87 | The previous-day query is the widened two-bound query when widening, and `filter completed:<previous day>` otherwise |
| Render.Bullets | standup.js:43-47 | One line per task, in list order, each the bullet prefix followed by the task's name |
| Render.BulletsReadBack | standup.js:43-47 | Reading the names back from the bullet lines gives the task list in order |
| Render.BulletsAppend | standup.js:43-47 | Printing two lists one after the other prints the bullets of their concatenation |
| Render.PrintTasks | standup.js:43-47 | The printing loop emits exactly the bullet lines of the list, and nothing for an empty list |
| Dedup.Without | standup.js:105-118 | The result is no longer than the due list. A name occurs in it if and only if it is due and equals no completed name. Each kept name occurs as often as in the due list, and each completed one not at all |
| Dedup.WithoutSnoc | standup.js:107-117 | One more due name extends the result by that name exactly when it was not completed |
| Dedup.WithoutPositions | standup.js:105-118 | The result is read off strictly increasing positions of the due list: exactly those positions whose name was not completed |
| Dedup.DistinctDue | standup.js:105-118 | The nested scan loop computes exactly the due names not equal to any name completed today |
| Standup.MakePlan | standup.js:73-102 | The plan holds the caller's filter and a previous working day. That day is strictly earlier than today, is a working day, and has no working day between it and today. Both date texts are single words. When yesterday was a working day, the previous-day query is `filter completed:<previous day>`. Otherwise it is `filter completedBefore:<today> completedAfter:<previous day>`, which reads as exactly those two date words after the filter's words. The today and due queries are the filter's words plus `completed:<today>` and `due:<today>` |
| Standup.PlanTexts | standup.js:75-76 | The plan writes today and the previous working day as their `DD/MM/YYYY` texts |
| Standup.Report | standup.js:85-127 | The greeting is always printed first. A failed first query issues nothing else and prints nothing else. A failed second query keeps the previous-day section (header, bullets, blank line) and issues no due query. Otherwise all three queries are issued in order. The lines are then the greeting, the previous-day section and the today section (header and bullets). After a failed due query nothing follows them; after a successful one, the bullets of the due names not completed today follow |
| Standup.DueFailurePrintsNoBullets | standup.js:102-122 | A failed due query prints the same report as an empty due list |
| Standup.DueBulletsFollowToday | standup.js:99-120 | The due bullets come right after the today section and list the due names not completed today |
| Standup.Start | standup.js:85-87 | Before any result the run waits for the previous-day result. The greeting is the only line printed, only the previous-day query is issued, and three queries remain |
| Standup.Step | standup.js:87-123 | A result never changes a finished run. A failure finishes the run without adding output. A success on an unfinished run leaves it unfailed with one query fewer left. A previous-day success issues the today query and prints the previous-day section. A today success issues the due query, prints the today section and keeps the names. A due success finishes the run, issues nothing, and prints the bullets of the due names not completed today. Output only grows |
| Standup.Run | standup.js:87-123 | After k results a run has 3 - k queries left or has finished; three results always finish it |
| Standup.RunMatchesReport | standup.js:87-127 | The state machine issues the same queries and prints the same lines as the nested callbacks. It ends in failure if and only if some query failed |
| Standup.OutputGrows | standup.js:87-127 | Lines and queries of a shorter run are a prefix of those of any longer run |
| Standup.NothingAfterFailure | standup.js:87-97 | After a failed query the run is finished, and nothing is issued or printed whatever results follow |
| Scenarios.MayDayNumbers | standup.js:76 | 2021-05-14 is a Friday and 2021-05-17 a Monday, with their day numbers |
| Scenarios.MondayAfterWeekend | standup.js:57-83 | On Monday 2021-05-17 the previous working day is Friday 2021-05-14, across a gap |
| Scenarios.TuesdayAfterMonday | standup.js:57-83 | On Tuesday 2021-05-18 the previous working day is Monday, with no gap |
| Scenarios.FridayAfterHoliday | standup.js:57-83 | On Friday 2021-05-14 the Ascension holiday is skipped back to Wednesday 2021-05-12, across a gap |
| Scenarios.CompletedNameDropped | standup.js:105-118 | Due A, B, C with B completed today leaves A, C |
| Scenarios.DayTextOf | standup.js:76 | The text of a valid date's day number is that date's `DD/MM/YYYY` text |
| Scenarios.MondayTexts | standup.js:76 | The texts of 2021-05-17 and 2021-05-14 are `17/05/2021` and `14/05/2021` |
| Scenarios.MondayReportQueries | standup.js:73-102 | With filter `list:Work` on 2021-05-17 the three queries are the widened query back to 14/05/2021, then `completed:17/05/2021`, then `due:17/05/2021` |

## Left out

- Remember The Milk access is not modelled: `rtm.config.user`, `user.tasks.get`, authentication, the network, `rtm.log` and `rtm.finish` (standup.js:19-36, 85, 89, 97, 122). Each query is an abstract result: `Some(names)` on success, `None` on failure. The printed lines and issued query strings are collected as values.
- The error path is not modelled past its failure signal. After `callback(null)` the source goes on to `tasks.forEach` (standup.js:24-32); that is I/O error plumbing. The spinner message of line 25 is also left out.
- No exit status is modelled. The code calls `rtm.finish()` on every path, including after a failed query, so nothing distinguishes a failed run except its output.
- Reading the clock for the default date is not modelled (standup.js:75). Today is a parameter, given as a day number.
- moment's parsing of arbitrary `--date` texts is not modelled. Today is a day number, and its text is its canonical `DD/MM/YYYY` rendering. The source prints and queries the caller's `--date` text verbatim, which is the same only when that text is already in canonical form.
- Times of day, milliseconds and daylight saving are not modelled in `diff` (standup.js:80). Days are whole, and the millisecond difference between two midnights is the number of days times 86400000. A 23-hour or 25-hour day would not change the outcome of the `>= 1` test.
- The global locale mutation is not modelled (standup.js:57). The calendar is an immutable parameter, and the configured one is `BusinessCalendar.StandupCalendar`.
- moment-business-days' own holiday lookup is not modelled. The model reads each entry as a `YYYY-MM-DD` date. An entry that names no date of the calendar, such as `2021-02-30`, adds no holiday (`BusinessCalendar.HolidayDays`).
- Command and option registration is not modelled (standup.js:133-164).
- BusinessCalendar.PreviousWorkingDay: requires some working weekday. With none, the library's backward walk would never end; the command always configures Monday to Friday.
- Dates.DisplayRoundTrip, Dates.IsoRoundTrip and Dates.DayTextRoundTrip: they hold only for years 0..9999. Below year 0, `Dates.YearText` prints a minus sign that `Dates.ParseDisplay` and `Dates.ParseIso` do not read back. Above year 9999, the four-digit year field keeps only the last four digits, so `Dates.DayText` itself loses the leading ones.
- Filters.CallerFilterWords: it holds only for words without spaces. A word that contains a space is indistinguishable from two words once joined, in the source as in the model.

# life-bot: a Dafny model of the bot's core

`bot.py` is a Telegram bot that shows a user their life as a grid of weeks. The user types a
birth date. The bot then replies with statistics and a picture. It also registers a weekly
update job, passing the birth date's `weekday()` number, and a daily job that sends a greeting on
the birthday. An operator can broadcast a
message to every known user, see counts and the median age, and export the list of user ids.

This project models the logic under the Telegram glue:

- `calendar.dfy` (module `Calendar`): proleptic Gregorian dates and day ordinals, as Python's
  `datetime` sees them.
  - Covers the leap rule, days and weeks lived, integer age, the greeting-day test and the days
    to the next birthday.
  - `datetime.today()` is an explicit `Moment`: a date plus microseconds since its midnight.
    Stored birth dates are midnights.
- `pytext.dfy` (module `PyText`): the pieces of Python's `str` and `int()` that the date entry
  uses.
  - `strip`, `replace`, `split` and `str(n)`.
  - `int()` on ASCII digits, with surrounding whitespace, an optional sign and single
    underscores between digits.
- `dateentry.dfy` (module `DateEntry`): the birth-date path of `handle_message` as a pure
  classification into its outcomes.
  - The three menu buttons.
  - The format error, the "could not recognise" error, the future-date error, and acceptance.
- `ages.dfy` (module `Ages`): `get_median_age`.
  - A loop that collects one age per active user with a stored birthday.
  - A sort proved sorted and a permutation.
  - The median of the sorted ages.
- `grid.dfy` (module `Grid`): the integer layout of `create_weeks_image`.
  - The canvas size, the row, column and rectangle of each cell, and the lived cells.
  - The five-year marks.
- `report.dfy` (module `Report`): the numbers that `generate_report_text` and `time_units`
  report.
- `jobs.dfy` (module `Jobs`): the job queue as a class.
  - Jobs with names `weekly_<uid>` and `birthday_<uid>`.
  - Cancel-then-register in `schedule_weekly_update` and `schedule_birthday_greeting`.
  - The cancellation that `stop` performs.
- `bot.dfy` (module `Bot`): the `bot_data` collections (`known_users`, `active_users`,
  `birthdays`), the job queue and the per-user `admin_mode` flag, in class `Bot`.
  - Each transition is first a function on values (`AfterStart`, `AfterStop`, `AfterEntry`,
    `AfterWeeklyFailure`, `AfterBroadcast`). Each of these states what happens to the user
    concerned and that every other user is untouched.
  - Each handler method is proved to perform exactly that transition.
  - A message delivery succeeds or fails according to an input: a `bool` for the weekly send,
    and a set of reachable users for the broadcast.
- `wrappers.dfy` and `sets.dfy`: `Option`, and the facts needed to pick an element from a
  non-empty set.

Three behaviours of the code are modelled as written:

- A failed weekly send drops the user from `known_users` and `active_users`. It keeps the stored
  birthday and both jobs.
- `admin_button` serves whoever presses the button: there is no operator check.
  `admin_message_handler` does check the operator id.
- A broadcast can drop an active user from `known_users` only. After that, `stop` answers "not
  subscribed" and cancels nothing (`Bot.StopIgnoresPrunedUser`). So "every active user is
  known" is not an invariant of the code (`Bot.BroadcastLeavesActiveUnknown`). What every
  handler does keep is "every active user has a stored birthday".

## Model

| member | source | states |
|---|---|---|
| Calendar.DaysInMonth | bot.py:251 | Month lengths are 28 to 31 days, and 29 exactly for February of a Gregorian leap year. These are the dates `datetime(year, month, day)` accepts. |
| Calendar.OrdinalOrder | bot.py:147 | The day ordinal follows the lexicographic order of (year, month, day) in both directions and is injective. This is the order in which `datetime` compares dates. |
| Calendar.DaysLived | bot.py:177 | `(today - birth_date).days` is the difference of the day ordinals, whatever the time of day. |
| Calendar.WeeksLived | bot.py:178 | `days // 7` is the number of whole weeks in the days lived. |
| Calendar.Weekday | bot.py:291 | `date.weekday()`: a number from 0 to 6, the same for two dates exactly when they are a whole number of weeks apart (see SameWeekdayIffWholeWeeks). |
| Calendar.WeekdayAnchors | bot.py:291 | Monday is 0 and Sunday is 6: 1 January 2024 gives 0, 7 January 2024 gives 6. |
| Calendar.SameWeekdayIffWholeWeeks | bot.py:214-215 | Today has the birth date's `weekday()` exactly when the days lived are a multiple of 7. |
| Calendar.AgeOn | bot.py:161-163 | The integer age is the number of completed years: the anniversary of that many years is not after today, and the next one is. It is non-negative from the birth date on. |
| Calendar.BirthdayInYear | bot.py:143-146 | `replace(year=y)` keeps the month and day. It falls back to the 28th exactly for a Feb-29 birth date in a year that is not a leap year. |
| Calendar.AddOneYear | bot.py:148 | `relativedelta(years=1)` gives the next year with the same month. The day is the same, except that Feb 29 becomes Feb 28 when the next year is not a leap year. |
| Calendar.GreetingDayIsBirthdayInYear | bot.py:249-260 | The greeting test holds on exactly one day of each year. That day is the birthday, or Feb 28 for a Feb-29 birth date in a year that is not a leap year. |
| Calendar.GreetingAgeIsAge | bot.py:262 | On the greeting day, `today.year - birth.year` equals the completed age. For a Feb-29 birth date greeted on Feb 28 it is the completed age plus one. |
| Calendar.NextBirthday | bot.py:147-150 | The next greeting day is a greeting day, is not before today, and comes no later than any other greeting day from today on. |
| Calendar.DaysToBirthday | bot.py:141-151 | Days to the birthday, by date (the intended reading). It lies in [0, 365], is 0 exactly on the greeting day, and equals the distance in days to the next greeting day. |
| Calendar.IsGreetingDay | bot.py:249-260 | The greeting day is the day with the birth month and day when that date exists in today's year, and otherwise the 28th of the birth month. |
| Calendar.DaysToBirthdayAsWritten | bot.py:141-151 | `get_days_to_birthday` as written always returns a number in [0, 365]. |
| Calendar.AsWrittenFloorsTimeLeft | bot.py:147-151 | For a birth date other than Feb 29, the code counts to the same birthday as `DaysToBirthday`. It rounds the time left down, so it reports one day less after midnight, except on the greeting day itself, and the same number at midnight. |
| Calendar.AsWrittenMissesTheDayItself | bot.py:147-151 | As written, on the greeting day itself at any time after midnight the result is at least 364, while the intended result is 0. |
| Calendar.AsWrittenOnTheBirthday | bot.py:141-151 | As written, a birth date of 1990-05-10 at 2024-05-10 09:00 gives 364 days; the intended answer is 0. |
| Calendar.AsWrittenLeapDaySkipsToFeb28 | bot.py:146-148 | As written, a birth date of 2000-02-29 on 2023-03-01 gives 364 days, counting to 2024-02-28. The greeting comes on 2024-02-29, 365 days away. |
| Calendar.BirthdaysOneYearApart | bot.py:148 | Two consecutive yearly greeting days are between 1 and 366 days apart. |
| PyText.StripIdempotent | bot.py:384 | Stripping twice gives the same as stripping once. |
| PyText.StripTrailing | bot.py:490 | Whitespace after a string with no whitespace at its ends is removed by `strip()`. This applies to the newline of an export line. |
| PyText.JoinSplit | bot.py:401 | Joining the pieces of `split(sep)` with `sep` gives back the string. |
| PyText.SplitJoin | bot.py:401 | Splitting pieces that contain no separator, once joined with it, gives back exactly those pieces. |
| PyText.ParseDecimalRoundTrip | bot.py:407 | `int(str(n)) == n` for every integer `n`. |
| PyText.LeadingZeroValue | bot.py:407 | A leading `0` does not change the value `int()` reads from a digit string. |
| PyText.TwoDigitsHasNoSeparators | bot.py:400-401 | The two-digit form of a number has no `.`, `/` or whitespace, so replacing, stripping and splitting leave it whole. |
| PyText.TwoDigitsRoundTrip | bot.py:407 | `int(f"{n:02d}") == n` for every integer `n`, and the text has no surrounding whitespace. |
| PyText.DecimalStringInjective | bot.py:274 | Different integers have different decimal strings, so different users get different job names. |
| DateEntry.MenuChoice | bot.py:386-394 | A stripped text is answered as a menu button exactly when it is one of the three button texts. |
| DateEntry.ClassifyEntry | bot.py:382-450 | An accepted entry is always a valid Gregorian date from 1900 on that is not after today. |
| DateEntry.CheckedDateIsGregorian | bot.py:408-415 | The range checks together with the `datetime` constructor accept exactly the valid (year, month, day) with the year from 1900 to this year. They return exactly those numbers. |
| DateEntry.EntryMenu | bot.py:386-394 | A text is intercepted as a menu button exactly when its stripped form is a button text. |
| DateEntry.EntryDispatch | bot.py:400-401 | Any other text is judged on `text.strip().replace("/", ".").strip().split(".")`. |
| DateEntry.PartsOutcome | bot.py:402-418 | For the split parts, the outcome is as follows. A count other than three is a format error. Three parts with a failing `int()` or a failing check are not recognised. A checked date after now is a future date. Otherwise the date is accepted, as exactly the typed numbers. |
| DateEntry.EntryBadFormat | bot.py:400-404 | The format error comes exactly for a non-button text whose split after the `/`-to-`.` replacement does not have three parts. |
| DateEntry.EntryUnrecognised | bot.py:405-415 | The "could not recognise" reply comes exactly when there are three parts and either `int()` fails on one, or the numbers are out of range or are no Gregorian date. This is the ValueError path at bot.py:449-450. |
| DateEntry.EntryFuture | bot.py:416-418 | The future-date reply comes exactly for a valid checked date whose midnight lies after the current instant. |
| DateEntry.EntryAccepted | bot.py:415-422 | A date is accepted exactly when it is the typed (day, month, year), is a valid date from 1900 on, and its midnight is not after the current instant. So today's date is accepted. |
| DateEntry.DayMonthTextRoundTrip | bot.py:393 | A day or month written as the prompt's two digits (`05`) or plainly (`5`) holds no separator and `int()` reads it back as the number. |
| DateEntry.FormatDateNumbers | bot.py:400-407 | `DD.MM.YYYY`, `D.M.YYYY` and their `/` forms split into three parts that `int()` reads back as the day, the month and the year. |
| DateEntry.EntryRoundTrip | bot.py:382-422 | Typing any valid date from 1900 up to today, zero-padded as the prompt's `05.03.1998` or unpadded as `5.3.1998`, with `.` or `/`, is accepted as exactly that date. |
| Ages.InsertSorted | bot.py:167 | Inserting into a sorted list keeps it sorted. The head becomes the smaller of the old head and the new element. |
| Ages.SortAges | bot.py:167 | `ages.sort()` gives a sorted permutation of the ages. |
| Ages.SortedUnique | bot.py:167 | Two sorted lists with the same elements are equal, so the sorted order does not depend on the order of collection. |
| Ages.MedianOfSorted | bot.py:168-169 | For a sorted list, the result lies between the two middle elements. For an odd count it is the middle element. |
| Ages.MedianWithinRange | bot.py:167-169 | The median of any non-empty list of ages lies between its minimum and its maximum. |
| Ages.MedianOfPermutation | bot.py:158-169 | The median depends only on the multiset of ages, not on the order of iteration over the set. |
| Ages.AgeBagRemove | bot.py:158-164 | The ages collected over a set of users are those of any one user plus those of the rest. |
| Ages.AgeBagSize | bot.py:158-164 | One age is collected per active user with a stored birthday. |
| Ages.CollectAges | bot.py:158-164 | The loop collects exactly the multiset of the completed ages of the active users with a stored birthday. |
| Ages.MedianAge | bot.py:153-169 | `get_median_age` returns the median of that multiset: 0 without active users or ages, otherwise the middle of the sorted ages. |
| Ages.MedianWithoutAges | bot.py:154-155 | The median is 0 when no active user has a stored birthday. This also covers bot.py:165-166. |
| Ages.MedianBetweenAges | bot.py:167-169 | Otherwise the median lies between two of the active users' ages. |
| Grid.CanvasSize | bot.py:83-84 | The canvas is 664 by 1200 pixels, and there are 4680 cells. |
| Grid.CellRow | bot.py:113 | Every cell index has a row below 90. |
| Grid.CellCol | bot.py:114 | Every cell index has a column below 52, and the row and column give back the index. |
| Grid.CellRect | bot.py:115-118 | Every cell rectangle has its corners 10 pixels apart in both directions, and lies inside the grid area and inside the canvas. |
| Grid.CellsDisjoint | bot.py:110-120 | Different cells never overlap. |
| Grid.LivedCells | bot.py:111 | `min(lived_weeks, total)` is at most 4680 and at most `lived_weeks`, and is one of the two. |
| Grid.LayoutCells | bot.py:110-120 | The cell loop produces, in row-major order, every cell's rectangle. A cell is marked lived exactly when its index is below `min(lived_weeks, 4680)`. |
| Grid.LivedCellsArePrefix | bot.py:111-120 | Exactly `min(lived_weeks, 4680)` cells are lived (none for a negative count), and they are the first ones. |
| Grid.YearMarks | bot.py:122-127 | The year loop makes 18 marks, for the years 5, 10, ..., 90. |
| Grid.MarkOnRowBoundary | bot.py:122-127 | Each mark's line spans the grid along the top edge of its year's row, or along the bottom edge of the grid for year 90. Its label sits 2 pixels below the line. |
| Report.CompareToMedian | bot.py:187-194 | There is no comparison exactly when the median is not positive. Otherwise the user is older, younger or the same age exactly as the user's age compares with the median. |
| Report.StatsFor | bot.py:176-194 | The report gives the days lived as an ordinal difference and the whole weeks. It gives the days to the birthday in [0, 365], which is 0 exactly on the greeting day, and the completed age. It gives the median and the comparison with it. |
| Report.GenerateReport | bot.py:171-185 | There is no report exactly when the user has no stored birthday. Otherwise the report is the user's numbers with the median age of the active users. |
| Report.TimeUnitsFor | bot.py:337-347 | `time_units` has nothing to report exactly without a stored birthday. Otherwise the days are the days lived. |
| Report.TimeUnitsAreWholeDays | bot.py:344-347 | The hours, minutes and seconds are 24, 1440 and 86400 times the days. The seconds are the time since the birth midnight, rounded down to a whole day. |
| Jobs.JobNamesDistinct | bot.py:274-286 | `weekly_<a>` equals `weekly_<b>` exactly when a equals b, and likewise for `birthday_<a>`. A weekly name never equals a birthday name. |
| Jobs.JobsNamedMembers | bot.py:274 | `get_jobs_by_name` returns exactly the queued jobs with that name. |
| Jobs.JobQueue.RunDaily | bot.py:276-281 | `run_daily` appends one job with a fresh identity and the given name, callback, user, time and weekdays. |
| Jobs.JobQueue.ScheduleRemoval | bot.py:275 | `schedule_removal` takes exactly that job out of the queue and keeps the order of the others. |
| Jobs.RemoveAll | bot.py:274-275 | Removing each job of a list removes exactly the jobs with those identities. |
| Jobs.CancelJobsNamed | bot.py:274-275 | Removing every job found by name leaves the queue without that name and otherwise unchanged. |
| Jobs.ReplaceNamedJob | bot.py:271-294 | After cancel-then-register, exactly one job has the name, and it is the new one. The jobs of every other name are unchanged. |
| Jobs.ScheduleWeeklyUpdate | bot.py:283-294 | The `weekly_<uid>` jobs are replaced by one job whose `days` entry is the birth date's `weekday()`. A `None` queue is left alone. |
| Jobs.ScheduleBirthdayGreeting | bot.py:271-281 | The `birthday_<uid>` jobs are replaced by one daily job. A `None` queue is left alone. |
| Jobs.ReplacedName | bot.py:271-294 | Registering after removing a name leaves exactly the new job under that name, and leaves every other name's jobs as they were. |
| Jobs.CancelledBoth | bot.py:329-332 | After `stop`, no weekly or birthday job of the user is left, and every other name's jobs are as they were. |
| Jobs.ScheduledBoth | bot.py:428-429 | After an accepted date, the user has exactly one weekly and one birthday job, and every other name's jobs are as they were. |
| Bot.AfterStart | bot.py:299-303 | `start` makes the user known and changes nothing else. |
| Bot.AfterStop | bot.py:314-326 | `stop` removes a known user from all three collections. For an unknown user it changes nothing. No other user is affected. |
| Bot.AfterEntry | bot.py:386-426 | A menu button changes no collection. Any other text makes the user known. Only an accepted date stores the birthday and makes the user active. A rejection leaves `active_users` and `birthdays` unchanged. No other user is affected. |
| Bot.AfterWeeklyFailure | bot.py:228-235 | A failed weekly send drops a known user from `known_users` and `active_users`, keeps `birthdays`, and affects no one else. |
| Bot.AfterBroadcast | bot.py:513-542 | After a broadcast, a known user stays known exactly when reachable. `active_users` and `birthdays` are unchanged. |
| Bot.StopIgnoresPrunedUser | bot.py:320-335 | An active user that the broadcast could not reach is no longer known, and a later `stop` changes nothing. |
| Bot.BroadcastLeavesActiveUnknown | bot.py:513-522 | A broadcast can leave an active user that is not known. |
| Bot.BroadcastCounts | bot.py:534-540 | The success and failure counts add up to the number of known users. |
| Bot.Greeting | bot.py:243-268 | A greeting is sent exactly for a user with a stored birthday on the greeting day. It announces the completed age, plus one for a Feb-29 birth date greeted on Feb 28. |
| Bot.ExportLineParses | bot.py:490 | Each exported line `f"{uid}\n"` reads back with `int()` as the user id. |
| Bot.ExportLinesDistinct | bot.py:489-490 | Different users give different export lines. |
| Bot.ExportLines | bot.py:487-490 | The export has one line per known user and no line twice. |
| Bot.Deliver | bot.py:534-540 | The sending loop keeps exactly the reachable users. It counts the reachable ones as successes and the others as failures. |
| Bot.Bot.constructor | bot.py:37-69 | The bot starts with the loaded collections, with or without an empty job queue, and with no admin flag set. |
| Bot.Bot.Start | bot.py:299-304 | `start` performs `AfterStart`. |
| Bot.Bot.Stop | bot.py:314-335 | `stop` performs `AfterStop` and reports whether the user was known. For a known user, both of its job names are cancelled. |
| Bot.Bot.HandleMessage | bot.py:382-431 | The outcome is the classification of the text, and the collections change as `AfterEntry` states. A report comes after an accepted date, and for the statistics button when a birthday is stored. The time units come for the time-units button. An accepted date replaces both of the user's jobs; otherwise the queue is untouched. |
| Bot.Bot.RecordEntry | bot.py:396-429 | The state updates of `handle_message` once the outcome is known. |
| Bot.Bot.StoreBirthday | bot.py:420-429 | An accepted date is stored, the user becomes known and active, and the weekly job and then the birthday job are replaced. |
| Bot.Bot.WeeklyUpdate | bot.py:206-235 | Nothing is sent without a stored birthday. Otherwise the days and weeks lived are sent, and a failed delivery performs `AfterWeeklyFailure`. |
| Bot.Bot.AdminButton | bot.py:466-492 | The broadcast button sets the presser's flag. The statistics button reports the counts of known and active users and the median age. The export button gives the export lines. The collections are unchanged. |
| Bot.Bot.AdminMessage | bot.py:494-543 | Only the operator whose flag is set is served, and the flag is then cleared. The collections change as `AfterBroadcast` states. The counters report the reached and unreached known users and add up to their number. |

## Left out

- Telegram I/O: every send, reply, photo download and document upload. Delivery success is an
  input.
- PIL drawing: fonts, colours, and the title with `days // 365` years. Of `create_weeks_image`,
  only the integer layout is modelled. Saving, reading and removing the temporary PNG, JPG and
  TXT files is left out too.
- Persistence: `load_data` and `save_all` (bot.py:37-69) are JSON file I/O with swallowed
  errors. The constructor takes the loaded collections as they are.
- The floating-point percentage (bot.py:180, 199) and the text and number formatting of every
  message.
- Job timing: the 08:00 and 09:00 times are kept only as numbers. The meaning of `days=` inside
  the job library is not modelled; only the weekday integer passed is kept. Nothing here says
  on which day the weekly job runs. In python-telegram-bot 20 and later, `days` counts 0 as
  Sunday, whereas `weekday()` counts 0 as Monday, so the job would run the day before the birth
  weekday. `schedule_removal` is treated as immediate removal. A job's identity is modelled by a distinct id.
- Jobs are not registered again for stored birthdays when the process starts. The code does not
  do that either.
- `main`, handler registration and the environment variables. The filters that send the
  operator's messages to `admin_message_handler` and everyone else's to `handle_message` are
  not modelled: `Bot.Bot.HandleMessage` accepts any user id.
- Concurrency: the handlers and job callbacks are taken to run one at a time.
- The photo and the text broadcast are one operation. They differ only in what is sent.
- `datetime` limits: the year 9999 bound and `OverflowError` are not modelled, since the year
  check already bounds the year by the current year.
- `int()` accepts Unicode decimal digits; the model accepts only the ASCII digits. Whitespace is
  Python's full `isspace` set, including the Unicode spaces. `ParseInt` models ASCII digits,
  an optional sign, single underscores between digits and surrounding whitespace.
- Ages.SortAges: `ages.sort()` sorts a list in place inside the library. The model uses a value
  function proved to be a sorted permutation, not an in-place algorithm.
- Report.StatsFor: the report carries the corrected `Calendar.DaysToBirthday` rather than the
  number the code shows (see Findings). They differ at any time after midnight. On the
  birthday itself the code shows 364 or 365 instead of 0. On every other day the code shows one
  less, because it rounds the time left down (`Calendar.AsWrittenFloorsTimeLeft`). For a Feb-29
  birth date there is also the leap-year case of the Findings.
- One `now` stands for every `datetime.today()` call of a handler. The code reads the clock
  separately, for example at bot.py:408 and bot.py:416, so both calls are taken to fall on the
  same instant.
- Bot.Greeting: only the age announced is modelled, not the text of the message.

## Findings

| source | as written | input that shows it | evidently intended | confidence | as-written member | corrected member |
|---|---|---|---|---|---|---|
| bot.py:147-151 | The birthday's midnight is compared with `datetime.today()`, which carries the time of day. On the birthday after midnight it counts as passed, and the next year's birthday is reported, 364 or 365 days away. | Born 1990-05-10, today 2024-05-10 09:00: the code reports 364 | 0 days on the birthday itself | high (not executed) | Calendar.AsWrittenOnTheBirthday | Calendar.DaysToBirthday |
| bot.py:146-148 | For a Feb-29 birth date in a year that is not a leap year, this year's Feb 28 is used. When that date has passed, `relativedelta(years=1)` keeps Feb 28 even when the next year is a leap year, whose greeting comes on Feb 29. | Born 2000-02-29, today 2023-03-01 00:00: the code reports 364 (to 2024-02-28) | 365 (to 2024-02-29, the day the greeting is sent) | high (not executed) | Calendar.AsWrittenLeapDaySkipsToFeb28 | Calendar.DaysToBirthday |

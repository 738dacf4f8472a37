# Task scheduler core, in Dafny

A model of the scheduling core of `TaskScheduler` (`task_scheduler.py`), a
small command-line planner for recurring client tasks. Each task lives in an
INI section named `Client.<client>.<task>`, and its `schedule` option says
when it runs:

- `everyday`;
- `every <weekday>`;
- `days:<d1>,<d2>,…`, a list of days of the month.

The model covers:

- the business-day walk (`is_business_day`, `get_next_business_days`);
- the schedule evaluator (`should_run_task`) with Python's `lower`, `split`,
  `strip` and `int` semantics;
- the per-date aggregation into a client → task → options report
  (`get_tasks_for_date`);
- the section name `read_csv_tasks` builds for an imported task, and how
  aggregation splits it back.

Where each function lives in the model:

- `is_business_day` is `Calendar.IsBusinessDay`.
- `get_next_business_days` is `Calendar.GetNextBusinessDays`, and its
  `while` loop is `Calendar.NextBusinessDaysLoop`.
- `should_run_task` is `Schedule.ShouldRunTask`, which reads the string with
  `Schedule.ParseRule` and evaluates the rule with `Schedule.Fires`.
- `get_tasks_for_date` is `Tasks.GetTasksForDate`, and one turn of its loop
  is `Tasks.AddSection`.
- The section name built in `read_csv_tasks` is `Tasks.SectionName`, and
  the split that reads it back is `Tasks.SectionKey`.

Modules, one per file:

| module | file | what it holds |
|---|---|---|
| `Outcomes` | `outcomes.dfy` | `Option`, `Result` (Python exceptions become `Err`), a fail-fast map and fold over sequences, and the last index satisfying a predicate |
| `Strings` | `strings.dfy` | `str.split`, `str.lower` (ASCII), `str.strip` (Python's whitespace set), `str.join` |
| `IntLiterals` | `int_literals.dfy` | `int(token)` on a stripped token, and `str(n)` |
| `Calendar` | `calendar.dfy` | dates as proleptic Gregorian ordinals, `weekday()`, `day`, business days and the walk |
| `Schedule` | `schedule.dfy` | the three schedule forms, as a parsed `Rule` plus a firing predicate |
| `Dicts` | `dicts.dfy` | insertion-ordered Python dicts as association lists |
| `Tasks` | `tasks.dfy` | section names, the aggregation loop, and what the report holds |

A date is its ordinal: 0001-01-01 is 1 and 9999-12-31 is 3652059. The
weekday is `(d - 1) % 7`, and the day of the month comes from the
civil-from-days conversion. Stepping past 9999-12-31 raises `OverflowError`,
which the model calls `DateOutOfRange`. A failed `int()` is
`InvalidLiteral(token)`.

Behaviour of the code worth knowing:

- **The schedule string is not trimmed.** Only `lower()` is applied, so
  leading whitespace, or trailing whitespace after `everyday` or
  `every <day>`, defeats a rule
  (`Schedule.SurroundingSpaceDefeatsRule`). Schedules read from the INI file
  do reach the evaluator stripped, because `configparser` strips values.
  CSV schedules do not.
- **One malformed `days:` token aborts the whole `get_tasks_for_date` call.**
  The `ValueError` is not caught per task
  (`Tasks.GetTasksRaises`, `Tasks.GetTasksFirstError`).
- **`get_next_business_days` has no negative-count check.** A count of zero
  or less returns `[]`.
- **The walk can raise.** It advances the date after every step, so it
  raises when the requested business days reach 9999-12-31
  (`Calendar.WalkFailsIff`).
- **The weekly form is not a plain suffix comparison.** It compares
  `split('every ')[1]`, so `every mondayevery x` fires on Mondays while
  `every monday every x` never fires, because its segment is `monday `
  with the space (`Schedule.WeeklyStopsAtSecondEvery`). Upper-case input is lowered first,
  so `every Monday` fires on Mondays.

## Model

| member | source | states |
|---|---|---|
| Calendar.Weekday | task_scheduler.py:39 | `weekday()` is always in 0..6 |
| Calendar.WeekdayShift | task_scheduler.py:39 | moving `k` days ahead moves the weekday `k` places round the week |
| Calendar.DayNamesFacts | task_scheduler.py:57 | the seven lower-cased day names are distinct, non-empty, lower-case letters only, end in `y` and contain no space |
| Calendar.DayOfMonth | task_scheduler.py:61 | `date.day` of any representable date is between 1 and 31 |
| Calendar.MidJanuary2024 | task_scheduler.py:57-61 | ordinal 738900 is a Monday the 15th and 738901 a Tuesday the 16th (2024-01-15/16) |
| Calendar.BusinessDayByName | task_scheduler.py:38-39 | a day is a business day exactly when its name is neither `saturday` nor `sunday` |
| Calendar.WeekHasFiveBusinessDays | task_scheduler.py:38-39 | any seven consecutive days hold exactly five business days |
| Calendar.ThreeDaysHoldBusinessDay | task_scheduler.py:38-39 | any three consecutive days hold a business day |
| Calendar.EnoughBusinessDays | task_scheduler.py:44-47 | `3n` consecutive days hold at least `n` business days, so the loop keeps finding dates |
| Calendar.CountSplit | task_scheduler.py:44-47 | counting business days is additive over adjacent ranges |
| Calendar.Walk | task_scheduler.py:44-47 | the loop, from a date while `need` dates are missing, returns exactly `need` dates or fails only with `DateOutOfRange` |
| Calendar.WalkIsBusinessRun | task_scheduler.py:44-47 | a successful walk returns strictly increasing business days from its start, skipping none |
| Calendar.WalkFailsIff | task_scheduler.py:44-47 | the walk raises exactly when fewer than `need` business days lie before 9999-12-31 |
| Calendar.GetNextBusinessDays | task_scheduler.py:41-48 | non-positive counts give `[]`; otherwise `count` increasing business days from the start, none skipped, starting with the start date itself when it is a business day; raises exactly when the calendar runs out |
| Calendar.BusinessRunUnique | task_scheduler.py:41-48 | two gap-free increasing runs of business days from one start with the same length are equal |
| Calendar.NextBusinessDaysAreTheFirst | task_scheduler.py:41-48 | the result is the one and only list of the first `n` business days on or after the start |
| Calendar.WalkHasRoom | task_scheduler.py:41-48 | the call cannot raise when `3n` days remain before 9999-12-31 |
| Calendar.NextBusinessDaysLoop | task_scheduler.py:41-48 | the `while` loop with its list and its date counter computes the same result as the recursive definition |
| Strings.Split | task_scheduler.py:56 | the parts joined by the separator give back the string; no part contains the separator; one part exactly when the separator does not occur; the first part ends at the first occurrence |
| Strings.SplitJoinChar | task_scheduler.py:68 | splitting a join of separator-free parts on a one-character separator gives back the parts |
| Strings.SplitOnCharCount | task_scheduler.py:68-69 | splitting on a character gives one part more than the character's occurrences |
| Strings.PartsLackChar | task_scheduler.py:68-71 | no part of a split on a character contains that character |
| Strings.JoinThree | task_scheduler.py:31 | joining three parts puts the separator between them, as the f-string does |
| Strings.SplitAtFirstChar | task_scheduler.py:68 | splitting `a + c + b` with `c` not in `a` gives `a` followed by the parts of `b` |
| Strings.FirstPartIsLeadingSegment | task_scheduler.py:56 | the first part of a split runs up to the first occurrence of the separator, or to the end |
| Strings.SecondPartAfterLeadingSeparator | task_scheduler.py:56 | for a string starting with the separator, part `[1]` exists and is the text up to the next occurrence |
| Strings.Lower | task_scheduler.py:51 | `lower()` keeps the length, turns each upper-case ASCII letter into its lower-case letter and changes no other character |
| Strings.LowerIdempotent | task_scheduler.py:51 | lowering twice is lowering once |
| Strings.LowerConcat | task_scheduler.py:51 | lowering distributes over concatenation |
| Strings.Strip | task_scheduler.py:60 | `strip()` is a middle slice of the string with only whitespace cut off, and starts and ends with non-whitespace when non-empty |
| Strings.StripIdempotent | task_scheduler.py:60 | stripping twice is stripping once |
| Strings.StripUnpadded | task_scheduler.py:60 | a string without surrounding whitespace is its own strip |
| IntLiterals.LiteralValue | task_scheduler.py:60 | a stripped token has a value exactly when it is an optional sign followed by one or more digits, and a negative value only with a leading `-` |
| IntLiterals.ParseInt | task_scheduler.py:60 | `int(token)` succeeds exactly when the stripped token is a signed digit string; a failure carries the token |
| IntLiterals.DigitsRoundTrip | task_scheduler.py:60 | the digits of `n` read back as `n` |
| IntLiterals.ParseIntToString | task_scheduler.py:60 | `int(str(n)) == n` for every integer |
| IntLiterals.ParsePlusDigits | task_scheduler.py:60 | `int('+' + ds)` is the value of the digit string `ds`, so a `+` sign is accepted and changes nothing |
| IntLiterals.PlusRoundTrip | task_scheduler.py:60 | `int('+' + str(n)) == n` for every natural number `n` |
| IntLiterals.IntToStringHasNoComma | task_scheduler.py:60 | `str(n)` has no comma, so it is a single `days:` token |
| Outcomes.MapResult | task_scheduler.py:60 | a list comprehension that may raise succeeds exactly when every element succeeds, and then holds each element's value in order |
| Outcomes.MapResultFirstError | task_scheduler.py:60 | a failing comprehension raises the error of its first failing element |
| Outcomes.FoldResultFails | task_scheduler.py:67-77 | a loop whose body fails by element alone fails exactly when some element fails |
| Outcomes.FoldResultFirstError | task_scheduler.py:67-77 | such a loop fails with the error of the first failing element |
| Outcomes.FoldResultInvariant | task_scheduler.py:67-77 | an invariant the body preserves holds of a successful loop's result |
| Outcomes.LastWhere | task_scheduler.py:75-77 | the index found satisfies the predicate with no later index doing so, and none is found exactly when no element satisfies it |
| Schedule.ParseDays | task_scheduler.py:60 | the `days:` list parses exactly when every token parses; it then holds each token's value in order; otherwise it raises the first bad token's `InvalidLiteral` |
| Schedule.DaysFormMeaning | task_scheduler.py:59-61 | the `days:` form raises iff a token is not a literal, and otherwise fires iff some token's value is the day of the month |
| Schedule.ShouldRunTask | task_scheduler.py:50-63 | on the lowered string: `everyday` always fires; `every …` fires iff the day's name is the weekly segment; `days:` raises iff a token is bad, else fires iff a token equals the day; anything else never fires; only `days:` raises |
| Schedule.WeeklySegmentBetween | task_scheduler.py:55-56 | the weekly segment is the text after the first `every ` up to the next `every `, or to the end |
| Schedule.WeeklyFiresOnItsDay | task_scheduler.py:55-57 | `every <name of weekday k>` in any letter case fires exactly on the dates of weekday `k` |
| Schedule.UnknownDayNeverFires | task_scheduler.py:55-57 | a weekly segment that is not a day name never fires |
| Schedule.WeeklyStopsAtSecondEvery | task_scheduler.py:55-57 | `every <day><spaces>every <rest>` fires exactly on that weekday when there are no spaces, and never otherwise |
| Schedule.PaddedDayName | task_scheduler.py:56-57 | a day name followed by whitespace equals a day name only without the whitespace and for the same day |
| Schedule.SegmentOfPaddedName | task_scheduler.py:55-56 | the weekly segment of `every <day><whitespace>` keeps the whitespace |
| Schedule.LeadingSpaceDefeatsRule | task_scheduler.py:51-63 | a schedule starting with whitespace never fires and never raises |
| Schedule.TrailingSpaceDefeatsEveryday | task_scheduler.py:51-55 | `everyday` in any letter case followed by any non-empty whitespace never fires and never raises |
| Schedule.TrailingSpaceDefeatsWeekly | task_scheduler.py:51-57 | `every <day>` in any letter case followed by any non-empty whitespace never fires and never raises |
| Schedule.SurroundingSpaceDefeatsRule | task_scheduler.py:51-63 | leading whitespace, or non-empty whitespace after `everyday` or after `every <day>` in any letter case, makes a schedule never fire and never raise |
| Schedule.ErrorIgnoresDate | task_scheduler.py:59-61 | whether a schedule raises, and with what error, does not depend on the date |
| Schedule.ShouldRunTaskSameDay | task_scheduler.py:50-63 | two dates with the same weekday and day of the month get the same outcome |
| Schedule.ParseIntText | task_scheduler.py:60 | `int(str(n).strip()) == n` |
| Schedule.ParseDaysOfValues | task_scheduler.py:60 | tokens that each parse to the given values parse as that list |
| Schedule.ParseDaysOfTexts | task_scheduler.py:60 | the decimal texts of any list of days parse back to that list |
| Schedule.ParseWeeklyText | task_scheduler.py:55-56 | `every <name>` for a lower-case name without a second `every ` parses back to that weekly rule |
| Schedule.DaysTextHasNoUpper | task_scheduler.py:51 | a `days:` text contains no upper-case letter, so lowering leaves it alone |
| Schedule.ParseDaysText | task_scheduler.py:59-60 | `days:` followed by the comma-joined texts of a non-empty list parses back to that list |
| Schedule.ParseRuleText | task_scheduler.py:50-63 | every rule a schedule can spell is read back from its canonical text |
| Schedule.EveryMondayExample | task_scheduler.py:55-57 | `every Monday` fires exactly on Mondays |
| Schedule.DaysListText | task_scheduler.py:59-60 | the canonical text of the days 1, 15 and 30 is `days:1,15,30` |
| Schedule.DaysListExample | task_scheduler.py:59-61 | `days:1,15,30` fires exactly on the 1st, 15th and 30th |
| Schedule.MidJanuaryExample | task_scheduler.py:50-63 | on 2024-01-15 `every Monday` and `days:1,15,30` fire, and on 2024-01-16 neither does |
| Schedule.EmptyDayListRaises | task_scheduler.py:59-60 | `days:` with nothing after it raises on the empty token |
| Schedule.TrailingCommaRaises | task_scheduler.py:59-60 | a trailing comma in a `days:` list raises |
| Dicts.Lookup | task_scheduler.py:75-77 | a key is found exactly when present, and then with a value it is stored with |
| Dicts.LookupEntry | task_scheduler.py:75-77 | in a dict without repeated keys each entry is what lookup finds |
| Dicts.Put | task_scheduler.py:76-77 | after `d[k] = v`, `k` maps to `v` and every other key maps to what it did before |
| Dicts.PutKeys | task_scheduler.py:75-77 | assignment keeps a present key in its place and appends a new key last |
| Dicts.PutDistinct | task_scheduler.py:75-77 | assignment never makes a key appear twice |
| Dicts.PutAll | task_scheduler.py:75-77 | a property every value has survives assigning a value that has it |
| Dicts.FirstOccurrences | task_scheduler.py:75-77 | the keys a sequence of assignments leaves: the same elements, none twice, each occurring in the input before the first occurrence of every element listed after it |
| Dicts.FirstOccurrencesUnique | task_scheduler.py:75-77 | any list with the input's elements, none twice, in the order of first occurrence is `FirstOccurrences` of the input, so that contract pins the key order down |
| Dicts.FirstOccurrenceOrderUnique | task_scheduler.py:75-77 | two repeat-free lists with the same elements, both in the order of first occurrence in one input, are equal |
| Dicts.FirstOccurrencesSnoc | task_scheduler.py:75-77 | one more assignment appends its key exactly when the key is new |
| Tasks.SectionName | task_scheduler.py:31 | an imported task's section name starts with `Client.` and has two dots more than the client and task together |
| Tasks.SectionKeyMeaning | task_scheduler.py:68-71 | a section is read as a task exactly when its name has two dots; the client and task are then the dot-free texts after the first and second dot |
| Tasks.SectionNameRoundTrip | task_scheduler.py:68-71 | the name built at line 31 splits back into `Client`, the client and the task, and is read as that task, exactly when neither contains a dot; otherwise it is skipped |
| Tasks.DottedNameIgnored | task_scheduler.py:68-69 | a client or task with a dot gives a name that aggregation skips |
| Tasks.ScheduleOf | task_scheduler.py:73 | a section's schedule is its `schedule` option, or empty when it has none |
| Tasks.TasksOf | task_scheduler.py:75-77 | a client's table is the one stored under it, or empty when absent |
| Tasks.TaskEntry | task_scheduler.py:75-77 | `report[client][task]` exists exactly when both keys are present |
| Tasks.Raised | task_scheduler.py:68-74 | a section raises only when it is a task section whose schedule raises, and then with `InvalidLiteral` |
| Tasks.AddSection | task_scheduler.py:68-77 | one loop turn raises exactly when its section raises, with that section's error |
| Tasks.AddSectionEntry | task_scheduler.py:68-77 | one loop turn sets `report[client][task]` to the section's options when the section selects that task, and leaves it alone otherwise |
| Tasks.AddSectionWellGrouped | task_scheduler.py:75-77 | one loop turn keeps clients distinct and each client's table non-empty with distinct tasks |
| Tasks.PutTableWellGrouped | task_scheduler.py:75-77 | storing a good table under a client keeps the report well grouped |
| Tasks.TasksOfDistinct | task_scheduler.py:75-77 | a client's table in a well-grouped report has no task twice |
| Tasks.GetTasksRaises | task_scheduler.py:65-78 | the call raises exactly when some task section's schedule raises on the date |
| Tasks.GetTasksFirstError | task_scheduler.py:67-74 | the call raises `InvalidLiteral` from the first raising task section in file order |
| Tasks.GetTasksWellGrouped | task_scheduler.py:65-78 | the report has no client twice, and every client's table is non-empty with no task twice |
| Tasks.LastSelectedNone | task_scheduler.py:67-77 | no selecting section exactly when no last one is found |
| Tasks.LastSelectedSome | task_scheduler.py:67-77 | the options found belong to a section that selects the task, with no later section selecting it |
| Tasks.LastSelectedStep | task_scheduler.py:67-77 | the last selecting section is the final one if it selects, else the last among the earlier ones |
| Tasks.GetTasksEntries | task_scheduler.py:65-78 | `report[client][task]` is the options of the last section in file order that names that task and fires on the date, and absent when none does |
| Tasks.GetTasksClients | task_scheduler.py:75-76 | a client is in the report exactly when some section selects one of its tasks on the date |
| Tasks.PickedIsTheChange | task_scheduler.py:68-77 | a section selects at most one task on the date; a loop turn assigns the section's options to that task's entry and leaves every other `report[client][task]` as it was |
| Tasks.AddSectionKeys | task_scheduler.py:75-77 | one loop turn appends the client of a firing section to the report's keys when it is new, and leaves them alone otherwise |
| Tasks.AddSectionTaskKeys | task_scheduler.py:75-77 | one loop turn appends the task of a firing section to its client's keys when it is new, and leaves every other client's keys alone |
| Tasks.GetTasksClientOrder | task_scheduler.py:65-78 | the report iterates its clients in the order of each client's first firing section in the file |
| Tasks.GetTasksTaskOrder | task_scheduler.py:65-78 | each client's table iterates its tasks in the order of each task's first firing section in the file |
| Tasks.AddSectionSameDay | task_scheduler.py:73-74 | a loop turn depends on the date only through its weekday and day of the month |
| Tasks.GetTasksSameDay | task_scheduler.py:65-78 | two dates with the same weekday and day of the month give the same report or the same error |

## Left out

- `TaskScheduler.__init__` and the INI loading (lines 13-22) are not modelled. The configuration is given as its list of sections with their options. `configparser`'s merging of a `DEFAULT` section, its lower-casing of option names, its stripping of values and its `%` interpolation are taken as already done.
- Tasks.GetTasksRaises: does not cover `configparser` interpolation. Lines 73 and 77 read options through `BasicInterpolation`, so a bare `%` in any option of a firing task section raises `InterpolationSyntaxError`, and `%(name)s` is substituted. The model takes options as already interpolated, and these errors are outside it.
- `read_csv_tasks` (lines 24-36) is modelled only through the section name it builds (line 31). Reading the CSV file, `add_section` raising on a duplicate section, and the options it sets are file I/O and library behaviour.
- The display functions, the command-line entry point, `datetime.now()` and `sys.argv` are rendering, clock and process I/O, and are not modelled.
- The time of day of a `datetime` plays no part in scheduling, so dates are whole days.
- Strings.Lower: lowers ASCII letters only, because Python's full Unicode case mapping, including characters that change length, is outside the model.
- IntLiterals.ParseInt: accepts an optional sign and ASCII digits only, because `int()` also accepts `_` between digits and non-ASCII decimal digits. Such tokens are rejected by the model.
- Strings.Split: the contract fixes the first part only, so it determines the whole result just for separators that cannot overlap themselves. That covers every separator the scheduler uses (`every `, `,` and `.`), and the definition itself splits like Python for any separator.
- IntLiterals.ParseInt: has no limit on the number of digits, because CPython 3.11 and later raise `ValueError` for a decimal literal longer than 4300 digits, which the model accepts.
- Calendar.DayNamesFacts: `calendar.day_name` is taken in the C (English) locale, because the locale is process state.
- Calendar.GetNextBusinessDays: the `datetime` returned keeps the start's time of day, which the model drops with the time of day.

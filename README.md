# Workforce attendance and payroll, modelled in Dafny

The system is a small HR tool for a construction contractor. It keeps a directory of
workers (code, name, role, trade, monthly salary) and of projects (with a "held" flag). It
records which workers are assigned to which project, and it keeps a daily attendance
ledger: one row per worker and date, naming the project worked and the time-in and
time-out as "HH:MM". From the ledger it computes a monthly payroll. Base pay is pro-rated
by the days present, and overtime is paid for each hour beyond the 9-hour standard day at
the hourly rate.

The code has two variants:

- **The dashboard (app.py)** works on a local SQLite store.
  - It uses the calendar month for the number of days.
  - In per-project mode it splits the worker's company-wide earned base over the
    projects, in proportion to the hours worked on each.
  - It derives the project status light and today's headline counts.
  - It generates the next worker code.
- **The hosted variant (core.py over db.py)** works on a Postgres store with enforced
  foreign keys and cascading deletes.
  - Every month counts 30 days.
  - A project scope only filters the attendance rows.

The modules follow that structure:

| module (file) | what it holds |
|---|---|
| `Wrappers` (wrappers.dfy) | `Option` |
| `Calendar` (calendar.dfy) | proleptic Gregorian dates as Python's `date` computes them: range checks, `toordinal()`, the month's half-open range |
| `Clock` (clock.dfy) | the `"%H:%M"` parser, the two hours-between functions, per-row overtime |
| `Ledger` (ledger.dfy) | worker and attendance rows, the SQL selections, the per-worker `groupby` aggregation |
| `CalendarPayroll` (calendar_payroll.dfy) | app.py's `generate_monthly_payroll`, both modes |
| `FixedPayroll` (fixed_payroll.dfy) | core.py's `generate_monthly_payroll`, and how it compares with the calendar variant |
| `WorkerCodes` (worker_codes.dfy) | app.py's `generate_next_worker_code`, an imperative loop |
| `Tables` (tables.dfy) | class `HrDatabase`: db.py's four tables and their updates |
| `Dashboard` (dashboard.dfy) | class `LocalStore`: app.py's store, attendance toggle, assignment, status, today's counts |

Modelling choices:

- Inputs the code reads from other places are parameters:
  - the directory and the ledger, which the code reads from a database;
  - "today", which the code takes from the clock.
- Amounts are exact `real`s.
- Dates are a datatype that need not be valid; lemmas that need valid dates say so.

## Edge cases of the two variants

- **Per-project month with no attendance at all.** In app.py the `att.empty` test
  (app.py:412-437) comes before the mode is chosen (app.py:451). So a month with no present
  row at all returns the company-wide all-zero frame, even when a project is selected
  (`CalendarPayroll.NoAttendanceAnyScope`). Only a month that has attendance, but none on
  the project, gives the empty per-project table (`CalendarPayroll.EmptyProjectNoRows`).
- **Empty directory.** app.py returns `None` (`CalendarPayroll.Payroll.NoData`). core.py
  returns an empty frame (core.py:61-62), modelled as `FixedPayroll.Rows([])`.

## Model

| member | source | states |
|---|---|---|
| Calendar.MonthLength | app.py:386-391 | a month has 28 to 31 days; only February has fewer than 30; exactly a leap February has 29 |
| Calendar.MakeDate | app.py:386-391 | `date(y, m, d)` succeeds exactly for a valid Gregorian date in years 1 to 9999, and then builds that date |
| Calendar.YearLength | app.py:391 | consecutive `toordinal` year starts differ by 365 days, or 366 in a leap year |
| Calendar.NextMonthStart | app.py:387-390 | the month's end date exists exactly when the next month's year is in range; it is the 1st of the following month: January of the next year after December, otherwise month + 1 of the same year |
| Calendar.NextMonthStartFormsAgree | core.py:56-59 | core.py's `date(year + month // 12, month % 12 + 1, 1)` is the same date as app.py's if/else, and fails in the same cases |
| Calendar.MonthRange | app.py:386-391 | the month's range exists exactly for years 1..9999 and months 1..12, except December 9999; it starts on the 1st and its start is before its end |
| Calendar.MonthRangeLength | app.py:391 | `(month_end - month_start).days` equals the length of the month |
| Calendar.InMonthRange | app.py:402 | a valid date lies in the half-open range `[month_start, month_end)` exactly when it is a day of that month, so the range query drops no day of the month and adds none of another |
| Calendar.DistinctDatesInMonth | app.py:445 | at most as many distinct valid dates as the month has days fall in its range |
| Clock.ParseField | app.py:241-242 | one strptime field is one or two ASCII digits whose value, read as a decimal number, is at most the bound; so an out-of-range field such as "24" for the hour is rejected, and every in-range field is accepted with its value |
| Clock.ParseTime | app.py:241-242 | a `"%H:%M"` time parses exactly when the string splits at position 1 or 2 into an hour field 0-23, a colon and a minute field 0-59, and then its value is 60 × hour + minute; a parsed time is less than 24 hours and the input has 3 to 5 characters |
| Clock.ParseFormat | app.py:241-242 | every time of day printed as "HH:MM" parses back to itself |
| Clock.ParseExamples | app.py:241-242 | "07:00", "7:05" and "16:5" are accepted, with their minute values |
| Clock.ParseRejects | app.py:241-242 | "24:00", "09:60", "09:30:00" and "" are rejected |
| Clock.CellMinutes | app.py:238-239 | a NULL or empty time cell counts as missing |
| Clock.ClampedHours | app.py:237-248 | `_hours_between` is never negative; a missing or unparseable time gives 0; otherwise it is the signed difference in hours clamped at 0 |
| Clock.GuardedHours | core.py:38-48 | `hours_between` is never negative |
| Clock.HoursFunctionsAgree | core.py:38-48 | `hours_between` (0 when time-out is before time-in) equals `_hours_between` (difference clamped at 0) on all inputs |
| Clock.HoursBelowOneDay | core.py:38-48 | worked hours are always less than 24 |
| Clock.NineAndAHalfHourShift | app.py:237-248 | 07:00 to 16:30 is 9.5 hours |
| Clock.Overtime | app.py:441 | `max(h - 9, 0)` is non-negative, at most the hours, 0 up to 9 hours and the excess beyond them |
| Clock.RegularHoursCapped | core.py:93-95 | the non-overtime part of a row is between 0 and 9 hours |
| Ledger.Select | app.py:398-406 | a WHERE clause keeps exactly the accepted rows, with their multiplicities |
| Ledger.SelectKeepsOrder | app.py:398-406 | the selected rows are the accepted rows taken at increasing positions of the input, each accepted position exactly once: order and multiplicity are kept |
| Ledger.Dates | app.py:445 | the `nunique` date set holds every row's date, only dates that occur, and no more dates than rows |
| Ledger.Sum | app.py:446-447 | a summed hours or overtime column is never negative |
| Ledger.OvertimeWithinHours | app.py:446-447 | summed overtime never exceeds summed hours |
| Ledger.SumSameUnderBothRules | core.py:90-92 | both variants' hours functions give the same column sums |
| Ledger.Summarize | app.py:444-448 | a worker's aggregate has overtime between 0 and total hours and at most one day per row; a worker without a row gets `fillna(0)` zeros; a worker with a row has at least one day |
| Ledger.SummarySameUnderBothRules | core.py:97-101 | both variants aggregate a worker's rows to the same summary |
| Ledger.DaysPresentWithinMonth | app.py:398-406 | for a ledger of valid dates, nobody is present on more days than the month has |
| Ledger.SumSplit | app.py:498 | a column's sum is its sum on project `p` plus its sum off `p` |
| Ledger.ProjectSumWithinTotal | app.py:502-506 | a project's part of a column never exceeds the column |
| Ledger.OffProjectKeepsOthers | db.py:158-163 | removing project `p`'s rows leaves another project's rows unchanged |
| Ledger.WorkerProjectCommute | app.py:498-506 | a worker's rows on a project are the project's rows of that worker |
| Ledger.SumByProjectSameRows | app.py:498 | per-project sums depend only on each listed project's rows |
| Ledger.SumPartitionByProject | app.py:498-506 | over a list naming each project of the rows once, per-project sums add up to the total |
| CalendarPayroll.BaseShare | app.py:528-533 | `_base_share` is 0 when total hours are not positive, and between 0 and the earned base when the project's hours lie within the total |
| CalendarPayroll.ProjectRows | app.py:509-517 | the inner join has one row per joined directory row, the i-th being the project row of the i-th joined worker; every row is the project row of a directory worker with a row on the project, and every such worker has one |
| CalendarPayroll.Joined | app.py:509 | the join keeps exactly the directory workers with a row on the project, and no more rows than the directory |
| CalendarPayroll.JoinedKeepsOrder | app.py:509 | the joined workers are the directory rows with a row on the project, taken at increasing directory positions, each once |
| CalendarPayroll.DaysInMonth | app.py:391 | `days_in_month` is the calendar length of the month, 28 to 31 |
| CalendarPayroll.MonthlyPayroll | app.py:368-566 | `ValueError` exactly for an impossible month; `None` exactly for an empty directory; company-wide with no project, with one row per directory worker in order, each the formula row over the month's present rows (the zero frame when there are none); per-project rows are the inner join |
| CalendarPayroll.NoAttendanceZeroRow | app.py:412-421 | the no-attendance frame's row is the formula row of a worker with no attendance (hourly rate included) |
| CalendarPayroll.NoProjectRowsWithoutAttendance | app.py:498-500 | with no row on the project the join is empty |
| CalendarPayroll.LeftJoinZeroRow | app.py:452-455 | company-wide, a worker with no present row in the month gets 0 days, hours, overtime and pay in its own position |
| CalendarPayroll.CompanyPayFormulas | app.py:457-471 | company-wide: the month has 28 to 31 days, days present fit the month, rate = salary / (days × 9), net = pro-rated base + overtime pay, base within 0..salary |
| CalendarPayroll.NoAttendanceAnyScope | app.py:412-437 | a month with no present row gives the company-wide zero frame whatever the scope |
| CalendarPayroll.EmptyProjectNoRows | app.py:497-500 | a month with attendance but none on the project gives an empty per-project table |
| CalendarPayroll.ProjectModeRows | app.py:509-517 | in per-project mode a directory worker appears exactly when it has a row on the project, with its project row |
| CalendarPayroll.ProjectRowBounds | app.py:519-540 | a project row's base share is between 0 and the company-wide earned base, its hours and overtime are within the worker's totals, and net = share + this project's overtime pay |
| CalendarPayroll.ProjectSumsWithinWorker | app.py:502-514 | a worker's project hours and overtime are within the worker's all-project totals |
| CalendarPayroll.BaseShareAdds | app.py:528-533 | shares against one total add up like the hours they are computed from |
| CalendarPayroll.OvertimePayAdds | app.py:536-538 | overtime pay at one rate adds up like the overtime hours |
| CalendarPayroll.ProjectRowParts | app.py:519-540 | a project row's share and overtime pay are functions of the worker's rows on that project |
| CalendarPayroll.SharesOverIsProportional | app.py:528-533 | the shares over a list of projects are the base share of their summed hours |
| CalendarPayroll.OvertimePayOverIsRate | app.py:536-538 | the per-project overtime pays over a list of projects are the rate times their summed overtime |
| CalendarPayroll.NetPayOverSplits | app.py:540 | summed per-project net pay is summed shares plus summed overtime pay |
| CalendarPayroll.ProjectPayrollsAddUp | app.py:376-384 | conservation: over the worker's projects listed once, the base shares add up to the company-wide earned base, and the per-project net pays add up to the company-wide net pay (for positive hours) |
| CalendarPayroll.FullShare | app.py:531 | all of the hours carry all of the base |
| CalendarPayroll.NoHoursNoProjectPay | app.py:528-540 | a worker with 0 worked hours gets no base share and no net pay on any project, though the company-wide base may be positive |
| CalendarPayroll.ZeroOvertimeZeroPay | app.py:467-469 | no overtime, no overtime pay |
| CalendarPayroll.ZeroDaysZeroBase | app.py:464 | no day present, no base |
| CalendarPayroll.BaseWithinSalary | app.py:464 | with a non-negative salary the base is non-negative, and at most the salary when days present fit the month |
| CalendarPayroll.OvertimePayNonNegative | app.py:461-469 | with non-negative salary and overtime, overtime pay is non-negative |
| FixedPayroll.MonthRange | core.py:56-59 | core.py's month range is exactly app.py's range, errors included |
| FixedPayroll.MonthlyPayroll | core.py:51-138 | `ValueError` exactly for an impossible month; otherwise one row per directory worker in order, 30 days and 0 deductions in every row; the all-zero row exactly when no row survives the scope, else the formula row |
| FixedPayroll.ZeroFrame | core.py:64-87 | with no row left after the scope every worker's row is all zeros, the hourly rate included |
| FixedPayroll.EmptyDirectoryEmptyTable | core.py:61-62 | an empty directory gives an empty table for every real month |
| FixedPayroll.PayFormulas | core.py:103-120 | rate = salary / 30 / 9, overtime pay = rate × overtime, net = base + overtime pay − 0, overtime within hours, days within the month, non-negative pay for a non-negative salary |
| FixedPayroll.ScopedDaysWithinMonth | core.py:97-101 | for valid dates, days present never exceed the month's length, with or without a scope |
| FixedPayroll.PayNonNegative | core.py:107-114 | a non-negative salary gives non-negative base and overtime pay |
| FixedPayroll.AbsentWorkerZeros | core.py:103 | a worker with no row in the scoped month gets zeros everywhere except the hourly rate (`fillna(0)` left join) |
| FixedPayroll.ZeroPays | core.py:107-114 | no days and no overtime give no pay |
| FixedPayroll.InRangeOnProject | core.py:75-76 | filtering by project commutes with the month's range query |
| FixedPayroll.ScopeOnlyFilters | core.py:75-76 | the payroll for a non-zero project is the unscoped payroll of that project's rows: no reallocation of base pay |
| FixedPayroll.ZeroProjectIsUnscoped | core.py:75 | project id 0 is falsy and gives the company-wide payroll |
| FixedPayroll.SameFormulasAt30 | core.py:106-111 | `salary / 30 × days` and `salary / 30 / 9` are app.py's formulas with a 30-day month |
| FixedPayroll.AgreesWithCalendarIn30DayMonths | core.py:103-120 | in a 30-day month with attendance both variants give every worker the same days, hours, overtime, rate, overtime pay and net pay |
| FixedPayroll.MoreBaseIn31DayMonths | core.py:53 | in a 31-day month the fixed variant pays more base for the same days than the calendar variant |
| FixedPayroll.BaseWithinSalaryIff | core.py:105-108 | the fixed base is at most the salary exactly when at most 30 days are present |
| WorkerCodes.RemoveAll | app.py:217 | `replace` never lengthens the string |
| WorkerCodes.TrimStart | app.py:217 | leading whitespace is gone |
| WorkerCodes.TrimEnd | app.py:217 | trailing whitespace is gone |
| WorkerCodes.TrimStartIsSuffix | app.py:217 | the stripped string is what follows a blank prefix of the input |
| WorkerCodes.TrimEndIsPrefix | app.py:217 | the stripped string is what precedes a blank suffix of the input |
| WorkerCodes.TrimStartBlank | app.py:217 | a blank prefix before a non-blank character is exactly what is stripped |
| WorkerCodes.TrimEndBlank | app.py:217 | a blank suffix after a non-blank character is exactly what is stripped |
| WorkerCodes.ParseDigits | app.py:217 | digits parse exactly when well formed (single underscores between digits) |
| WorkerCodes.ParseInt | app.py:217 | `int()` needs a non-blank string after stripping |
| WorkerCodes.ParseIntAccepts | app.py:217 | whitespace, an optional "+" or "-", well-formed digits and whitespace parse to the signed value of the digits |
| WorkerCodes.ParseIntOnly | app.py:217 | every string `int()` accepts has that layout |
| WorkerCodes.MaxNumber | app.py:213-220 | `max_num` is never negative |
| WorkerCodes.Decimal | app.py:221 | the decimal digits of a number have no leading zero, except "0" itself |
| WorkerCodes.Pad4 | app.py:221 | `{:04d}` gives digits only: four of them when the number has at most four digits, otherwise the plain decimal, with no leading zero |
| WorkerCodes.DecimalWidth | app.py:221 | a number has at most `k` decimal digits exactly when it is below 10^k |
| WorkerCodes.Pad4Width | app.py:221 | the padded number has exactly four digits exactly when it is below 10000, and from 10000 on it is the plain decimal without a leading zero |
| WorkerCodes.GenerateNextWorkerCode | app.py:207-221 | the loop computes the next code: "NPS-W0001" without codes, otherwise a code whose number is one more than the largest, and different from every existing code |
| WorkerCodes.MaxNumberIsMaximum | app.py:213-220 | `max_num` is at least every valid number, and is 0 or one of them |
| WorkerCodes.IgnoredCode | app.py:215-220 | a code without the prefix or with a suffix `int()` rejects does not change the result |
| WorkerCodes.DigitsValueOfDecimal | app.py:221 | printing a number in decimal and reading it back gives the number |
| WorkerCodes.LeadingZeros | app.py:221 | zero padding does not change the value |
| WorkerCodes.Pad4Value | app.py:221 | the padded number reads back as the number |
| WorkerCodes.CodeOfPad4 | app.py:215-221 | a generated code parses back to its number |
| WorkerCodes.NextCodeNumber | app.py:221 | the generated code's number is the largest existing number plus one |
| WorkerCodes.NextCodeIsFresh | app.py:213-221 | the generated number exceeds every existing valid number, so the code is new |
| WorkerCodes.ExampleOnlyRejected | app.py:213-221 | with only foreign or malformed codes numbering starts again at 1 |
| WorkerCodes.ExampleLargestWins | app.py:213-221 | NPS-W0007, NPS-W0012, NPS-W0003 give NPS-W0013 |
| WorkerCodes.ExampleSpaced | app.py:217 | `int(" 12\n")` is 12 |
| WorkerCodes.ExampleUnderscore | app.py:217 | `int("1_000")` is 1000 |
| WorkerCodes.ExampleRejectedSuffixes | app.py:217 | `int("-3")` is −3; "1__0", "_1", "", "+" and "\x1c9" (a file separator is not stripped) are rejected |
| WorkerCodes.ExampleSeparatorSkipped | app.py:213-221 | a code "NPS-W\x1c9" is skipped, so it alone gives NPS-W0001 |
| Tables.MarkedPairRows | db.py:199-216 | after marking, the (worker, date) pair has exactly the new row when present and none otherwise, on any project |
| Tables.MarkedOtherPairs | db.py:202-205 | marking leaves every other (worker, date) pair's rows unchanged |
| Tables.MarkedKeepsOnePerWorkerDate | db.py:199-216 | marking keeps the ledger at one row per worker and date |
| Tables.Without | db.py:127 | `DELETE ... WHERE id = k` on the workers table (db.py:127) or the projects table (db.py:161) leaves exactly the rows with another id |
| Tables.DeleteWorkerCascade | db.py:47-69 | after deleting a worker no row names the worker, every other worker keeps its rows and assignments, and referential integrity holds |
| Tables.DeleteProjectCascade | db.py:47-69 | after deleting a project no row names it, other projects keep their rows and assignments, and integrity holds |
| Tables.HrDatabase.MarkAttendance | db.py:199-216 | delete the pair's rows, then insert one signed-in row when present; a missing worker or project fails the insert and the transaction changes nothing; integrity and one row per pair are kept |
| Tables.HrDatabase.AttendanceRange | db.py:230-241 | exactly the signed-in rows with `start <= date < end`, with their multiplicities |
| Tables.HrDatabase.AttendanceOn | db.py:219-227 | exactly the rows of the date, signed in or not |
| Tables.HrDatabase.AssignWorkerToProject | db.py:166-178 | adds the pair when both exist, is idempotent (ON CONFLICT DO NOTHING), keeps integrity |
| Tables.HrDatabase.UnassignWorker | db.py:181-189 | removes exactly the pair, nothing when absent |
| Tables.HrDatabase.DeleteWorker | db.py:124-129 | removes the worker and, by cascade, its attendance and assignments; integrity kept |
| Tables.HrDatabase.DeleteProject | db.py:158-163 | removes the project and, by cascade, its attendance and assignments; integrity kept |
| Dashboard.FindProject | app.py:307-308 | the project lookup finds a row with that id, and fails exactly when no project has it |
| Dashboard.Classify | app.py:309-340 | gray exactly for an unknown project, red exactly for a held one, green exactly when unheld with someone present, else yellow labelled by whether anyone is assigned |
| Dashboard.HeldCount | app.py:352 | at most as many held projects as projects |
| Dashboard.ClampedDifference | app.py:359 | `max(a - b, 0)` is the difference when non-negative, else 0 |
| Dashboard.WorkerIdsWithinRows | app.py:345 | a directory has at most as many distinct ids as rows |
| Dashboard.LocalStore.ToggleAttendance | app.py:251-264 | the pair's rows are deleted and one signed-in row is inserted when present, with no foreign key checked; one row per pair is kept |
| Dashboard.LocalStore.SetAssignment | app.py:267-281 | the pair is in the table exactly when `assign`; nothing else changes |
| Dashboard.LocalStore.ProjectStatus | app.py:301-340 | the status is `Classify` of the project lookup, the number of workers assigned and the number of distinct workers signed in today on it; so gray exactly for an unknown id, green only with a signed-in row today on the project, "No Attendance Today" only with someone assigned |
| Dashboard.LocalStore.Stats | app.py:343-364 | total workers and held count as stored; present is the number of distinct workers with a signed-in row today; absent is `max(total - present, 0)`, so present + absent is the total unless more are present than exist; active is projects minus held |
| Dashboard.AbsentExact | app.py:359 | without dangling attendance rows and with distinct ids, present never exceeds the directory and the clamp does not fire |
| Dashboard.AbsentClampFires | app.py:359 | a row naming a worker missing from the directory makes the clamp report 0 absent |
| Dashboard.HeldWins | app.py:313-315 | a held project is red whatever its attendance |

## Left out

- User interface, login and roles, the Streamlit pages, ID-card and payslip PDFs, Excel
  exports and the launcher: presentation and I/O.
- Database connections, Supabase, commits and connection handling: the tables are values in
  memory, and a failed transaction is a method returning `false` with the state unchanged.
- `add_worker`, `update_worker`, `add_project`, `update_project`, `get_workers`,
  `get_projects`, `get_assignments`, `create_user` and the login check: plain row writes and
  reads, and authentication outside the payroll core.
- `get_visa_status` and `get_today_attendance`: outside the payroll core.
- The clock: "today" (`TODAY`, `date.today()`) is a parameter.
- core.py imports `get_attendance_range` from modules/db.py, and that file is not part of
  this model. Its range query is taken to behave like db.py's (db.py:230-241).
- `ORDER BY name` in `get_workers` and the row ids of every table: the directory is a
  sequence taken in the order given, and attendance rows carry no id.
- Each variant returns a different set of columns. The rows keep the worker (code, name,
  role, trade, salary) and the computed amounts, not the frame layout; core.py's extra
  columns (visa, phone, photo) are not carried.
- SQL NULL in `salary`, `held` or `signed_in`, and core.py's `fillna(0)` over all columns:
  salaries are reals, flags are integers, and only the time cells may be NULL.
- `worker_code` values that are not strings: codes are strings.
- CalendarPayroll.MonthlyPayroll: amounts are exact reals. The source rounds hours, rate,
  share, overtime pay and net pay to two decimals for display (app.py:474-478, 543-548).
- CalendarPayroll.ProjectPayrollsAddUp: the conservation holds for the exact amounts; the
  rounded amounts the source returns may differ from the company-wide total by cents.
- FixedPayroll.MonthlyPayroll: `net_pay` is not rounded (core.py:120).
- FixedPayroll.AgreesWithCalendarIn30DayMonths: compares exact amounts, before either
  variant's rounding.
- Clock.ParseTime: Unicode digits that `strptime` also accepts are not modelled; only
  ASCII digits are.
- WorkerCodes.ParseInt: only ASCII input is modelled. The whitespace stripped is space and
  characters 9-13, and the digits are 0-9. The Unicode digits and non-ASCII spaces that `int()`
  also accepts are not modelled.
- WorkerCodes.ParseInt: the limit of 4300 digits that Python 3.11 and later put on `int()`
  of a string is not modelled; a longer suffix parses here, where the source raises
  `ValueError` and skips the code.
- Concurrency between sessions writing the same tables: every operation is atomic here.

# cronrecon in Dafny

A model of the core of `cronrecon.py`. That core is the `CronJob` class, which holds one crontab line and its parse. It has two parts.

- **The field parser, `CronJob.parse`.**
  - It splits the line on single spaces and drops the empty tokens.
  - Tokens 0 to 4 become the minute, hour, day-of-month, month and day-of-week texts.
  - The remaining tokens, joined by single spaces and stripped, become the action.
  - `start_parse` and `finish_parse` then resolve each of the five texts into a sorted list of integers. The forms handled are `*`, `*/N`, comma lists, `A-B` ranges and plain integers.
- **The next-run calculator, `CronJob.next_run`.**
  - It cuts the reference instant to the minute.
  - It runs four forward passes once each, in the order minute, hour, day, month.
  - The hour and day passes follow the source's `try`/`except` blocks: a move within the current unit, else the handler's move into the next day, month or week.
  - The minute and month passes are modelled as evidently intended, and `NextRunOf` uses those. As written, the minute pass always carries into the next hour, and the month pass tries only the first listed month (see "## Findings"). `MinutePassAsWritten` and `MonthPassAsWritten` model the code as written.
  - The day pass computes a day-of-month candidate and a day-of-week candidate and picks one by the raw texts of the two fields.

The Dafny modules follow that structure:

| file | module | contents |
|---|---|---|
| `results.dfy` | `Results` | `Option` and `Result`; a Python exception that escapes is an `Err`. |
| `pystr.dfy` | `PyStr` | The Python 2 string behaviour the parser uses: `in`, `split`, `join`, `filter(None, …)`, `strip`, and `int()` in base 10. |
| `fieldparser.dfy` | `FieldParser` | `start_parse` and `finish_parse`. |
| `calendar.dfy` | `Calendar` | The proleptic Gregorian `datetime` of years 1 to 9999. |
| `nextrun.dfy` | `NextRun` | The passes of `next_run`. |
| `cronjob.dfy` | `CronJobs` | The `CronJob` class, the line splitting, and the link from the parsed fields to `next_run`. |

Details of the field parser:
- Each operation has a specification function, such as `Resolve` and `Finish`.
- It also has methods that build the list the way the source does. These are `StartParse`, `FinishParse`, the comma loop `FinishPieces` and the range loop `AppendRange`. Each method is proved equal to its specification function.
- The list that `finish_parse` appends to is passed in as a sequence and returned extended.

Details of the calendar:
- It gives days-in-month with the leap-year rule, ordinal day numbers and `weekday()`.
- It gives `t + timedelta(days=n)` and `t + timedelta(hours=1)`, which fail where Python raises `OverflowError`.
- It gives a partial `replace`, which fails where Python raises `ValueError`.

Details of the next-run calculator:
- The passes are pure functions of the five value lists and the reference instant, with lemmas for what each pass does.
- The reference instant is a parameter.

Day-of-week values are Python `weekday()` numbers, so 0 is Monday, not the usual crontab Sunday. The line `"30 2 * * 0 backup --all"` runs at 02:30 on Mondays. From Friday 1 March 2024 its next run is Monday 4 March, not Sunday 3 March (`CronJobs.BackupLine`).

Python's errors become values:
- fewer than five tokens (`IndexError`), a range bound or a `*/N` step that `int()` refuses (`ValueError`), and a `*/0` step become a `ParseError`; a plain token that `int()` refuses is dropped, since that `int()` is inside a handler;
- indexing an empty value list, a `replace` inside an exception handler that the calendar refuses, and day arithmetic that leaves years 1 to 9999 become a `RunError`. A `replace` that fails inside a `try` body only sends the pass to its handler, and so does the day arithmetic that overflows in the day-of-week `try` body (cronrecon.py:173, `NextRun.DowInWeek`).

## Model

| member | source | states |
|---|---|---|
| `PyStr.Split` | cronrecon.py:89 | `s.split(sep)` gives at least one piece and no piece holds `sep`. Without `sep` the result is `[s]`, and with it there are at least two pieces. |
| `PyStr.SplitLengths` | cronrecon.py:59-60 | No piece of a split is longer than the string, and each piece is strictly shorter once the separator occurs. This is why the recursion on comma pieces ends. |
| `PyStr.JoinSplit` | cronrecon.py:89-95 | Joining the pieces of a split with the same separator gives the string back. |
| `PyStr.SplitJoin` | cronrecon.py:89-95 | Splitting a join of pieces free of the separator gives the pieces back. |
| `PyStr.NonEmpty` | cronrecon.py:89 | `filter(None, parts)` keeps only non-empty parts, each one taken from the input, and is never longer than the input. `NonEmptyAppend` and `NonEmptyKeepsAll` fix it to every non-empty part, in order. |
| `PyStr.NonEmptyAppend` | cronrecon.py:89 | `filter(None, a + b)` is `filter(None, a) + filter(None, b)`: each part is kept or dropped on its own, in order. |
| `PyStr.NonEmptyKeepsAll` | cronrecon.py:89 | Filtering parts that are all non-empty keeps every one, in order. |
| `PyStr.NonEmptySplitKeepsText` | cronrecon.py:89 | The kept tokens, laid end to end, are the line with every space removed: splitting and filtering lose only the separators. |
| `PyStr.StripFacts` | cronrecon.py:95 | `strip()` returns a contiguous part of its input with no whitespace at either end. Everything it removed is whitespace. |
| `PyStr.PyIntNoMinusNonNegative` | cronrecon.py:63-67 | `int()` of text without a minus sign is never negative. |
| `PyStr.PyIntOfDecimal` | cronrecon.py:67 | `int(str(n)) == n` for every natural `n`. |
| `PyStr.PyInt` | cronrecon.py:63-78 | Python 2 `int()` in base 10, with `None` for `ValueError`. `PyIntOfDecimal` is its round trip and `PyIntNoMinusNonNegative` its sign. |
| `PyStr.PyIntSpaceAfterSign` | cronrecon.py:63-78 | `int()` skips whitespace after the sign as well as around the number: `-\t5` gives -5, ` + 42 ` gives 42, and `+ ` is refused. |
| `PyStr.Strip` | cronrecon.py:95 | `str.strip()`. `StripFacts` states what it keeps and removes. |
| `PyStr.Join` | cronrecon.py:95 | `sep.join(parts)`. `JoinSplit` and `SplitJoin` make it the inverse of `split`. |
| `PyStr.ContainsAt` | cronrecon.py:58-76 | `sub in s`, as used at cronrecon.py:58, 61 and 76, holds exactly when `sub` occurs in `s` at some index. |
| `FieldParser.RangeMembers` | cronrecon.py:75 | `range(lo, hi)` holds exactly the integers `x` with `lo <= x < hi`, in strictly increasing order. |
| `FieldParser.SliceStep` | cronrecon.py:80 | `xs[::k]`. Over `range(lo, hi)` it is the progression from `lo` for `k > 0` and the count-down from `hi - 1` for `k < 0` (`EveryRange`, `EveryBackRange`). |
| `FieldParser.SortInts` | cronrecon.py:86 | `sorted()`. It is sorted and a permutation of its input (`SortFacts`), and the only such list (`SortedUnique`). |
| `FieldParser.Resolve` | cronrecon.py:71-86 | `start_parse` as a value: `ResolveStar`, `ResolveStep`, `ResolveRange`, `ResolveInteger` and `ResolveComma` state each form, and `ResolveWildcardBounds` and `ResolveNonNegative` state the bounds. |
| `FieldParser.Finish` | cronrecon.py:55-69 | `finish_parse` as a value, dispatching on `,`. `FinishAllOutcome` states the comma case and `FinishParse` is proved to compute it. |
| `FieldParser.FinishAtom` | cronrecon.py:61-69 | `finish_parse` on a piece without a comma. `FinishAtomParse` is proved to compute it: a range with escaping bound errors, and a plain integer or nothing. |
| `FieldParser.ProgressionShape` | cronrecon.py:80 | The positive-step progression has element `i` equal to `lo + i*k` and strictly increases. Every element is in `[lo, hi)`, and one more step would reach `hi`. |
| `FieldParser.CountdownShape` | cronrecon.py:80 | The count-down has element `i` equal to `top - i*k`, with every element in `[lo, top]`. One more step would go below `lo`. |
| `FieldParser.EveryRange` | cronrecon.py:80 | `range(lo, hi)[::k]` for `k > 0` is the progression `lo, lo+k, …` below `hi`. |
| `FieldParser.EveryBackRange` | cronrecon.py:80 | `range(lo, hi)[::-k]` is the count-down from `hi - 1` to `lo` in steps of `k`. |
| `FieldParser.InsertFacts` | cronrecon.py:86 | Inserting into a sorted list gives a sorted list one longer, whose multiset is the old one plus the new element. |
| `FieldParser.SortFacts` | cronrecon.py:86 | `sorted(xs)` is sorted and a permutation of `xs`. |
| `FieldParser.SortedUnique` | cronrecon.py:86 | Two sorted lists with the same multiset are equal, so the sorted result is unique. |
| `FieldParser.SortIdentity` | cronrecon.py:86 | Sorting an already sorted list leaves it unchanged. |
| `FieldParser.SortKeepsElements` | cronrecon.py:86 | Sorting keeps exactly the elements it was given. |
| `FieldParser.FinishParse` | cronrecon.py:55-69 | `finish_parse` leaves the list it was given extended by the values of the text, or reports the first failure. Text with a comma recurses on each piece, and text without one goes to the range and integer branches. |
| `FieldParser.FinishPieces` | cronrecon.py:58-60 | The loop over the comma pieces appends each piece's values in order and stops at the first piece that fails. The loop invariant ties the running list to the first `i` pieces. |
| `FieldParser.FinishAtomParse` | cronrecon.py:61-69 | `A-B` appends `A..B` inclusive, reading only the first two pieces around `-`, and a bound `int()` refuses is an error. A plain integer appends itself, and a token `int()` refuses appends nothing. |
| `FieldParser.AppendRange` | cronrecon.py:63-64 | The `for i in range(a, b + 1): append(i)` loop leaves the list extended by `a, …, b`. |
| `FieldParser.PieceStep` | cronrecon.py:59-60 | One turn of the comma loop keeps the running list equal to the values of the pieces seen so far. A failing piece is the failure of the whole list. |
| `FieldParser.FinishAllStopsAtError` | cronrecon.py:58-60 | Once a prefix of the pieces fails, the whole list fails with that same error. |
| `FieldParser.StartParse` | cronrecon.py:71-86 | `start_parse` returns exactly what `Resolve` specifies: the sorted list of the field, or its error. |
| `FieldParser.ResolveStar` | cronrecon.py:73-75 | `*` resolves to exactly `lo, lo+1, …, hi-1`. |
| `FieldParser.ResolveStep` | cronrecon.py:76-80 | For `*/N`, text `int()` refuses is an error and `N = 0` is an error. A positive `N` gives `lo, lo+N, …` strictly below `hi`. A negative `N` gives the count-down from `hi - 1`, sorted. |
| `FieldParser.StepBounds` | cronrecon.py:76-80 | Every value of a `*/N` expansion lies in `[lo, hi)`, for either sign of `N`. |
| `FieldParser.ResolveWildcardBounds` | cronrecon.py:73-80 | Every value of `*` and of `*/N` lies in `[lo, hi)`. |
| `FieldParser.ResolveRange` | cronrecon.py:61-64 | `A-B` without a comma resolves to `A..B` inclusive, which is empty when `A > B` and whatever `[lo, hi)` is. A bound `int()` refuses is an error, the first bound checked first. |
| `FieldParser.ResolveInteger` | cronrecon.py:65-69 | A plain token resolves to the singleton of its value, never clamped to `[lo, hi)`. A token `int()` refuses gives the empty list. |
| `FieldParser.ResolveDecimal` | cronrecon.py:65-67 | A field written as a decimal number resolves to just that number. |
| `FieldParser.FinishAllValues` | cronrecon.py:58-60 | A successful comma loop gives the values of its pieces laid end to end, in order. |
| `FieldParser.FinishAllPieceOk` | cronrecon.py:58-60 | A successful comma loop had every piece succeed. |
| `FieldParser.FinishAllError` | cronrecon.py:58-60 | A failed comma loop fails with the error of the first piece that fails, and every earlier piece succeeded. |
| `FieldParser.FinishAllOutcome` | cronrecon.py:58-60 | The comma loop fails exactly when some piece fails, and then with the first such piece's error. Otherwise it gives the pieces' values laid end to end. |
| `FieldParser.ResolveComma` | cronrecon.py:58-60 | A comma list fails exactly when one of its pieces fails, with the first such piece's error. Otherwise it resolves to a sorted permutation of its pieces' values, duplicates kept. |
| `FieldParser.FinishNonNegative` | cronrecon.py:55-69 | `finish_parse` never produces a negative value, since any `-` makes the token a range. |
| `FieldParser.ResolveNonNegative` | cronrecon.py:71-86 | With a lower bound that is not negative, no field resolves to a negative value. |
| `Calendar.DaysInMonth` | cronrecon.py:162 | The second component of `calendar.monthrange` is between 28 and 31. |
| `Calendar.YearEnd` | cronrecon.py:162 | The month lengths of a year add up to 366 in a leap year and 365 otherwise. |
| `Calendar.YearStep` | cronrecon.py:164 | The days before year `y + 1` are the days before year `y` plus the length of year `y`. |
| `Calendar.OrdinalBounds` | cronrecon.py:164 | Every date of years 1 to 9999 has an ordinal between 1 and that of 9999-12-31. |
| `Calendar.FirstOfNextMonth` | cronrecon.py:164 | The first of the next month is a valid instant at the same time of day, or nothing after December 9999. |
| `Calendar.LastOfPreviousMonth` | cronrecon.py:164 | The last day of the previous month is a valid instant at the same time of day, or nothing before January of year 1. |
| `Calendar.NextMonthOrdinal` | cronrecon.py:164 | The first of the next month is the days left in this month, plus one, ordinal days later. It is missing only when this month ends on the last representable day. |
| `Calendar.PreviousMonthOrdinal` | cronrecon.py:164 | The last day of the previous month is `day` ordinal days earlier. It is missing only when this month starts at ordinal 1. |
| `Calendar.AddDays` | cronrecon.py:164 | `t + timedelta(days=n)` is a valid instant at the same time of day, where it exists. |
| `Calendar.ForwardOrdinal` | cronrecon.py:164 | Adding `n ≥ 0` days moves the ordinal by exactly `n`. It fails only past 9999-12-31. |
| `Calendar.BackwardOrdinal` | cronrecon.py:164 | Adding `n < 0` days moves the ordinal by exactly `n`. It fails only before 0001-01-01. |
| `Calendar.AddDaysOrdinal` | cronrecon.py:164 | Adding `n` days moves the ordinal by exactly `n`. It fails (`OverflowError`) exactly when the target ordinal is outside years 1 to 9999. |
| `Calendar.WeekdayAddDays` | cronrecon.py:166 | `n` days later the weekday is `(weekday + n) mod 7`. |
| `Calendar.AddDaysDirection` | cronrecon.py:173 | Adding no days gives the same instant. Adding `n > 0` days gives a later date, and adding `n < 0` days an earlier one. |
| `Calendar.AddHour` | cronrecon.py:127 | `t + timedelta(hours=1)` is a valid instant, where it exists. |
| `Calendar.AddHourLater` | cronrecon.py:127 | One hour later is a later hour of the same day or a later day, with the minute, second and microsecond kept. |
| `Calendar.AddHourExact` | cronrecon.py:127 | One hour later is exactly one hour on, counted as `ordinal * 24 + hour`, with the minute, second and microsecond kept. It fails (`OverflowError`) exactly at hour 23 of 9999-12-31. |
| `Calendar.Ordinal` | cronrecon.py:164 | `date.toordinal()`. It lies between 1 and the ordinal of 9999-12-31 (`OrdinalBounds`), and adding days moves it by exactly that much (`AddDaysOrdinal`). |
| `Calendar.Weekday` | cronrecon.py:166 | `weekday()` is between 0 and 6. `WeekdayAddDays` states how it moves and `SaturdayInMarch` fixes Monday as 0. |
| `Calendar.Replace` | cronrecon.py:138-218 | `datetime.replace` gives the new value exactly when its fields form a valid datetime, and fails (`ValueError`) otherwise. `MonthFindingExample` shows both outcomes. |
| `Calendar.BeforeTotal` | cronrecon.py:193 | Datetime comparison is a strict total order: of two instants one is earlier, or they are equal, and never each earlier than the other. |
| `Calendar.BeforeTransitive` | cronrecon.py:193 | Not-earlier is transitive. |
| `NextRun.FirstCommon` | cronrecon.py:114-116 | `first_common_value` returns an element of `list1` that is in `list2`. It returns nothing (`StopIteration`) exactly when no element of `list1` is in `list2`. |
| `NextRun.FirstInRange` | cronrecon.py:114-116 | Over `range(lo, hi)`, the first common value is the least member of the list in `[lo, hi)`. There is none exactly when no member lies there. |
| `NextRun.FirstIsLeast` | cronrecon.py:114-116 | The least member of the list in `[lo, hi)` is what the first common value finds. |
| `NextRun.MinuteCarry` | cronrecon.py:125-128 | The minute pass's handler returns a valid instant, where it succeeds. |
| `NextRun.MinutePass` | cronrecon.py:118-130 | `set_next_minute`, with the move within the hour done by `replace(minute=…)` as evidently intended, returns a valid instant. |
| `NextRun.MinutePassAsWritten` | cronrecon.py:118-130 | `set_next_minute` as written, where every move within the hour ends in the handler, returns a valid instant. |
| `NextRun.MinuteAdvance` | cronrecon.py:119-124 | With `v` the first listed minute from the current one on, the intended pass moves to minute `v` of this hour. A current minute that is listed leaves the instant unchanged. |
| `NextRun.MinuteCarrySpec` | cronrecon.py:125-128 | With no listed minute left in the hour, the pass is one hour on at the first listed minute. It fails on overflow, on an empty list (`IndexError`), or on a first minute out of range (`ValueError`). |
| `NextRun.MinuteCarryFacts` | cronrecon.py:125-128 | The handler's result has a listed minute, keeps the seconds and is strictly later. |
| `NextRun.MinuteFacts` | cronrecon.py:118-130 | The minute pass's result has a listed minute, keeps the seconds and is not earlier than its input. |
| `NextRun.MinuteAsWrittenCarries` | cronrecon.py:123-125 | As written, a listed minute later in this hour is skipped in favour of the carry, so the result differs from the intended pass. |
| `NextRun.MinuteFindingExample` | cronrecon.py:123-125 | Minutes `[30]` at 10:15 give 10:30 in the intended pass and 11:30 as written. |
| `NextRun.HourCarry` | cronrecon.py:139-142 | The hour pass's handler returns a valid instant, where it succeeds. |
| `NextRun.HourPass` | cronrecon.py:132-144 | `set_next_hour` returns a valid instant. |
| `NextRun.HourAdvance` | cronrecon.py:133-138 | With `v` the first listed hour from the current one on, the pass moves to hour `v` of the same day and keeps the minute. A listed current hour leaves the instant unchanged. |
| `NextRun.HourCarrySpec` | cronrecon.py:139-142 | With no listed hour left today, the pass is one day on at the first listed hour. It fails on overflow, on an empty list, or on a first hour out of range. |
| `NextRun.HourCarryFacts` | cronrecon.py:139-142 | The handler's result has a listed hour, keeps the minute and seconds and is strictly later. |
| `NextRun.HourFacts` | cronrecon.py:132-144 | The hour pass's result has a listed hour, keeps the minute and seconds and is not earlier than its input. |
| `NextRun.DomCarry` | cronrecon.py:158-164 | The day-of-month handler returns a valid instant, where it succeeds. |
| `NextRun.DomCandidate` | cronrecon.py:151-164 | The day-of-month candidate is a valid instant. |
| `NextRun.DomInMonth` | cronrecon.py:151-157 | With `v` the first listed day from today on, and `v` inside this month, the candidate is day `v` of this month at the same time. |
| `NextRun.DomCarrySpec` | cronrecon.py:158-164 | With no listed day left in this month, the candidate is `daysInMonth - day + dom[0]` days on. It fails on an empty list or on overflow. |
| `NextRun.DomCarryLeavesList` | cronrecon.py:158-164 | The day-of-month candidate need not be a listed day: from 31 January 2024 with days `[30]`, it is 1 March. |
| `NextRun.DowCarry` | cronrecon.py:174-179 | The day-of-week handler returns a valid instant, where it succeeds. |
| `NextRun.DowFrom` | cronrecon.py:166-179 | The day-of-week candidate, for a given current weekday, is a valid instant. |
| `NextRun.DowCandidate` | cronrecon.py:166-179 | The day-of-week candidate is a valid instant. |
| `NextRun.DowInWeek` | cronrecon.py:166-173 | With `v` the first listed weekday from today's on, the candidate is `v - weekday` days on. When that addition overflows, the next-week handler runs instead. |
| `NextRun.DowCarrySpec` | cronrecon.py:174-179 | With no listed weekday left this week, the candidate is `7 - weekday + dow[0]` days on. It fails on an empty list or on overflow. |
| `NextRun.DowFromShift` | cronrecon.py:166-179 | The day-of-week candidate is the input moved by a number of days that brings the weekday to a listed one. |
| `NextRun.DowCarryShift` | cronrecon.py:174-179 | The next-week handler moves by a number of days that brings the weekday to the first listed one. |
| `NextRun.DowListed` | cronrecon.py:166-179 | When every listed weekday is a weekday number, the day-of-week candidate falls on a listed weekday. |
| `NextRun.DomFacts` | cronrecon.py:151-164 | The day-of-month candidate keeps the time of day. For lists without negative days it is not earlier than its input. |
| `NextRun.DowFromFacts` | cronrecon.py:166-179 | The day-of-week candidate, for any weekday number, keeps the time of day. For lists without negative values it is not earlier. |
| `NextRun.DowFacts` | cronrecon.py:166-179 | The day-of-week candidate keeps the time of day. For lists without negative values it is not earlier. |
| `NextRun.DayPass` | cronrecon.py:146-207 | `set_next_day` returns a valid instant. |
| `NextRun.DayFacts` | cronrecon.py:146-207 | The day pass keeps the time of day. For day lists without negative values it is not earlier. |
| `NextRun.DayPrecedence` | cronrecon.py:181-207 | A restricted day-of-month alone gives its candidate, and a restricted day-of-week alone gives its candidate. Both restricted give the earlier candidate, the day-of-week one on a tie. Neither restricted gives the day-of-month candidate. A failing candidate fails the pass. |
| `NextRun.MonthCarry` | cronrecon.py:219-222 | The month pass's handler, as written, returns a valid instant, where it succeeds. |
| `NextRun.MonthPassAsWritten` | cronrecon.py:209-224 | `set_next_month` as written returns a valid instant. |
| `NextRun.MonthAsWrittenAdvance` | cronrecon.py:213-218 | As written, with `v` the first listed month from this one on and today's day existing in month `v`, the pass moves to month `v` of this year. There it agrees with the intended pass. |
| `NextRun.MonthAsWrittenCarry` | cronrecon.py:213-222 | As written, when no listed month is left this year, or the first one left lacks today's day, the pass moves to the first listed month of next year. It fails on an empty list or on a date that does not exist, even if a later listed month of this year has the day. |
| `NextRun.MonthFindingExample` | cronrecon.py:213-222 | From 2024-05-31, months `[1, 6, 7]` give 2025-01-31 as written and months `[6, 7]` fail. The intended pass gives 2024-07-31 for both. |
| `NextRun.Fitting` | cronrecon.py:209-224 | The listed months of a year in which a day exists: exactly those listed months that are between 1 and 12 and long enough. |
| `NextRun.MonthPass` | cronrecon.py:209-224 | `set_next_month` as evidently intended returns a valid instant. |
| `NextRun.MonthAdvance` | cronrecon.py:213-218 | With `v` the first listed month from this one on in which today's day exists, the intended pass moves to month `v` of this year. A listed current month leaves the instant unchanged. |
| `NextRun.MonthCarrySpec` | cronrecon.py:219-222 | With no listed month left this year that has today's day, the intended pass fails on an empty list, in year 9999, and when no listed month of next year has the day either. |
| `NextRun.MonthCarryTo` | cronrecon.py:219-222 | With no listed month left this year that has today's day, and `v` the first listed month of next year that has it, the intended pass moves to month `v` of next year. |
| `NextRun.MonthFacts` | cronrecon.py:209-224 | The intended month pass's result has a listed month, keeps the day and the time of day, and is not earlier. |
| `NextRun.MonthSkipsNothing` | cronrecon.py:209-224 | The intended month pass skips no listed month in which today's day exists, this year or before the result in the next. |
| `NextRun.CreateDate` | cronrecon.py:226-238 | The four passes in order produce a valid instant. |
| `NextRun.NextRunOf` | cronrecon.py:240-248 | `next_run(start)`, with the intended minute and month passes, is a valid instant, where it succeeds. |
| `NextRun.UseDom` | cronrecon.py:181-207 | Which day candidate `set_next_day` returns. `DayPrecedence` states the choice for each pair of texts. |
| `NextRun.Truncate` | cronrecon.py:242-246 | The reference instant cut to the minute. `TruncateFacts` states what it keeps and zeroes. |
| `NextRun.TruncateFacts` | cronrecon.py:242-246 | Truncation keeps the date, hour and minute, zeroes the seconds and microseconds, and never moves the instant later. |
| `NextRun.NextRunMatches` | cronrecon.py:226-238 | Every run instant has a listed minute, a listed hour and a listed month, and no seconds. |
| `NextRun.NextRunNotEarlier` | cronrecon.py:226-248 | With day lists free of negative values, the run instant is never earlier than the truncated reference. |
| `NextRun.NextRunFixpoint` | cronrecon.py:226-248 | A reference that already matches every list, weekday included, is its own next run after truncation. |
| `NextRun.NextRunEmptyFails` | cronrecon.py:226-238 | An empty value list makes the calculation fail instead of returning an instant. |
| `NextRun.SaturdayInMarch` | cronrecon.py:166 | 2 March 2024 has `weekday()` 5. |
| `NextRun.MondaysAt0230Day` | cronrecon.py:146-207 | From Saturday 2 March 2024 at 02:30 with day-of-week `0`, the day pass gives Monday 4 March at 02:30. |
| `NextRun.MondaysAt0230Example` | cronrecon.py:226-248 | The schedule 02:30 on weekday 0, from 2024-03-01 10:00:45.5, next runs at 2024-03-04 02:30. |
| `CronJobs.ParseText` | cronrecon.py:88-107 | The body of `parse()` computes exactly the specified parse of the line. |
| `CronJobs.CronJob.constructor` | cronrecon.py:28-43 | `__init__` stores the line and leaves the fields holding its parse. |
| `CronJobs.CronJob.Parse` | cronrecon.py:51-107 | `parse()` leaves the job's fields holding the parse of its stored line. |
| `CronJobs.CronJob.NextRun` | cronrecon.py:109-248 | `next_run` follows the calculation on the job's lists and texts, with the intended minute and month passes. A run instant has a listed minute, hour and month, no seconds, and is not earlier than the reference cut to the minute. |
| `CronJobs.NewCronJob` | cronrecon.py:28-43 | A job is built exactly when its line parses. Otherwise the error, which Python's constructor would raise, is reported. |
| `CronJobs.Tokens` | cronrecon.py:89 | `filter(None, raw.split(' '))`. `TokensAppend` and `TokensWord` fix the words of every line, leading and repeated spaces included. `TokensFacts` and `TokensOfJoin` state their shape and the single-spaced case. |
| `CronJobs.TokensAppend` | cronrecon.py:89 | A line that is a space-free stretch, a space and a rest has the words of the rest, preceded by the stretch unless it is empty. |
| `CronJobs.TokensWord` | cronrecon.py:89 | A line without a space is one word, or no word when it is empty. |
| `CronJobs.TokensLeadingSpace` | cronrecon.py:89 | A leading space adds no word. |
| `CronJobs.TokensDoubleSpace` | cronrecon.py:89 | Two spaces after a word separate it from the rest exactly as one space does. |
| `CronJobs.ParseLine` | cronrecon.py:89-107 | `parse()` as a value, on the words of `Tokens` (fixed for every line by `TokensAppend` and `TokensWord`). `ParseLineOfWords` gives the refusal and the fields, `ParsedNonNegative` the lists, and `BackupLine` a whole line. |
| `CronJobs.TokensFacts` | cronrecon.py:89 | The words of a line are non-empty and hold no space. Laid end to end they are the line without its spaces. |
| `CronJobs.TokensOfJoin` | cronrecon.py:89 | Words joined by single spaces split back into the same words. |
| `CronJobs.ParseLineOfWords` | cronrecon.py:89-95 | A line of fewer than five words is refused (`IndexError`). Otherwise its fields are its words in order. |
| `CronJobs.ParsedNonNegative` | cronrecon.py:97-107 | Every list of a parsed line is free of negative values. |
| `CronJobs.JobNextRunNotEarlier` | cronrecon.py:240-248 | For any parsed line, a next run is never earlier than the reference cut to the minute. |
| `CronJobs.BackupAction` | cronrecon.py:95 | The action of `"30 2 * * 0 backup --all"` is `"backup --all"`. |
| `CronJobs.BackupTokens` | cronrecon.py:89 | `"30 2 * * 0 backup --all"` splits into its seven words. |
| `CronJobs.BackupNumbers` | cronrecon.py:65-67 | The fields `30`, `2` and `0` resolve to `[30]`, `[2]` and `[0]`. |
| `CronJobs.BackupFields` | cronrecon.py:90-107 | The seven words parse into the texts, the action `"backup --all"` and the lists `[30]`, `[2]`, days 1 to 31, months 1 to 12, and `[0]`. |
| `CronJobs.BackupLine` | cronrecon.py:89-248 | `"30 2 * * 0 backup --all"` parses into 02:30 on Mondays. From 2024-03-01 10:00:45.5 it next runs at 2024-03-04 02:30. |

## Left out

- `CronExaminer` (cronrecon.py:264-324) is file input and a sort and filter over `next_run`, so it is not part of this model.
- Logging, the unused `counter` field, `list_repr` and `__repr__` are not modelled. A plain token that `int()` refuses in `finish_parse` (cronrecon.py:66-69) is dropped without the log line; a range bound that `int()` refuses (cronrecon.py:63) is outside any handler and is an error.
- `datetime.datetime.now()` as the default reference is not modelled; the reference instant is always a parameter.
- Time zones are not modelled. The datetime rebuilt at cronrecon.py:242-246 drops `tzinfo`, and the model has none.
- The `assert`s at cronrecon.py:202 and 206 are not modelled. `DayPass` returns the chosen candidate without checking that its day or weekday is listed. `NextRun.DomCarryLeavesList` shows a day-of-month candidate that is not listed, where the Python `assert` would raise `AssertionError`.
- Python's exception types are collapsed into `ParseError` and `RunError`. Which exception escaped is kept only as far as those constructors tell.
- The 999999999-day limit of `timedelta` is not modelled: any such sum already leaves years 1 to 9999 and fails as overflow.
- `CronJobs.CronJob.constructor`: requires a line that parses, because the Python constructor raises on any other line. `CronJobs.NewCronJob` is the entry point that reports the failure.
- `CronJobs.CronJob.Parse`: the fields are assigned once, from the completed parse. `parse()` assigns the five texts and the action before it resolves the lists, but when a field fails the object is never returned, so the difference cannot be observed.
- `FieldParser.FinishParse`: the shared `cron_list` is passed in and returned extended rather than mutated in place. No other reference to that list exists while the parse runs.
- `NextRun.DowListed`: it requires every listed weekday to be in 0 to 6. An explicit value such as `9` makes the candidate land on a weekday that is not listed.

## Findings

| source | as written | input that shows it | evidently intended | confidence | as-written member | corrected member |
|---|---|---|---|---|---|---|
| cronrecon.py:123-125 | The move within the hour calls `replace_minute`, which is defined nowhere. The `NameError` is caught by `except Exception`, so the pass carries to the first listed minute of the next hour. | Minutes `[30]` at 2024-03-01 10:15 give 11:30. | `start_dt.replace(minute=next_min)`, as the hour pass does at line 138, giving 10:30. | not executed | `NextRun.MinutePassAsWritten` (counterexample `NextRun.MinuteFindingExample`) | `NextRun.MinutePass` (proved by `NextRun.MinuteAdvance`) |
| cronrecon.py:213-222 | The pass tries only the first listed month from this one on. When today's day does not exist in it, the `ValueError` of `replace` sends the pass to the handler, which jumps to the first listed month of next year, or fails when that month lacks the day too. | From 2024-05-31, months `[1, 6, 7]` give 2025-01-31, and months `[6, 7]` raise `ValueError`, though 2024-07-31 exists. | The next listed month in which the day exists, as the comment at cronrecon.py:210-211 describes, giving 2024-07-31. | not executed | `NextRun.MonthPassAsWritten` (counterexample `NextRun.MonthFindingExample`) | `NextRun.MonthPass` (proved by `NextRun.MonthAdvance`, `NextRun.MonthSkipsNothing`) |

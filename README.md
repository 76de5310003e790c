# txscheduling: cron schedules and the scheduled-call driver, in Dafny

This project models the core of `txscheduling`, a small Twisted library. It
has two parts:

- A cron schedule (`txscheduling/cron.py`). `parseCronLine` and
  `parseCronEntry` turn a five-field cron line (minute, hour, day of month,
  month, day of week) into five ascending lists of integers.
  `CronSchedule.getNextEntry` then searches for the next whole minute those
  lists admit. The search goes month, then day, then hour, then minute, and
  backs off one level when a level has nothing left.
- A driver, `ScheduledCall` (`txscheduling/task.py`). It calls a function
  whenever a schedule says so. It keeps one pending timer in the reactor and
  one completion Deferred, which fires when the driver stops or fails.

Files and modules:

| file | module | contents |
|---|---|---|
| `wrappers.dfy` | `Wrappers` | `Option` and `Result` |
| `calendar.dfy` | `Calendar` | the parts of Python's `datetime` the search uses: month lengths, `isoweekday`, `+ timedelta(days=n)` and the order of instants, with their proved properties |
| `cron_text.dfy` | `CronText` | Python 2 string operations: `split`, `strip`, `re.split('\s+')`, `int()` and the three token patterns of cron.py:254-256 |
| `cron_parse.dfy` | `CronParse` | `parseCronEntry` and `parseCronLine` |
| `cron.dfy` | `Cron` | `CronSchedule`, its equality and the next-entry search |
| `scheduled_call.dfy` | `Task` | the reactor clock as a class, `ScheduledCall` as a class, and scenarios |

How each part is modelled:

- The parsers follow the source step by step. They are methods, with the
  token loop and the alignment `while` loop. Each is proved equal to a
  specification function (`EntrySpec`, `LineSpec`). Lemmas state what those
  functions mean.
- The search is written in the source as nested calls and returns. Here it
  is a set of functions over `DateTime` values that return a `Search`:
  - `Found(t)`;
  - `NoMatch`, the exception a level raises when it has nothing left;
  - `Raised(e)`, one of the `datetime` exceptions that the source never
    catches.
- `ScheduledCall` updates its fields in place, so it is a class.
  - The reactor is a `Clock` object holding a map of pending timers.
  - A timer firing is the `Fire` event.
  - The Deferred returned by the scheduled function fires with its result;
    that is the `Complete` event.
  - Each completion Deferred has a number. Every resolution is appended to
    the `resolutions` log, so contracts can state which Deferred was fired,
    and how.

Two places where the code does less than its own text suggests:

- The docstring of `ScheduledCall` (task.py:14-15) says rescheduling waits
  until the function's Deferred has fired. That holds while the driver keeps
  running. But `stop` during an invocation followed by `start` arms a new
  timer while that invocation is still in flight
  (`Task.RestartedWhileRunning`). `ScheduledCall.Valid` is stated so that it
  holds on this path too.
- `_getFirstDay` (cron.py:66-132) and the day distances (cron.py:161-196)
  read the two day fields with cron's rule: when one of them is `*`, only
  the other counts. The same-day test of `_getNextDay` (cron.py:152-155)
  does not; see "## Findings".

## Model

| member | source | states |
|---|---|---|
| CronText.SplitOn | txscheduling/cron.py:468 | `str.split(',')` always yields at least one piece, and no piece contains the separator |
| CronText.JoinSplit | txscheduling/cron.py:468 | joining the pieces of a split with the separator gives back the original text |
| CronText.SplitJoin | txscheduling/cron.py:468 | splitting the join of separator-free pieces gives back exactly those pieces |
| CronText.Strip | txscheduling/cron.py:301 | the result of `strip()` neither starts nor ends with whitespace |
| CronText.StripSlice | txscheduling/cron.py:301 | `strip()` returns a slice of its argument, and everything it cuts off before and after that slice is whitespace |
| CronText.SplitSpace | txscheduling/cron.py:301 | `re.split('\s+', ...)` yields at least one piece; no piece contains whitespace; every piece but the first and the last is nonempty; the first is empty exactly when the text is empty or starts with whitespace |
| CronText.SpaceRuns | txscheduling/cron.py:301 | the separators `re.split('\s+', ...)` cuts out are nonempty runs of whitespace |
| CronText.SplitSpaceRuns | txscheduling/cron.py:301 | a text is exactly its `re.split('\s+', ...)` pieces interleaved with its whitespace runs, with one more piece than runs |
| CronText.FieldsJoinSpace | txscheduling/cron.py:301 | nonempty whitespace-free words joined by single spaces split back into exactly those words |
| CronText.BlankFields | txscheduling/cron.py:301 | a line made only of whitespace has the single empty field `['']` |
| CronText.IntLiteralDecimal | txscheduling/cron.py:476 | `int(str(n)) == n` for every integer `n`, negative numbers included |
| CronText.IntLiteralDigits | txscheduling/cron.py:476 | `int(d)` of a nonempty string of decimal digits is the value of those digits |
| CronText.IntLiteralNegative | txscheduling/cron.py:476 | `int('-' + d)` of a nonempty string of decimal digits is minus their value |
| CronText.TwoDigits | txscheduling/cron.py:254-256 | a `\d{1,2}` group matches exactly the texts of one or two decimal digits, and denotes their decimal value, which is below 100 |
| CronText.TwoDigitsDecimal | txscheduling/cron.py:254-256 | the decimal text of every `n < 100` matches `\d{1,2}` and denotes `n` |
| CronText.Chomp | txscheduling/cron.py:254-256 | the text a `^...$` pattern sees is the token with its final newline removed when it has one, and the token itself otherwise |
| CronText.StepTokenDigits | txscheduling/cron.py:254 | `'*' + '/' + d`, with `d` one or two digits, matches the stepped-star pattern with step `d` |
| CronText.RangeTokenDigits | txscheduling/cron.py:255 | `a-b`, with `a` and `b` one or two digits, matches the range pattern with those bounds and neither stepped pattern |
| CronText.RangeStepTokenDigits | txscheduling/cron.py:256 | `a-b/s`, with `a`, `b` and `s` one or two digits, matches only the stepped-range pattern, with those bounds and that step |
| CronParse.Ascending | txscheduling/cron.py:533-534 | `list(total); total.sort()` yields a strictly ascending list with exactly the elements of the set, and as many of them |
| CronParse.AscendingUnique | txscheduling/cron.py:533-534 | a set has only one strictly ascending list of its elements |
| CronParse.TokenSpan | txscheduling/cron.py:487-489 | the token `'*'` spans `[min, max + 1)` with step 1 |
| CronParse.TokenSpanBranches | txscheduling/cron.py:491-514 | a token other than `'*'` spans what the first of the three patterns it matches gives: the stepped star `[min, max + 1)`, a range `[begin, end + 1)` with step 1, a stepped range `[begin, end + 1)` with its step |
| CronParse.StepTokenSpan | txscheduling/cron.py:491-498 | `'*' + '/' + s` spans `[min, max + 1)` with step `s` |
| CronParse.RangeTokenSpan | txscheduling/cron.py:500-506 | `a-b` spans `[a, b + 1)` with step 1 |
| CronParse.RangeStepTokenSpan | txscheduling/cron.py:508-514 | `a-b/s` spans `[a, b + 1)` with step `s` |
| CronParse.RangeFromMultiple | txscheduling/cron.py:526 | `range(begin, end, step)` started at a multiple of `step` is the set of multiples of `step` in `[begin, end)` |
| CronParse.Alignment | txscheduling/cron.py:519-526 | the alignment loop raises exactly when no multiple of the step lies in `[begin, end]`; otherwise the token yields the multiples of the step between the original `begin` and `end`, so values align to absolute multiples |
| CronParse.TokenStep | txscheduling/cron.py:475-528 | one token contributes its integer value, the values of its span, nothing (unrecognised text), or the error of `TokenValues` |
| CronParse.ExpandSpan | txscheduling/cron.py:516-528 | the guard and the alignment loop give exactly `SpanValues`: "Invalid range or step specified" when the guard fails or no multiple of the step lies in the span, otherwise the multiples of the step |
| CronParse.ParseCronEntry | txscheduling/cron.py:316-539 | the parser equals `EntrySpec`, and a parsed field is nonempty, strictly ascending and inside `[min, max]` |
| CronParse.EntryShape | txscheduling/cron.py:530-539 | every list `EntrySpec` accepts is nonempty, strictly ascending and inside `[min, max]` |
| CronParse.UnionMeaning | txscheduling/cron.py:472-528 | the field succeeds exactly when every token does; it then holds exactly the values some token yields; otherwise it fails with the error of the first failing token |
| CronParse.TokenError | txscheduling/cron.py:516-528 | a token can fail only with "Invalid range or step specified" for that token |
| CronParse.EntryErrors | txscheduling/cron.py:449-539 | a field never fails with a line-level error |
| CronParse.StarToken | txscheduling/cron.py:487-489 | the token `'*'` yields every value of `[min, max]` |
| CronParse.StarEntry | txscheduling/cron.py:487-489 | the field `'*'` parses to `range(min, max + 1)` |
| CronParse.FullEntry | txscheduling/cron.py:468-539 | a field made of one token that yields the whole interval parses to `range(min, max + 1)` |
| CronParse.AssembleList | txscheduling/cron.py:530-539 | a value set whose elements are those of an ascending list inside the bounds is returned as that list |
| CronParse.ValueEntry | txscheduling/cron.py:475-539 | a one-token field that `int()` accepts parses to that one value, or is rejected as "out of allowed range" naming that value twice |
| CronParse.RangeEntry | txscheduling/cron.py:500-539 | a field `a-b` with `min <= a <= b <= max` parses to `[a, ..., b]` |
| CronParse.ReversedRangeEntry | txscheduling/cron.py:500-528 | a field `a-b` with `b < a` is rejected with "Invalid range or step specified" naming the token |
| CronParse.StepEntry | txscheduling/cron.py:491-539 | a field `'*' + '/' + s` parses to the ascending multiples of `s` in `[min, max]` |
| CronParse.RangeStepEntry | txscheduling/cron.py:508-539 | a field `a-b/s` inside the bounds parses to the ascending multiples of `s` in `[a, b]` |
| CronParse.BarrenStepEntry | txscheduling/cron.py:508-528 | a field `a-b/s` with no multiple of `s` in `[a, b + 1]` is rejected with "Invalid range or step specified" naming the token |
| CronParse.UnrecognisedEntry | txscheduling/cron.py:475-531 | a one-token field that is neither an integer nor a recognised span is rejected with "Invalid cron entry" |
| CronParse.SingleValueExample | txscheduling/cron.py:328-329 | `parseCronEntry('0', 0, 12)` is `[0]` |
| CronParse.StarExample | txscheduling/cron.py:332-333 | `parseCronEntry('*', 0, 3)` is `[0, 1, 2, 3]` |
| CronParse.RangeExample | txscheduling/cron.py:336-337 | `parseCronEntry('3-5', 0, 12)` is `[3, 4, 5]` |
| CronParse.StepFromZeroExample | txscheduling/cron.py:340-341 | the stepped star by 3 in `[0, 12]` is `[0, 3, 6, 9, 12]` |
| CronParse.StepExample | txscheduling/cron.py:344-345 | the stepped star by 3 in `[1, 12]` is `[3, 6, 9, 12]`: steps count from 0, not from the minimum |
| CronParse.AlignedRangeStepExample | txscheduling/cron.py:348-349 | `parseCronEntry('3-9/3', 0, 12)` is `[3, 6, 9]` |
| CronParse.RangeStepExample | txscheduling/cron.py:352-353 | `parseCronEntry('2-10/3', 0, 12)` is `[3, 6, 9]` |
| CronParse.ValueListExample | txscheduling/cron.py:356-357 | `parseCronEntry('1,3,5', 1, 12)` is `[1, 3, 5]` |
| CronParse.RangeListExample | txscheduling/cron.py:360-361 | `parseCronEntry('1-3,6-9', 1, 12)` is `[1, 2, 3, 6, 7, 8, 9]` |
| CronParse.ComplexExample | txscheduling/cron.py:364-365 | the four-token field of the docstring in `[1, 30]` is `[1, 5, 10, 12, 13, 14, 15, 20, 24, 25, 27, 30]` |
| CronParse.ArgumentExamples | txscheduling/cron.py:379-400 | a negative minimum, a minimum above the maximum and an empty entry are rejected with their own errors |
| CronParse.OutOfRangeExamples | txscheduling/cron.py:409-418 | `'0'` and `'6'` in `[1, 5]` are rejected as out of range, naming the value twice |
| CronParse.NegativeValueExample | txscheduling/cron.py:420-423 | `'-6'` in `[1, 5]` is taken as the value -6 and rejected as out of range |
| CronParse.ReversedRangeExample | txscheduling/cron.py:426-429 | `'3-1'` is rejected with "Invalid range or step specified: 3-1" |
| CronParse.LargeStepExample | txscheduling/cron.py:432-435 | `'1-5/40'` in `[1, 5]` is rejected with "Invalid range or step specified: 1-5/40" |
| CronParse.NegativeStepExample | txscheduling/cron.py:438-441 | `'1-5/-2'` matches no pattern and is rejected with "Invalid cron entry" |
| CronParse.GarbageExample | txscheduling/cron.py:443-446 | `'this is garbage'` is rejected with "Invalid cron entry" |
| CronParse.RenderRoundTrip | txscheduling/cron.py:316-539 | parsing is idempotent: a parsed field written back as comma-separated decimals parses to the same list |
| CronParse.ParseCronLine | txscheduling/cron.py:258-314 | the parser equals `LineSpec`, and every list of a parsed line is valid for its field's bounds (0-59, 0-23, 1-31, 1-12, 0-6) |
| CronParse.FieldCount | txscheduling/cron.py:301-304 | a nonempty line fails for its field count exactly when it does not have five whitespace-separated fields, and the error carries that count |
| CronParse.BlankLine | txscheduling/cron.py:295-304 | a blank but nonempty line is rejected with "Improper number of elements encountered: 1" |
| CronParse.StarLine | txscheduling/cron.py:268-274 | `'* * * * *'` yields the full range of every field |
| CronParse.LineRoundTrip | txscheduling/cron.py:258-314 | parsing a line is idempotent: a parsed line written back out parses to the same five lists |
| Cron.NewCronSchedule | txscheduling/cron.py:24-31 | the schedule holds exactly the lists of the parsed line, or fails with the line's parse error |
| Cron.Equals | txscheduling/cron.py:33-41 | two schedules are equal exactly when all five lists are equal; a schedule never equals an object of another type |
| Cron.EqualsLines | txscheduling/cron.py:33-41 | schedules built from two lines are equal exactly when the lines parse to the same lists |
| Cron.FirstAbove | txscheduling/cron.py:52-53 | the first-match loop `for v in xs: if v > x` returns a listed value above `x` and the least such value in an ascending list; it returns nothing only when no value is above `x` |
| Cron.FullField | txscheduling/cron.py:71-75 | a field has as many entries as its bounds allow (`len(self._doms) == 31`, `len(self._dows) == 7`) exactly when it holds every value of its bounds |
| Cron.NormalisedDows | txscheduling/cron.py:87-91 | moving Sunday from 0 to 7 keeps a valid list of the same length that admits ISO weekday `w` exactly when the cron list admits `w % 7` |
| Cron.DayTests | txscheduling/cron.py:152-155 | the day-field tests mean "every value admitted"; the corrected day test implies the one as written; with exactly one day field unrestricted the test as written admits every day |
| Cron.NextMinute | txscheduling/cron.py:223-228 | `_getNextMinute` changes only the minute, to the least admitted minute above the current one, and finds one whenever one exists |
| Cron.NextHour | txscheduling/cron.py:210-221 | `_getNextHour` changes only hour and minute, to the earliest admitted hour and minute later the same day, and finds it whenever one exists |
| Cron.WeekdayGap | txscheduling/cron.py:169-178 | the weekday distance is 1 to 7 days, lands on a listed weekday and skips none |
| Cron.DomDistance | txscheduling/cron.py:180-184 | the day-of-month distance leads to a listed day, and to the nearest one above the current day |
| Cron.DistanceLands | txscheduling/cron.py:161-196 | the day the combined distance leads to is admitted by the day fields |
| Cron.DistanceReaches | txscheduling/cron.py:161-196 | no admitted day lies closer than the combined distance |
| Cron.MovedDay | txscheduling/cron.py:198-208 | moving ahead by the distance either overflows past 9999-12-31, leaves the month, or lands on an admitted day of the month at the first admitted hour and minute |
| Cron.NextDaySound | txscheduling/cron.py:134-208 | `_getNextDay` returns a later valid instant of the same month at an admitted hour and minute, on an admitted day (with the test as written, possibly the reference day itself); it raises only `OverflowError` |
| Cron.SameDayFound | txscheduling/cron.py:152-159 | when the same-day test passes and an hour and minute remain that day, `_getNextDay` returns them |
| Cron.NextDayEarliest | txscheduling/cron.py:134-208 | `_getNextDay` skips no admitted instant later in the month |
| Cron.FirstDayNumberMeaning | txscheduling/cron.py:66-132 | `_getFirstDay` raises exactly when only the day-of-month field is restricted and its first day is past the month's end; otherwise it picks an admitted day of the month |
| Cron.FirstDayShortcuts | txscheduling/cron.py:77-101 | the shortcuts of `_getFirstDay`: the first listed day when only the day-of-month field is restricted, and day 1 when both fields are unrestricted, the 1st's weekday is listed, or the 1st is listed |
| Cron.FirstDayNumberEarliest | txscheduling/cron.py:66-132 | no admitted day of the month comes before the one `_getFirstDay` picks |
| Cron.FirstDaySound | txscheduling/cron.py:66-132 | `_getFirstDay` never signals `NoMatch`; it raises only the day error of lines 82-83 (and exactly then); on success it returns an admitted day of the same month |
| Cron.FirstDayEarliest | txscheduling/cron.py:66-132 | when the month has an admitted day, `_getFirstDay` returns a day no later than it |
| Cron.LaterMonthStartFacts | txscheduling/cron.py:51-64 | the month `_getNextMonth` moves to is admitted and later than the reference month; there is none only in year 9999 |
| Cron.LaterMonthStartEarliest | txscheduling/cron.py:51-64 | the month `_getNextMonth` moves to is no later than the month of any later admitted instant |
| Cron.LaterMonthResult | txscheduling/cron.py:51-64 | moving to a later month never signals `NoMatch`; it finds a later instant that matches every field, or raises the day error, or raises in year 9999 |
| Cron.LaterMonthEarliest | txscheduling/cron.py:51-64 | no admitted instant in a later month comes before what the later-month search returns, unless that search raises the day error |
| Cron.NextMonthSound | txscheduling/cron.py:43-64 | `_getNextMonth` never lets `NoMatch` escape; it returns a later instant at an admitted minute, hour and month on an admitted day (or, with the test as written, on the reference day); it raises only the day error of lines 82-83 or in year 9999 |
| Cron.NextMonthEarliest | txscheduling/cron.py:43-64 | no admitted instant after the reference instant comes before what `_getNextMonth` returns, unless the search raises the day error first |
| Cron.TruncateOrder | txscheduling/cron.py:237 | a whole minute is after `current` exactly when it is after `current` with its seconds and microseconds cleared |
| Cron.GetNextEntrySound | txscheduling/cron.py:230-237 | `getNextEntry` returns a whole minute after `current` that matches minute, hour, month and (except for the same-day test as written) day; it raises only the day error or in year 9999 |
| Cron.GetNextEntryEarliest | txscheduling/cron.py:230-237 | no admitted whole minute after `current` comes before what `getNextEntry` returns, unless the search raises the day error first |
| Cron.GetNextEntryCorrectedExact | txscheduling/cron.py:230-237 | with the corrected same-day test, the result is admitted and no admitted whole minute after `current` comes before it |
| Cron.LooseSameDay | txscheduling/cron.py:152-159 | with the day-of-week field `*` and a restricted day-of-month field, from a day not in the list `getNextEntry` returns a time on that same day, which the schedule does not admit |
| Cron.DowsUnrestricted | txscheduling/cron.py:152-155 | with the day-of-week field `*`, cron's rule admits exactly the listed days of the month |
| Cron.NoonOnFifteenth | txscheduling/cron.py:24-31 | `0 12 15 * *` is a valid schedule whose day-of-week field alone is unrestricted |
| Cron.NoonOnFifteenthAsWritten | txscheduling/cron.py:152-159 | for `0 12 15 * *`, from any time before noon on a day other than the 15th, `getNextEntry` returns noon of that same day |
| Cron.NoonOnFifteenthCorrected | txscheduling/cron.py:152-159 | for `0 12 15 * *` with the corrected test, from any time before the 15th the search returns noon on the 15th of that month |
| Cron.MidnightOnThirtyFirst | txscheduling/cron.py:24-31 | `0 0 31 * *` is a valid schedule whose day-of-week field alone is unrestricted |
| Cron.ShortMonthRaises | txscheduling/cron.py:82-83 | for `0 0 31 * *`, `_getFirstDay` raises the day error in a month with fewer than 31 days |
| Cron.ThirtyFirstRaises | txscheduling/cron.py:43-83 | for `0 0 31 * *`, from the 31st of a month followed by a shorter month, `getNextEntry` raises "day is out of range for month" instead of moving on to the next month that has a 31st |
| Calendar.DaysInMonth | txscheduling/cron.py:82-83 | a month has 28 to 31 days; 31 exactly for months 1, 3, 5, 7, 8, 10 and 12; February has 29 exactly in leap years |
| Calendar.AddDaysWeekday | txscheduling/cron.py:198-208 | adding `n` days advances the ISO weekday by `n` modulo 7 |
| Calendar.AddDaysInMonth | txscheduling/cron.py:198-208 | adding days that stay within the month changes only the day of the month |
| Calendar.AddDaysLeaveMonth | txscheduling/cron.py:198-208 | adding days past the month's end leaves the month, or overflows only from December 9999 |
| Calendar.FirstDayMonday | txscheduling/cron.py:93 | 0001-01-01 is day 1 of the count and ISO weekday 1 (Monday), as `toordinal` and `isoweekday` number them |
| Calendar.August31Sunday | txscheduling/cron.py:155 | 2008-08-31 is ordinal 733285 and ISO weekday 7 (Sunday) |
| Cron.September2008 | txscheduling/cron.py:170 | day `d` of September 2008 falls on ISO weekday `(d + 6) % 7 + 1` |
| Cron.SunWedFriNextEntry | txscheduling/tests/cron.py:169-174 | `* * * * 0,3,5` from 2008-08-31 23:59 gives 2008-09-03 00:00, the next Wednesday |
| Calendar.WeekdayShift | txscheduling/cron.py:169-178 | within a month, the weekday advances cyclically with the day of the month |
| Task.Clock.CallLater | txscheduling/task.py:117 | `callLater` adds exactly one new timer, due `delay` after now, and leaves the other timers and the time unchanged |
| Task.Clock.Cancel | txscheduling/task.py:88 | `cancel` removes exactly that timer |
| Task.PendingTimers | txscheduling/task.py:112-117 | of the timers a valid driver has armed, only the one in `call` is still pending, and none when `call` is empty |
| Task.ScheduledCall.constructor | txscheduling/task.py:32-42 | a new driver is stopped, with no timer and no completion Deferred, and `_lastTime` is 0 |
| Task.ScheduledCall.Reschedule | txscheduling/task.py:112-117 | with a timer pending nothing changes; otherwise the schedule's exception propagates with nothing changed, or exactly one timer is armed, `delay` from now, and `_lastTime` is its due time |
| Task.ScheduledCall.Release | txscheduling/task.py:90-91 | the slot is emptied and the Deferred it held is resolved once with the given outcome; an empty slot is the `AttributeError` of calling a method on `None` |
| Task.ScheduledCall.Start | txscheduling/task.py:45-79 | on a running driver the assertion fails and nothing changes; otherwise a new Deferred fills the slot and is returned and one timer is pending; if the schedule raises, the driver is left stopped with an empty slot and the exception propagates |
| Task.ScheduledCall.Stop | txscheduling/task.py:82-91 | on a stopped driver the assertion fails and nothing changes; otherwise the driver stops; a pending timer is cancelled and the Deferred is resolved with `callback(self)`; during an invocation the Deferred is left for the invocation's completion |
| Task.ScheduledCall.Fire | txscheduling/task.py:106-107 | the reactor runs the pending timer: time advances to its due time, the timer is gone, `call` is cleared and one more invocation is in flight |
| Task.ScheduledCall.Complete | txscheduling/task.py:94-109 | when the invocation's Deferred fires: success re-arms a running driver or resolves a stopped driver's Deferred with `callback(self)`; failure (including the schedule raising inside `cb`) stops the driver and resolves its Deferred with `errback(failure)` |
| Task.CalledTwiceThenStopped | txscheduling/tests/task.py:194-211 | a function on a one-second schedule is called at times 1 and 2; `stop` resolves the Deferred `start` returned with `callback(self)`, and no timer is left |
| Task.FailingFunction | txscheduling/tests/task.py:87-103 | a function that raises makes the Deferred `start` returned fire once with `errback`, and stops the driver without re-arming |
| Task.StoppedWhileRunning | txscheduling/task.py:82-99 | `stop` during an invocation resolves nothing at once; the Deferred fires with `callback(self)` when the invocation completes, and nothing is re-armed |
| Task.RestartedWhileRunning | txscheduling/task.py:45-99 | `start` again after `stop` during an invocation replaces the first Deferred, which is then never resolved, and arms a timer while the invocation is still in flight |
| Task.ScheduleFailsAtStart | txscheduling/task.py:60-77 | a schedule that raises in `start` leaves the driver stopped with an empty slot, and a later `start` succeeds |

## Left out

- `getDelayForNext` (cron.py:239-242) needs the wall clock (`time.time`) and local time (`time.mktime`). The search it calls is modelled; the conversion to seconds is not.
- The `datetime.now()` default of `getNextEntry` is left out. The reference instant is always a parameter.
- The `isinstance` checks for non-string lines and entries (cron.py:298-299, 452-453, 469-470) are left out. The `int(min)`/`int(max)` conversion (cron.py:455-459) is left out too. The model takes only strings and integers, so these cases cannot arise.
- zope interface declarations and the `ISchedule(schedule)` adaptation (task.py:59) are left out. `start` receives what the schedule's `getDelayForNext` returns or raises.
- Twisted's Deferred machinery is left out:
  - callback chaining, `maybeDeferred`, and the callbacks a user adds to the Deferred `start` returns;
  - a Deferred is a number, and its resolution is an entry in a log.
  - The function the driver calls is not modelled, nor its `*a`/`**kw` arguments. Its outcome is the `result` parameter of `Complete`.
- Logging and `__repr__` (task.py:69, 79, 120 onwards) are left out.
- Time is an integer, not a float; `delay` is an integer number of time units.
- Task.ScheduledCall.Valid: does not promise that a timer is pending only while the driver runs, nor that `_lastTime` is the pending timer's due time. The code breaks both after `stop` during an invocation, a restart, and a failing invocation, because `eb` (task.py:101-104) does not cancel the new timer.
- Task.ScheduledCall.Release: an empty slot yields `EmptySlot`. The model does not follow the `AttributeError` further into Twisted's error handling.
- Cron.GetNextEntryEarliest: states "nothing admitted is skipped" only when the search does not raise the day error. The code raises that error for some valid schedules (see `Cron.ThirtyFirstRaises`).
- The docstring examples of `parseCronEntry` with a non-string entry or non-integer bounds (cron.py:367-377, 391-406) are not stated: the model's arguments are strings and integers (see the `isinstance` line above).
- Cron.GetNextEntry: of the fixed-date expectations in tests/cron.py, only the `* * * * 0,3,5` one (lines 169-174) is stated, as `Cron.SunWedFriNextEntry`. The others follow from `Cron.GetNextEntrySound` and `Cron.GetNextEntryEarliest` but are not written out.

## Findings

| source | as written | input that shows it | evidently intended | confidence | as-written member | corrected member |
|---|---|---|---|---|---|---|
| txscheduling/cron.py:152-159 | the same-day test of `_getNextDay` accepts a day when it is in the day-of-month list OR its weekday is in the day-of-week list, even when one of the two fields is `*`; so with exactly one day field unrestricted every day passes | `0 12 15 * *` from 2008-03-01 10:00 returns 2008-03-01 12:00 | 2008-03-15 12:00: with one day field `*`, only the other field counts, as `_getFirstDay` and the day distances already do | not executed | Cron.NoonOnFifteenthAsWritten | Cron.NoonOnFifteenthCorrected |

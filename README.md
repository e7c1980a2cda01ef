# PicaPica shift timer — a verified model

PicaPica is an Android app that times one work shift ("pique") at a time. It
stores each finished shift in a Room/SQLite table `shifts` and shows a
summary of the current week with one `"HH:MM - HH:MM"` line per weekday. This
project models the app's core in Dafny:

- the timer state machine of `PicaPicaViewModel`, as the class
  `ViewModel.PicaPicaViewModel`. Its fields are the two flags
  `isPiqueActive`/`isStopped`, the nullable `startTime`, the display strings,
  whether the ticking job is alive, and the weekly summary;
- the view model's pure helpers:
  - `formatTime` and `formatDuration`, in module `Formatting`;
  - `getStartOfWeek` and the group-by-weekday consolidation of
    `loadWeeklyHistory`, in module `WeeklyHistory`;
- the `ShiftDao` statements, as the class `ShiftDao.ShiftTable`. It is an
  in-memory `shifts` table: rows are kept in primary-key order, and
  `sequence` is SQLite's AUTOINCREMENT counter;
- Room's type converters `fromTimestamp`/`dateToTimestamp`, in module
  `Converters`;
- the parts of `java.time` they rely on, in module `JavaTime`:
  - a `LocalDateTime` is a whole epoch second read as a UTC wall-clock time,
    plus a nanosecond field;
  - the epoch second is limited to the range of `LocalDate`;
  - `Duration`, `toHours`, `toMinutes` and `toMillis`;
  - Java's truncating `/` and `%`.

The wall clock `LocalDateTime.now()` is an explicit parameter `now` of every
operation that reads it. This makes every transition deterministic.

Points where the model follows the code rather than a plain reading of the
app's intent:

- **Per-weekday winner.** The query orders by `date DESC`, and `date` is the
  shift's start, so the weekly line for a weekday comes from the
  latest-dated shift of that weekday (`WeeklyHistory.ConsolidateKeepsLatest`).
  It is not the last-inserted shift.
- **Stored duration.** `durationMillis` is computed from the full-precision
  times. The stored `startTime`/`endTime` columns are truncated to whole
  seconds. So the stored duration agrees with the stored columns only to
  within a second (`ViewModel.StoredDurationWithinASecond`,
  `ViewModel.StoredDurationMayDifferFromColumns`). It equals them exactly
  when both times are whole seconds.
- **Week window.** It is computed once, when the view model is created
  (`init` → `loadWeeklyHistory` → `getStartOfWeek`). It does not roll over at
  the next Monday while the view model lives.
- **Elapsed-time display with the clock set back.** If the wall clock moves
  back, `formatDuration` of the negative duration prints the sign inside a
  field, for example `"00:-5"` (`Formatting.ClockSetBackText`).
- **`toMillis`.** It is modelled as OpenJDK 8 rounds: toward negative
  infinity. Later JDKs differ only for negative durations.
- **Ties in the query order.** `ORDER BY date DESC` leaves the order of rows
  with equal `date` unspecified. The model fixes one order: a stable
  insertion sort over the id-ordered table, so ties come back in id order.
  The query's ordering and membership contracts, and
  `WeeklyHistory.ConsolidateKeepsLatest`, hold for any order of ties. Three
  statements assume ties in id order:
  - the exact summary that `CollectWeeklyHistory` sets. When two shifts of one
    weekday share a date second, the model shows the lower-id shift's line,
    while SQLite may return either shift first;
  - the before/after-delete equalities of `ShiftDao.RecentRowsAfterDelete`;
  - the same equality in `ShiftDao.ShiftTable.DeleteOldShifts`.

## Model

| member | source | states |
|---|---|---|
| Converters.FromTimestamp | app/src/main/java/com/picapica/app/data/AppDatabase.kt:10-12 | null maps to null; a long converts exactly when its day lies in `LocalDate`'s range (otherwise `ofEpochSecond` throws, modelled as `Failure`); the result has that epoch day, that second of the day, and no nanoseconds |
| Converters.DateToTimestamp | app/src/main/java/com/picapica/app/data/AppDatabase.kt:15-17 | null iff the input is null; otherwise the UTC epoch second, epoch day × 86400 + second of day |
| Converters.TimestampRoundTrip | app/src/main/java/com/picapica/app/data/AppDatabase.kt:10-17 | `dateToTimestamp(fromTimestamp(v)) == v` for every convertible long |
| Converters.DateRoundTrip | app/src/main/java/com/picapica/app/data/AppDatabase.kt:10-17 | `fromTimestamp(dateToTimestamp(d))` is `d` with its nanoseconds set to 0 |
| Converters.TimestampOrder | app/src/main/java/com/picapica/app/data/AppDatabase.kt:15-16 | the stored long is monotone in date-time order, a strictly smaller long means a strictly earlier time, and `<=` on longs is `<=` on times up to the dropped nanoseconds |
| JavaTime.DayOfWeekOf | app/src/main/java/com/picapica/app/viewmodel/PicaPicaViewModel.kt:124 | the ISO day number is (epoch day + 3) mod 7 + 1, Monday = 1 |
| JavaTime.NameInjective | app/src/main/java/com/picapica/app/viewmodel/PicaPicaViewModel.kt:124 | distinct weekdays have distinct `name`s, so grouping by name is grouping by weekday |
| JavaTime.Hour | app/src/main/java/com/picapica/app/viewmodel/PicaPicaViewModel.kt:97 | the hour lies in 0..23 |
| JavaTime.Minute | app/src/main/java/com/picapica/app/viewmodel/PicaPicaViewModel.kt:97 | the minute lies in 0..59 |
| JavaTime.MinusDays | app/src/main/java/com/picapica/app/viewmodel/PicaPicaViewModel.kt:138 | moves back whole days, keeping the time of day and the nanoseconds |
| JavaTime.AtStartOfDay | app/src/main/java/com/picapica/app/viewmodel/PicaPicaViewModel.kt:139 | same day, 00:00:00.000 |
| JavaTime.Between | app/src/main/java/com/picapica/app/viewmodel/PicaPicaViewModel.kt:58 | the duration's total nanoseconds are the difference of the two times; its seconds are non-negative iff the start is not after the end |
| JavaTime.JavaDivTruncates | app/src/main/java/com/picapica/app/viewmodel/PicaPicaViewModel.kt:101-102 | `JavaDiv`, Java's `/`, truncates toward zero: for a non-negative dividend the quotient is non-negative with q × b ≤ a < q × b + b; for a negative one it is non-positive with q × b − b < a ≤ q × b. `JavaDiv` has no contract beyond its two branches; this lemma states it |
| JavaTime.ToHours | app/src/main/java/com/picapica/app/viewmodel/PicaPicaViewModel.kt:101 | `toHours`: the whole hours, truncated toward zero. For a non-negative duration they are non-negative, and hours × 3600 ≤ seconds < hours × 3600 + 3600. For a negative one they are non-positive, with the bounds mirrored |
| JavaTime.ToMinutes | app/src/main/java/com/picapica/app/viewmodel/PicaPicaViewModel.kt:102 | `toMinutes`: the whole minutes, truncated toward zero, with the same bounds by 60 |
| JavaTime.JavaRem | app/src/main/java/com/picapica/app/viewmodel/PicaPicaViewModel.kt:102-103 | Java's `%`: truncated quotient × divisor + remainder is the dividend, the remainder lies strictly between −divisor and divisor, and for a non-negative dividend it is the usual remainder |
| JavaTime.ToMillis | app/src/main/java/com/picapica/app/viewmodel/PicaPicaViewModel.kt:81 | the largest whole number of milliseconds not above the duration |
| TextFormat.Digits | app/src/main/java/com/picapica/app/viewmodel/PicaPicaViewModel.kt:97 | all digits, reading back to `n`, with no leading zero unless `n` is 0; one digit iff `n < 10`, at most two iff `n < 100` |
| TextFormat.DigitsCanonical | app/src/main/java/com/picapica/app/viewmodel/PicaPicaViewModel.kt:97 | every digit string without a leading zero is `Digits` of its own value, so `Digits` is the unique shortest form |
| TextFormat.LeadingZero | app/src/main/java/com/picapica/app/viewmodel/PicaPicaViewModel.kt:97 | a leading `0` keeps the value read back |
| TextFormat.ZeroPad2 | app/src/main/java/com/picapica/app/viewmodel/PicaPicaViewModel.kt:97 | `%02d`: at least two characters; for `n >= 0` all digits reading back to `n`, exactly two iff `n < 100`, and from 10 on exactly `Digits(n)`; for `n < 0` exactly `-` followed by `Digits(-n)` |
| Formatting.FormatTime | app/src/main/java/com/picapica/app/viewmodel/PicaPicaViewModel.kt:96-98 | five characters `HH:MM`, digits around a colon, hour < 24, minute < 60, and the time's second of the day falls within the minute read back |
| Formatting.ClockFields | app/src/main/java/com/picapica/app/viewmodel/PicaPicaViewModel.kt:101-103 | for a non-negative duration, hours, minutes mod 60 and seconds mod 60 lie in range, add back up to its seconds, and the hours are positive iff it reaches one hour |
| Formatting.FormatDuration | app/src/main/java/com/picapica/app/viewmodel/PicaPicaViewModel.kt:100-109 | under an hour: `MM:SS` with both fields < 60 and minutes × 60 + seconds equal to the whole seconds; from an hour on: `H…H:MM:SS` whose hours field is `%02d` of the hours (so no extra leading zero), with hours ≥ 1, fields < 60, and hours × 3600 + minutes × 60 + seconds equal to the whole seconds |
| Formatting.ClockSetBackText | app/src/main/java/com/picapica/app/viewmodel/PicaPicaViewModel.kt:100-109 | five seconds before the start, the timer reads `"00:-5"` |
| ShiftEntity.ToRow | app/src/main/java/com/picapica/app/data/Shift.kt:8-14 | the stored row has convertible date columns, the chosen id and the same duration |
| ShiftEntity.FromRow | app/src/main/java/com/picapica/app/data/Shift.kt:8-14 | the shift read from a row has its id and duration, and writing it back gives the same row |
| ShiftEntity.RowRoundTrip | app/src/main/java/com/picapica/app/data/Shift.kt:8-14 | writing a shift and reading it back keeps everything but the nanoseconds, and takes the id chosen |
| ShiftDao.PutById | app/src/main/java/com/picapica/app/data/ShiftDao.kt:15-16 | the table stays in id order, contains the new row, and gains no other row |
| ShiftDao.PutByIdReplaces | app/src/main/java/com/picapica/app/data/ShiftDao.kt:15-16 | REPLACE: a row with the same id is overwritten in place and nothing else changes |
| ShiftDao.PutByIdAdds | app/src/main/java/com/picapica/app/data/ShiftDao.kt:15-16 | a new id adds exactly one row and keeps every other |
| ShiftDao.PutByIdAppends | app/src/main/java/com/picapica/app/data/ShiftDao.kt:15-16 | an id above every present id goes to the end |
| ShiftDao.KeepSince | app/src/main/java/com/picapica/app/data/ShiftDao.kt:18-19 | exactly the rows dated from the bound on, each as often as before |
| ShiftDao.KeepSinceSorted | app/src/main/java/com/picapica/app/data/ShiftDao.kt:18-19 | deleting keeps the table in id order |
| ShiftDao.KeepSinceIdempotent | app/src/main/java/com/picapica/app/data/ShiftDao.kt:18-19 | deleting twice with the same bound is deleting once |
| ShiftDao.KeepSinceKeepsTable | app/src/main/java/com/picapica/app/data/ShiftDao.kt:18-19 | deleting keeps id order, convertibility and the id bound, and leaves the query from the same bound unchanged |
| ShiftDao.InsertByDate | app/src/main/java/com/picapica/app/data/ShiftDao.kt:12 | inserting into a `date DESC` list keeps it ordered and adds exactly that row |
| ShiftDao.SortByDateDesc | app/src/main/java/com/picapica/app/data/ShiftDao.kt:12 | `ORDER BY date DESC`: ordered, and a permutation of its input |
| ShiftDao.RecentRows | app/src/main/java/com/picapica/app/data/ShiftDao.kt:12 | ordered by date descending, holding exactly the rows dated from the bound on, each as often as in the table |
| ShiftDao.RecentRowsAfterDelete | app/src/main/java/com/picapica/app/data/ShiftDao.kt:12-19 | the query gives the same rows before and after deleting with the same bound |
| ShiftDao.InsertedRowIsRecent | app/src/main/java/com/picapica/app/data/ShiftDao.kt:12-16 | after inserting a row dated from the bound on, the query returns it |
| ShiftDao.ReadAll | app/src/main/java/com/picapica/app/data/ShiftDao.kt:13 | Room builds one shift per row, in order |
| ShiftDao.RecentRowsMembers | app/src/main/java/com/picapica/app/data/ShiftDao.kt:12 | the query returns only rows of the table dated from the bound on |
| ShiftDao.ReadRecentOrdered | app/src/main/java/com/picapica/app/data/ShiftDao.kt:12-13 | the shifts read are latest first, whole seconds, and dated from the bound on |
| ShiftDao.ReadRecentComplete | app/src/main/java/com/picapica/app/data/ShiftDao.kt:12-13 | every row dated from the bound on is read back |
| ShiftDao.ReadRecentSound | app/src/main/java/com/picapica/app/data/ShiftDao.kt:12-13 | every shift read comes from a row dated from the bound on |
| ShiftDao.SortedByIdOnce | app/src/main/java/com/picapica/app/data/Shift.kt:9 | a table with strictly increasing primary keys holds each row at most once |
| ShiftDao.ReadRecentDistinct | app/src/main/java/com/picapica/app/data/ShiftDao.kt:12-13 | no two shifts read from one query share an id |
| ShiftDao.ReadRecent | app/src/main/java/com/picapica/app/data/ShiftDao.kt:12-13 | the five facts above for one query: order, window, completeness, soundness, distinct ids |
| ShiftDao.ShiftTable.constructor | app/src/main/java/com/picapica/app/data/ShiftDao.kt:11 | an empty table whose AUTOINCREMENT counter is 0 |
| ShiftDao.ShiftTable.InsertShift | app/src/main/java/com/picapica/app/data/ShiftDao.kt:15-16 | id 0: one row appended, its id one above the counter and above every existing id; an existing id: that row replaced in place; a new nonzero id: exactly one row added; the counter tracks the largest id; the table invariant is kept |
| ShiftDao.ShiftTable.DeleteOldShifts | app/src/main/java/com/picapica/app/data/ShiftDao.kt:18-19 | exactly the rows dated before the bound are gone, every other row stays, the counter is unchanged, and the query from that bound is unchanged |
| ShiftDao.ShiftTable.RecentShifts | app/src/main/java/com/picapica/app/data/ShiftDao.kt:12-13 | latest first; every stored shift dated from the bound on is in the result, every result is such a stored shift read back without nanoseconds, and no two results share an id, so each stored shift appears once |
| ShiftDao.ShiftTable.LastShift | app/src/main/java/com/picapica/app/data/ShiftDao.kt:21-22 | null iff the table is empty; otherwise a stored shift whose id is the largest |
| WeeklyHistory.PreviousMondayInRange | app/src/main/java/com/picapica/app/viewmodel/PicaPicaViewModel.kt:138 | going back to the same or previous Monday never leaves `LocalDate`'s range, whose first day is a Monday |
| WeeklyHistory.StartOfWeek | app/src/main/java/com/picapica/app/viewmodel/PicaPicaViewModel.kt:135-140 | a Monday at 00:00:00.000, not after `now`, less than seven days before it, and on `now`'s own day when `now` is a Monday |
| WeeklyHistory.StartOfWeekUnique | app/src/main/java/com/picapica/app/viewmodel/PicaPicaViewModel.kt:135-140 | it is the only Monday midnight in the seven days up to `now` |
| WeeklyHistory.WeekdayKeyIsName | app/src/main/java/com/picapica/app/viewmodel/PicaPicaViewModel.kt:124 | `WeekdayKey`, the grouping key `date.dayOfWeek.name`, is one of the seven `DayOfWeek` names |
| WeeklyHistory.SameWeekdayKey | app/src/main/java/com/picapica/app/viewmodel/PicaPicaViewModel.kt:124 | two shifts share the grouping key iff their dates lie a whole number of weeks apart |
| WeeklyHistory.DayRangeFields | app/src/main/java/com/picapica/app/viewmodel/PicaPicaViewModel.kt:127 | `DayRange`, a weekday's line, is 13 characters: the start's `HH:MM`, `" - "`, and the end's `HH:MM`, or the start's again when there is no end |
| WeeklyHistory.HasWeekdayStep | app/src/main/java/com/picapica/app/viewmodel/PicaPicaViewModel.kt:124 | a weekday occurs in a list iff it is the head's or occurs in the tail |
| WeeklyHistory.ConsolidateWeekdayNames | app/src/main/java/com/picapica/app/viewmodel/PicaPicaViewModel.kt:123-128 | every key of the summary is a `DayOfWeek` name, so it has at most seven lines |
| WeeklyHistory.ConsolidateKeys | app/src/main/java/com/picapica/app/viewmodel/PicaPicaViewModel.kt:123-128 | `Consolidate`, the `groupBy`/`mapValues` of lines 123-128: its keys are exactly the weekday names of the shifts (none for an empty list). `Consolidate` has no contract of its own; this lemma, `ConsolidateFirst` and `ConsolidateKeepsLatest` state it |
| WeeklyHistory.ConsolidateFirst | app/src/main/java/com/picapica/app/viewmodel/PicaPicaViewModel.kt:125-127 | each weekday's line is `formatTime(start) - formatTime(end ?: start)` of the first shift of that weekday in list order |
| WeeklyHistory.ConsolidateKeepsLatest | app/src/main/java/com/picapica/app/viewmodel/PicaPicaViewModel.kt:121-128 | on the query's date-descending list, each weekday's line belongs to a shift of that weekday dated no earlier than any other of that weekday |
| WeeklyHistory.StoredShiftDescribedAlike | app/src/main/java/com/picapica/app/viewmodel/PicaPicaViewModel.kt:124-127 | storing a shift and reading it back changes neither its weekday nor its line |
| ViewModel.PicaPicaViewModel.constructor | app/src/main/java/com/picapica/app/viewmodel/PicaPicaViewModel.kt:16-29 | the initial state (both flags false, `"00:00"`, `"00:00 - 00:00"`, no start time, no ticking job, empty summary) and the week window `getStartOfWeek(now)` |
| ViewModel.PicaPicaViewModel.TogglePique | app/src/main/java/com/picapica/app/viewmodel/PicaPicaViewModel.kt:31-40 | running flips on every toggle, so the phase goes running → stopped and idle or stopped → running; from running it has the stop effect; otherwise it discards a stopped interval and starts at `now`, leaving the table alone |
| ViewModel.PicaPicaViewModel.StopIfActive | app/src/main/java/com/picapica/app/viewmodel/PicaPicaViewModel.kt:42-46 | when running, exactly the stop effect of `togglePique` and the phase becomes stopped; otherwise nothing changes |
| ViewModel.PicaPicaViewModel.StartPique | app/src/main/java/com/picapica/app/viewmodel/PicaPicaViewModel.kt:48-63 | running from `now`, not stopped, ticking, `"00:00"`, `formatTime(now) - 00:00` |
| ViewModel.PicaPicaViewModel.StopPique | app/src/main/java/com/picapica/app/viewmodel/PicaPicaViewModel.kt:65-85 | stopped, ticking cancelled, the start time and timer text kept, the interval text `formatTime(start) - formatTime(now)`, and exactly one row appended: dated and started at the start, ended at `now`, with the milliseconds between them, under the next AUTOINCREMENT id |
| ViewModel.PicaPicaViewModel.Reset | app/src/main/java/com/picapica/app/viewmodel/PicaPicaViewModel.kt:87-94 | exactly the initial values again; the table and the summary are unchanged |
| ViewModel.PicaPicaViewModel.Tick | app/src/main/java/com/picapica/app/viewmodel/PicaPicaViewModel.kt:55-62 | while the job is alive, the timer text is `formatDuration(now - start)`; otherwise nothing changes |
| ViewModel.PicaPicaViewModel.CollectWeeklyHistory | app/src/main/java/com/picapica/app/viewmodel/PicaPicaViewModel.kt:118-133 | the summary becomes the consolidation of the query from the week's start; nothing else changes |
| ViewModel.CompletedShift | app/src/main/java/com/picapica/app/viewmodel/PicaPicaViewModel.kt:76-82 | the shift `stopPique` inserts: id 0 for the database to choose, dated and started at the start, ended at the end, with the elapsed nanoseconds floored to whole milliseconds, non-negative when the start is not after the end |
| ViewModel.StoppedIntervalIsHistoryLine | app/src/main/java/com/picapica/app/viewmodel/PicaPicaViewModel.kt:70-83 | the stored shift's weekly line is the interval text shown when it stopped, under the weekday of its start |
| ViewModel.StoredDurationWithinASecond | app/src/main/java/com/picapica/app/viewmodel/PicaPicaViewModel.kt:72-81 | for a start not after the end, the stored duration is non-negative, within a second of the stored columns' difference, and equal to it when both times are whole seconds |
| ViewModel.StoredDurationMayDifferFromColumns | app/src/main/java/com/picapica/app/viewmodel/PicaPicaViewModel.kt:72-81 | half a second across a second boundary is stored as 500 ms, with columns one second apart |
| ViewModel.WeeklyHistoryCoversStoredShifts | app/src/main/java/com/picapica/app/viewmodel/PicaPicaViewModel.kt:118-130 | every stored shift dated from the week's start has its weekday in the summary, with the line of the latest-dated shift of that weekday |
| ViewModel.WeekStartIncluded | app/src/main/java/com/picapica/app/viewmodel/PicaPicaViewModel.kt:120-121 | a shift dated exactly Monday 00:00:00 is in the week's query |
| ViewModel.SecondBeforeMondayMidnight | app/src/main/java/com/picapica/app/viewmodel/PicaPicaViewModel.kt:135-140 | the second before the week's start is the Sunday before at 23:59:59 |
| ViewModel.LastSecondBeforeWeekExcluded | app/src/main/java/com/picapica/app/viewmodel/PicaPicaViewModel.kt:120-121 | a shift dated one second before the week's start, a Sunday, is not in the week's query |
| ViewModel.OneSecondTimerText | app/src/main/java/com/picapica/app/viewmodel/PicaPicaViewModel.kt:100-109 | one second in, the timer reads `"00:01"` |
| ViewModel.WednesdayShift | app/src/main/java/com/picapica/app/viewmodel/PicaPicaViewModel.kt:65-85 | a shift from 09:00:00 to 17:30:15 on a Wednesday is stored with 30615000 ms and summarised as `WEDNESDAY -> "09:00 - 17:30"` |

## Left out

- Coroutines: the ticking loop (`launch`, `while (true)`, `delay(1000)`) is one `Tick(now)` per pass, and `Job.cancel` is the flag `timerJobActive`. The asynchronous insert in `stopPique` is done before `StopPique` returns. The reactive `Flow.collect` of `loadWeeklyHistory` is one `CollectWeeklyHistory()` per emission over the table as it then is. Scheduling, cancellation races and emission timing are not modelled.
- `LocalDateTime.now()` is the parameter `now`, and the time zone is UTC throughout. The device's zone rules and DST are not modelled.
- `StateFlow` publication to the UI, the Compose screens, `MainActivity`, the view-model factory and `AppDatabase.getDatabase` (a synchronised singleton around Room's builder) are not part of this model.
- Room and SQLite internals: the four statements are modelled by their meaning only. Failures of the database (disk full, I/O errors, a full AUTOINCREMENT counter at the largest 64-bit id) are not modelled.
- 64-bit overflow: ids and `durationMillis` are unbounded integers. `toMillis` of a duration beyond about 292 million years throws `ArithmeticException` in Java, which is not modelled.
- Locale of `String.format`: `%02d` is modelled with ASCII digits and a leading `-`.
- Formatting.FormatDuration: its contract speaks only of non-negative durations. A negative one (the clock set back) is computed as Java does but described only by the example `Formatting.ClockSetBackText`.
- ShiftDao.ShiftTable.RecentShifts: the model returns rows with equal `date` in id order. SQL leaves that order open. `CollectWeeklyHistory`'s exact summary and the before/after-delete equalities rely on this order (see "Ties in the query order" above).

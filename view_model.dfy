/**
 * `PicaPicaViewModel`: the start/stop timer of one shift, its display
 * strings, and the weekly summary it keeps from the `shifts` table. The
 * wall clock (`LocalDateTime.now()`) is the parameter `now` of every
 * operation that reads it.
 */
module ViewModel {
  import opened Wrappers
  import opened JavaTime
  import opened Converters
  import opened TextFormat
  import opened Formatting
  import opened ShiftEntity
  import opened ShiftDao
  import opened WeeklyHistory

  const IDLE_TIMER_TEXT: string := "00:00"
  const IDLE_INTERVAL_TEXT: string := "00:00 - 00:00"
  const RUNNING_END_TEXT: string := "00:00"

  /**
   * The shift `stopPique` hands to the table: dated at its start, id left to
   * the database, and the elapsed time floored to whole milliseconds.
   */
  function CompletedShift(start: LocalDateTime, end: LocalDateTime): (s: Shift)
    ensures s.id == 0 && s.date == start && s.startTime == start && s.endTime == Some(end)
    ensures var elapsed := (end.epochSecond - start.epochSecond) * NANOS_PER_SECOND + end.nano - start.nano;
      s.durationMillis * NANOS_PER_MILLI <= elapsed < (s.durationMillis + 1) * NANOS_PER_MILLI
    ensures IsBeforeOrEqual(start, end) ==> s.durationMillis >= 0
  {
    Shift(0, start, start, Some(end), ToMillis(Between(start, end)))
  }

  /** The three states the two flags allow: idle, running, and stopped with the interval still shown. */
  datatype Phase = Idle | Running | StoppedUncommitted

  class PicaPicaViewModel {
    var timerText: string
    var intervalText: string
    var isPiqueActive: bool
    var isStopped: bool
    var startTime: Option<LocalDateTime>
    /** Whether the one-second ticking job is alive (`timerJob` not cancelled). */
    var timerJobActive: bool
    var weeklyHistory: map<string, string>
    const shiftDao: ShiftTable
    /** The week window's start, fixed when the view model is created. */
    const monday: LocalDateTime

    function CurrentPhase(): Phase
      reads this
    {
      if isPiqueActive then Running else if isStopped then StoppedUncommitted else Idle
    }

    ghost predicate Valid()
      reads this, shiftDao
    {
      shiftDao.Valid() &&
      IsMondayMidnight(monday) &&
      !(isPiqueActive && isStopped) &&
      (startTime.Some? <==> isPiqueActive || isStopped) &&
      timerJobActive == isPiqueActive &&
      (!isPiqueActive && !isStopped ==> timerText == IDLE_TIMER_TEXT && intervalText == IDLE_INTERVAL_TEXT) &&
      (isPiqueActive ==> intervalText == FormatTime(startTime.value) + " - " + RUNNING_END_TEXT) &&
      (isStopped ==> |intervalText| == 13 && intervalText[..8] == FormatTime(startTime.value) + " - ")
    }

    /** The values the fields start with, and the ones `reset` puts back. */
    predicate IsInitial()
      reads this
    {
      !isPiqueActive && !isStopped && startTime == None && !timerJobActive &&
      timerText == IDLE_TIMER_TEXT && intervalText == IDLE_INTERVAL_TEXT
    }

    /** The state `startPique` leaves behind when started at `now`. */
    predicate RunningFrom(now: LocalDateTime)
      reads this
    {
      isPiqueActive && !isStopped && startTime == Some(now) && timerJobActive &&
      timerText == IDLE_TIMER_TEXT && intervalText == FormatTime(now) + " - " + RUNNING_END_TEXT
    }

    /**
     * The effect of `stopPique` at `now`: stopped, ticking cancelled, the
     * interval text completed, and exactly one shift appended to the table.
     */
    twostate predicate StoppedAt(now: LocalDateTime)
      reads this, shiftDao
    {
      old(startTime).Some? &&
      !isPiqueActive && isStopped && !timerJobActive &&
      startTime == old(startTime) && timerText == old(timerText) &&
      intervalText == FormatTime(old(startTime).value) + " - " + FormatTime(now) &&
      weeklyHistory == old(weeklyHistory) &&
      shiftDao.sequence == old(shiftDao.sequence) + 1 &&
      shiftDao.rows == old(shiftDao.rows) + [ToRow(CompletedShift(old(startTime).value, now), shiftDao.sequence)]
    }

    /** The view model over `dao`, created at `now`; `init` fixes the week window. */
    constructor(dao: ShiftTable, now: LocalDateTime)
      requires dao.Valid()
      ensures Valid() && IsInitial()
      ensures shiftDao == dao && monday == StartOfWeek(now) && weeklyHistory == map[]
    {
      timerText := IDLE_TIMER_TEXT;
      intervalText := IDLE_INTERVAL_TEXT;
      isPiqueActive := false;
      isStopped := false;
      startTime := None;
      timerJobActive := false;
      weeklyHistory := map[];
      shiftDao := dao;
      monday := StartOfWeek(now);
    }

    /** `togglePique`: stops a running timer; otherwise discards a stopped one and starts afresh. */
    method TogglePique(now: LocalDateTime)
      requires Valid()
      modifies this, shiftDao
      ensures Valid()
      ensures isPiqueActive == !old(isPiqueActive)
      ensures CurrentPhase() == if old(CurrentPhase()) == Running then StoppedUncommitted else Running
      ensures old(isPiqueActive) ==> StoppedAt(now)
      ensures !old(isPiqueActive) ==>
        RunningFrom(now) && weeklyHistory == old(weeklyHistory) &&
        shiftDao.rows == old(shiftDao.rows) && shiftDao.sequence == old(shiftDao.sequence)
    {
      if isPiqueActive {
        StopPique(now);
      } else {
        if isStopped {
          Reset();
        }
        StartPique(now);
      }
    }

    /** `stopIfActive`: the stopping branch of `togglePique`, and nothing when not running. */
    method StopIfActive(now: LocalDateTime)
      requires Valid()
      modifies this, shiftDao
      ensures Valid()
      ensures CurrentPhase() == if old(CurrentPhase()) == Running then StoppedUncommitted else old(CurrentPhase())
      ensures old(isPiqueActive) ==> StoppedAt(now)
      ensures !old(isPiqueActive) ==> unchanged(this) && unchanged(shiftDao)
    {
      if isPiqueActive {
        StopPique(now);
      }
    }

    /** `startPique`: only reached while not running. */
    method StartPique(now: LocalDateTime)
      requires Valid() && !isPiqueActive
      modifies this
      ensures Valid() && RunningFrom(now) && weeklyHistory == old(weeklyHistory)
    {
      startTime := Some(now);
      isPiqueActive := true;
      isStopped := false;
      intervalText := FormatTime(now) + " - " + RUNNING_END_TEXT;
      timerText := IDLE_TIMER_TEXT;
      timerJobActive := true;
    }

    /** `stopPique`: only reached while running; the insert is taken as done when it returns. */
    method StopPique(now: LocalDateTime)
      requires Valid() && isPiqueActive
      modifies this, shiftDao
      ensures Valid() && StoppedAt(now)
    {
      timerJobActive := false;
      var start := startTime.value;
      isPiqueActive := false;
      isStopped := true;
      intervalText := FormatTime(start) + " - " + FormatTime(now);
      shiftDao.InsertShift(CompletedShift(start, now));
    }

    /** `reset`: back to the initial values; the table is left alone. */
    method Reset()
      requires Valid()
      modifies this
      ensures Valid() && IsInitial()
      ensures weeklyHistory == old(weeklyHistory)
      ensures shiftDao.rows == old(shiftDao.rows) && shiftDao.sequence == old(shiftDao.sequence)
    {
      timerJobActive := false;
      isPiqueActive := false;
      isStopped := false;
      timerText := IDLE_TIMER_TEXT;
      intervalText := IDLE_INTERVAL_TEXT;
      startTime := None;
    }

    /** One pass of the ticking job's loop, when the job is alive. */
    method Tick(now: LocalDateTime)
      requires Valid()
      modifies this
      ensures Valid()
      ensures timerJobActive ==> timerText == FormatDuration(Between(startTime.value, now))
      ensures !timerJobActive ==> timerText == old(timerText)
      ensures intervalText == old(intervalText) && startTime == old(startTime)
      ensures isPiqueActive == old(isPiqueActive) && isStopped == old(isStopped)
      ensures timerJobActive == old(timerJobActive) && weeklyHistory == old(weeklyHistory)
    {
      if timerJobActive {
        timerText := FormatDuration(Between(startTime.value, now));
      }
    }

    /** One emission of `getRecentShifts(monday)` reaching the collector in `loadWeeklyHistory`. */
    method CollectWeeklyHistory()
      requires Valid()
      modifies this
      ensures Valid()
      ensures weeklyHistory == Consolidate(shiftDao.RecentShifts(monday))
      ensures timerText == old(timerText) && intervalText == old(intervalText)
      ensures isPiqueActive == old(isPiqueActive) && isStopped == old(isStopped)
      ensures startTime == old(startTime) && timerJobActive == old(timerJobActive)
    {
      weeklyHistory := Consolidate(shiftDao.RecentShifts(monday));
    }
  }

  /** The line the history shows for a stopped shift is the interval text shown when it stopped. */
  lemma StoppedIntervalIsHistoryLine(start: LocalDateTime, end: LocalDateTime, id: int)
    ensures WeekdayKey(FromRow(ToRow(CompletedShift(start, end), id))) == Name(DayOfWeekOf(start))
    ensures DayRange(FromRow(ToRow(CompletedShift(start, end), id))) == FormatTime(start) + " - " + FormatTime(end)
  {
    StoredShiftDescribedAlike(CompletedShift(start, end), id);
  }

  /**
   * The stored `durationMillis` is the exact duration in milliseconds of the
   * unrounded times, so it agrees with the stored whole-second columns only
   * to within one second, and exactly when both times are whole seconds.
   */
  lemma StoredDurationWithinASecond(start: LocalDateTime, end: LocalDateTime, id: int)
    requires IsBeforeOrEqual(start, end)
    ensures var row := ToRow(CompletedShift(start, end), id);
      var columns := (row.endTime.value - row.startTime) * 1000;
      0 <= row.durationMillis && columns - 1000 <= row.durationMillis < columns + 1000
    ensures start.nano == 0 && end.nano == 0 ==>
      var row := ToRow(CompletedShift(start, end), id);
      row.durationMillis == (row.endTime.value - row.startTime) * 1000
  {
    var ms := ToMillis(Between(start, end));
    var secs := end.epochSecond - start.epochSecond;
    assert ms * NANOS_PER_MILLI <= secs * NANOS_PER_SECOND + end.nano - start.nano < (ms + 1) * NANOS_PER_MILLI;
    DateRoundTrip(start);
    DateRoundTrip(end);
  }

  /** Half a second of work across a second boundary: stored as 500 ms, its columns one second apart. */
  lemma StoredDurationMayDifferFromColumns()
    ensures var row := ToRow(CompletedShift(LocalDateTime(0, 500_000_000), LocalDateTime(1, 0)), 1);
      row.durationMillis == 500 && row.endTime.value - row.startTime == 1
  {
    assert Between(LocalDateTime(0, 500_000_000), LocalDateTime(1, 0)) == Duration(0, 500_000_000);
  }

  /**
   * Every shift stored since the week's start appears in the summary under
   * its weekday, with the line of the latest-dated shift of that weekday.
   */
  lemma WeeklyHistoryCoversStoredShifts(dao: ShiftTable, monday: LocalDateTime, k: int)
    requires dao.Valid()
    requires 0 <= k < |dao.rows| && dao.rows[k].date >= DateToTimestamp(Some(monday)).value
    ensures var recent := dao.RecentShifts(monday); var day := DayOfWeekOf(FromRow(dao.rows[k]).date);
      Name(day) in Consolidate(recent) &&
      exists i :: LatestOfDay(recent, day, i) && Consolidate(recent)[Name(day)] == DayRange(recent[i])
  {
    var recent := dao.RecentShifts(monday);
    var s := FromRow(dao.rows[k]);
    assert s in recent;
    var j :| 0 <= j < |recent| && recent[j] == s;
    ConsolidateKeepsLatest(recent, DayOfWeekOf(s.date), j);
  }

  /** A shift dated exactly at the week's start, Monday 00:00:00, is in the week window. */
  lemma WeekStartIncluded(dao: ShiftTable, now: LocalDateTime, k: int)
    requires dao.Valid() && 0 <= k < |dao.rows| && dao.rows[k].date == StartOfWeek(now).epochSecond
    ensures FromRow(dao.rows[k]) in dao.RecentShifts(StartOfWeek(now))
  {
    DateRoundTrip(StartOfWeek(now));
  }

  /** The second before a Monday midnight is the Sunday before at 23:59:59. */
  lemma SecondBeforeMondayMidnight(m: LocalDateTime, d: LocalDateTime)
    requires IsMondayMidnight(m) && d.epochSecond == m.epochSecond - 1
    ensures DayOfWeekOf(d) == SUNDAY && SecondOfDay(d) == 86399
  {
    assert EpochDay(d) == EpochDay(m) - 1;
  }

  /** A shift dated one second before the week's start is not in the week window. */
  lemma LastSecondBeforeWeekExcluded(dao: ShiftTable, now: LocalDateTime, k: int)
    requires dao.Valid() && 0 <= k < |dao.rows| && dao.rows[k].date == StartOfWeek(now).epochSecond - 1
    ensures FromRow(dao.rows[k]) !in dao.RecentShifts(StartOfWeek(now))
    ensures DayOfWeekOf(FromRow(dao.rows[k]).date) == SUNDAY
  {
    SecondBeforeMondayMidnight(StartOfWeek(now), FromRow(dao.rows[k]).date);
  }

  /** The padded fields of the scenario's clock readings. */
  lemma ScenarioClockFields()
    ensures ZeroPad2(9) == "09" && ZeroPad2(0) == "00" && ZeroPad2(17) == "17" && ZeroPad2(30) == "30"
  {
    assert Digits(9) == "9" && Digits(0) == "0" && Digits(3) == "3";
    assert Digits(1) == "1" && Digits(7) == "7";
    assert Digits(17) == Digits(1) + "7" && Digits(30) == Digits(3) + "0";
  }

  /** The scenario's start reads "09:00". */
  lemma ScenarioStartText()
    ensures FormatTime(LocalDateTime(550800, 0)) == ZeroPad2(9) + ":" + ZeroPad2(0)
  {
    assert Hour(LocalDateTime(550800, 0)) == 9 && Minute(LocalDateTime(550800, 0)) == 0;
  }

  /** The scenario's end reads "17:30". */
  lemma ScenarioEndText()
    ensures FormatTime(LocalDateTime(581415, 0)) == ZeroPad2(17) + ":" + ZeroPad2(30)
  {
    assert Hour(LocalDateTime(581415, 0)) == 17 && Minute(LocalDateTime(581415, 0)) == 30;
  }

  /** The clock readings of the scenario below. */
  lemma ScenarioClockTexts()
    ensures FormatTime(LocalDateTime(550800, 0)) + " - " + FormatTime(LocalDateTime(581415, 0)) == "09:00 - 17:30"
  {
    ScenarioClockFields();
    ScenarioStartText();
    ScenarioEndText();
  }

  /** The two fields of the timer text one second in. */
  lemma ScenarioTimerFields()
    ensures ZeroPad2(0) + ":" + ZeroPad2(1) == "00:01"
  {
    assert Digits(0) == "0" && Digits(1) == "1";
    assert ZeroPad2(0) == "00" && ZeroPad2(1) == "01";
  }

  /** One second into a shift the timer reads "00:01". */
  lemma OneSecondTimerText()
    ensures FormatDuration(Duration(1, 0)) == "00:01"
  {
    assert ToHours(Duration(1, 0)) == 0 && ToMinutes(Duration(1, 0)) == 0;
    assert JavaRem(0, 60) == 0 && JavaRem(1, 60) == 1;
    ScenarioTimerFields();
    assert FormatDuration(Duration(1, 0)) == ZeroPad2(0) + ":" + ZeroPad2(1);
  }

  /** 1970-01-07 was a Wednesday. */
  lemma ScenarioDay()
    ensures WeekdayKey(Shift(0, LocalDateTime(550800, 0), LocalDateTime(550800, 0), None, 0)) == "WEDNESDAY"
  {
    var t := LocalDateTime(550800, 0);
    assert EpochDay(t) == 6;
    assert DayOfWeekValue(DayOfWeekOf(t)) == 3;
  }

  /** A one-shift week has one entry. */
  lemma SingleShiftSummary(s: Shift)
    ensures Consolidate([s]) == map[WeekdayKey(s) := DayRange(s)]
  {
    assert [s][1..] == [];
  }

  /** The scenario's stored duration: 8 h 30 min 15 s. */
  lemma ScenarioDuration()
    ensures CompletedShift(LocalDateTime(550800, 0), LocalDateTime(581415, 0)).durationMillis == 30615000
  {
    assert Between(LocalDateTime(550800, 0), LocalDateTime(581415, 0)) == Duration(30615, 0);
  }

  /** The scenario's weekly summary. */
  lemma ScenarioSummary()
    ensures var stored := FromRow(ToRow(CompletedShift(LocalDateTime(550800, 0), LocalDateTime(581415, 0)), 1));
      Consolidate([stored]) == map["WEDNESDAY" := "09:00 - 17:30"]
  {
    var start, end := LocalDateTime(550800, 0), LocalDateTime(581415, 0);
    var stored := FromRow(ToRow(CompletedShift(start, end), 1));
    StoppedIntervalIsHistoryLine(start, end, 1);
    ScenarioClockTexts();
    ScenarioDay();
    assert WeekdayKey(stored) == WeekdayKey(Shift(0, start, start, None, 0));
    SingleShiftSummary(stored);
  }

  /**
   * A Wednesday shift from 09:00:00 to 17:30:15 (1970-01-07, UTC): stored
   * with 30615000 ms, shown as "00:01" one second in, and summarised as
   * WEDNESDAY -> "09:00 - 17:30".
   */
  lemma WednesdayShift()
    ensures var start, end := LocalDateTime(550800, 0), LocalDateTime(581415, 0);
      var stored := FromRow(ToRow(CompletedShift(start, end), 1));
      stored.durationMillis == 30615000 &&
      FormatDuration(Between(start, LocalDateTime(550801, 0))) == "00:01" &&
      Consolidate([stored]) == map["WEDNESDAY" := "09:00 - 17:30"]
  {
    ScenarioDuration();
    assert Between(LocalDateTime(550800, 0), LocalDateTime(550801, 0)) == Duration(1, 0);
    OneSecondTimerText();
    ScenarioSummary();
  }
}

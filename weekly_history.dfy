/**
 * The weekly summary of `PicaPicaViewModel.loadWeeklyHistory`: the start of
 * the current week and the reduction of the week's shifts to one
 * `"HH:MM - HH:MM"` line per weekday name.
 */
module WeeklyHistory {
  import opened JavaTime
  import opened Formatting
  import opened ShiftEntity

  /** A Monday at 00:00:00.000. */
  predicate IsMondayMidnight(t: LocalDateTime) {
    DayOfWeekOf(t) == MONDAY && SecondOfDay(t) == 0 && t.nano == 0
  }

  /** `LocalDate.MIN` is a Monday, so going back to the previous Monday never leaves the range. */
  lemma PreviousMondayInRange(now: LocalDateTime)
    ensures InDateRange(now.epochSecond - (DayOfWeekValue(DayOfWeekOf(now)) - 1) * SECONDS_PER_DAY)
  {
    var day := EpochDay(now);
    var back := (day + 3) % 7;
    assert DayOfWeekValue(DayOfWeekOf(now)) - 1 == back;
    assert (MIN_EPOCH_DAY + 3) % 7 == 0;
    assert day - back == ((day + 3) / 7) * 7 - 3;
    assert MIN_EPOCH_DAY == ((MIN_EPOCH_DAY + 3) / 7) * 7 - 3;
    assert (MIN_EPOCH_DAY + 3) / 7 <= (day + 3) / 7;
    var s := now.epochSecond - back * SECONDS_PER_DAY;
    assert s == (day - back) * SECONDS_PER_DAY + SecondOfDay(now);
    assert s / SECONDS_PER_DAY == day - back;
  }

  /**
   * `getStartOfWeek`: `now` moved back to the same or previous Monday
   * (`TemporalAdjusters.previousOrSame(MONDAY)`), then to 00:00:00.000.
   */
  function StartOfWeek(now: LocalDateTime): (r: LocalDateTime)
    ensures IsMondayMidnight(r)
    ensures IsBeforeOrEqual(r, now) && now.epochSecond - r.epochSecond < 7 * SECONDS_PER_DAY
    ensures DayOfWeekOf(now) == MONDAY ==> EpochDay(r) == EpochDay(now)
  {
    var dow := DayOfWeekValue(DayOfWeekOf(now));
    PreviousMondayInRange(now);
    var monday := if dow == 1 then now else MinusDays(now, dow - 1);
    AtStartOfDay(monday)
  }

  /** The week's start is the only Monday midnight in the seven days up to `now`. */
  lemma StartOfWeekUnique(now: LocalDateTime, m: LocalDateTime)
    requires IsMondayMidnight(m)
    requires IsBeforeOrEqual(m, now) && now.epochSecond - m.epochSecond < 7 * SECONDS_PER_DAY
    ensures m == StartOfWeek(now)
  {
    var r := StartOfWeek(now);
    var dm, dr, dn := EpochDay(m), EpochDay(r), EpochDay(now);
    assert (dm + 3) % 7 == 0 && (dr + 3) % 7 == 0;
    assert m.epochSecond == dm * SECONDS_PER_DAY && r.epochSecond == dr * SECONDS_PER_DAY;
    assert dn - 7 < dm <= dn;
    assert dn - 7 < dr <= dn;
    assert dm == dr by {
      assert dm + 3 == ((dm + 3) / 7) * 7 && dr + 3 == ((dr + 3) / 7) * 7;
      var km, kr := (dm + 3) / 7, (dr + 3) / 7;
      assert -7 < (km - kr) * 7 < 7;
    }
  }

  /** The name of one of the seven `DayOfWeek` constants. */
  predicate IsWeekdayName(k: string) {
    k == "MONDAY" || k == "TUESDAY" || k == "WEDNESDAY" || k == "THURSDAY" ||
    k == "FRIDAY" || k == "SATURDAY" || k == "SUNDAY"
  }

  /** `it.date.dayOfWeek.name`, the grouping key. */
  function WeekdayKey(s: Shift): string {
    Name(DayOfWeekOf(s.date))
  }

  /** The key is the name of one of the seven `DayOfWeek` constants. */
  lemma WeekdayKeyIsName(s: Shift)
    ensures IsWeekdayName(WeekdayKey(s))
  {
  }

  /** Two shifts share a key exactly when their dates lie a whole number of weeks apart. */
  lemma SameWeekdayKey(a: Shift, b: Shift)
    ensures WeekdayKey(a) == WeekdayKey(b) <==> (EpochDay(a.date) - EpochDay(b.date)) % 7 == 0
  {
    var da, db := EpochDay(a.date), EpochDay(b.date);
    NameInjective(DayOfWeekOf(a.date), DayOfWeekOf(b.date));
    var ka, kb := (da + 3) / 7, (db + 3) / 7;
    var ra, rb := (da + 3) % 7, (db + 3) % 7;
    assert da - db == (ka - kb) * 7 + (ra - rb);
    assert (da - db) % 7 == 0 <==> ra == rb by {
      if ra == rb {
        assert da - db == (ka - kb) * 7;
      } else {
        var q := (da - db) / 7;
        assert da - db == q * 7 + (da - db) % 7;
        assert -7 < ra - rb < 7;
      }
    }
  }

  /** `"${formatTime(startTime)} - ${formatTime(endTime ?: startTime)}"`. */
  function DayRange(s: Shift): string {
    FormatTime(s.startTime) + " - " + FormatTime(s.endTime.GetOr(s.startTime))
  }

  /**
   * The line is the start's `HH:MM`, a dash, and the end's, or the start's
   * again when the shift has no end.
   */
  lemma DayRangeFields(s: Shift)
    ensures var r := DayRange(s);
      |r| == 13 && r[5..8] == " - " && r[..5] == FormatTime(s.startTime) &&
      (s.endTime.Some? ==> r[8..] == FormatTime(s.endTime.value)) &&
      (s.endTime.None? ==> r[8..] == r[..5])
  {
    var a, b := FormatTime(s.startTime), FormatTime(s.endTime.GetOr(s.startTime));
    assert DayRange(s)[..5] == a && DayRange(s)[8..] == b;
  }

  /** No shift before position `i` falls on the same weekday as `shifts[i]`. */
  predicate FirstOfItsDay(shifts: seq<Shift>, i: int)
    requires 0 <= i < |shifts|
  {
    forall j :: 0 <= j < i ==> WeekdayKey(shifts[j]) != WeekdayKey(shifts[i])
  }

  /**
   * The consolidation: `groupBy { weekday name }` then `mapValues` to the
   * range of the first shift of each group. Its keys and values are stated
   * by `ConsolidateKeys` and `ConsolidateFirst`.
   */
  function Consolidate(shifts: seq<Shift>): (r: map<string, string>)
  {
    if shifts == [] then map[]
    else Consolidate(shifts[1..])[WeekdayKey(shifts[0]) := DayRange(shifts[0])]
  }

  /** Some shift of `shifts` falls on the weekday named `key`. */
  predicate HasWeekday(shifts: seq<Shift>, key: string) {
    exists i :: 0 <= i < |shifts| && WeekdayKey(shifts[i]) == key
  }

  /** A weekday occurs in a list iff it is the head's or occurs in the tail. */
  lemma HasWeekdayStep(shifts: seq<Shift>, key: string)
    requires shifts != []
    ensures HasWeekday(shifts, key) <==> WeekdayKey(shifts[0]) == key || HasWeekday(shifts[1..], key)
  {
    var rest := shifts[1..];
    if i :| 0 <= i < |shifts| && WeekdayKey(shifts[i]) == key {
      if i > 0 {
        assert rest[i - 1] == shifts[i];
      }
    }
    if i :| 0 <= i < |rest| && WeekdayKey(rest[i]) == key {
      assert shifts[i + 1] == rest[i];
    }
  }

  /** The keys are exactly the weekday names of the shifts. */
  lemma {:induction false} ConsolidateKeys(shifts: seq<Shift>, key: string)
    ensures key in Consolidate(shifts) <==> HasWeekday(shifts, key)
  {
    if shifts != [] {
      ConsolidateKeys(shifts[1..], key);
      HasWeekdayStep(shifts, key);
    }
  }

  /** The summary has at most seven lines, one per `DayOfWeek` name. */
  lemma ConsolidateWeekdayNames(shifts: seq<Shift>)
    ensures forall k :: k in Consolidate(shifts) ==> IsWeekdayName(k)
  {
    forall k | k in Consolidate(shifts)
      ensures IsWeekdayName(k)
    {
      ConsolidateKeys(shifts, k);
      var i :| 0 <= i < |shifts| && WeekdayKey(shifts[i]) == k;
      WeekdayKeyIsName(shifts[i]);
    }
  }

  /** Being first of its weekday survives dropping an earlier head. */
  lemma FirstOfItsDayTail(shifts: seq<Shift>, i: int)
    requires 0 < i < |shifts| && FirstOfItsDay(shifts, i)
    ensures FirstOfItsDay(shifts[1..], i - 1)
  {
    var rest := shifts[1..];
    forall j | 0 <= j < i - 1
      ensures WeekdayKey(rest[j]) != WeekdayKey(rest[i - 1])
    {
      assert rest[j] == shifts[j + 1];
    }
  }

  /** Each weekday name maps to the range of the first shift of that weekday. */
  lemma {:induction false} ConsolidateFirst(shifts: seq<Shift>, i: int)
    requires 0 <= i < |shifts| && FirstOfItsDay(shifts, i)
    ensures WeekdayKey(shifts[i]) in Consolidate(shifts)
    ensures Consolidate(shifts)[WeekdayKey(shifts[i])] == DayRange(shifts[i])
  {
    if i > 0 {
      FirstOfItsDayTail(shifts, i);
      ConsolidateFirst(shifts[1..], i - 1);
      assert shifts[1..][i - 1] == shifts[i];
      assert WeekdayKey(shifts[0]) != WeekdayKey(shifts[i]);
    }
  }

  /** `shifts[i]` falls on `day` and no shift on `day` is dated later. */
  predicate LatestOfDay(shifts: seq<Shift>, day: DayOfWeek, i: int) {
    0 <= i < |shifts| && DayOfWeekOf(shifts[i].date) == day &&
    forall j :: 0 <= j < |shifts| && DayOfWeekOf(shifts[j].date) == day ==>
      IsBeforeOrEqual(shifts[j].date, shifts[i].date)
  }

  /** A shift on another weekday in front of the list hides nothing of `day`. */
  lemma LatestOfDayStep(shifts: seq<Shift>, day: DayOfWeek, i: int)
    requires |shifts| > 0 && DayOfWeekOf(shifts[0].date) != day
    requires LatestOfDay(shifts[1..], day, i) && Name(day) in Consolidate(shifts[1..])
    ensures LatestOfDay(shifts, day, i + 1)
    ensures Consolidate(shifts)[Name(day)] == Consolidate(shifts[1..])[Name(day)]
  {
    var rest := shifts[1..];
    NameInjective(DayOfWeekOf(shifts[0].date), day);
    assert shifts[i + 1] == rest[i];
    forall j | 0 <= j < |shifts| && DayOfWeekOf(shifts[j].date) == day
      ensures IsBeforeOrEqual(shifts[j].date, shifts[i + 1].date)
    {
      assert j > 0 && shifts[j] == rest[j - 1];
    }
  }

  /**
   * Given the query's order (latest date first), each weekday's entry is the
   * range of a shift of that weekday whose date is the latest among them.
   */
  lemma {:induction false} ConsolidateKeepsLatest(shifts: seq<Shift>, day: DayOfWeek, k: int)
    requires forall i, j :: 0 <= i < j < |shifts| ==> IsBeforeOrEqual(shifts[j].date, shifts[i].date)
    requires 0 <= k < |shifts| && DayOfWeekOf(shifts[k].date) == day
    ensures Name(day) in Consolidate(shifts)
    ensures exists i :: LatestOfDay(shifts, day, i) && Consolidate(shifts)[Name(day)] == DayRange(shifts[i])
    decreases k
  {
    if DayOfWeekOf(shifts[0].date) == day {
      ConsolidateFirst(shifts, 0);
      assert WeekdayKey(shifts[0]) == Name(day);
      assert LatestOfDay(shifts, day, 0);
    } else {
      var rest := shifts[1..];
      assert rest[k - 1] == shifts[k];
      ConsolidateKeepsLatest(rest, day, k - 1);
      var i :| LatestOfDay(rest, day, i) && Consolidate(rest)[Name(day)] == DayRange(rest[i]);
      LatestOfDayStep(shifts, day, i);
      assert rest[i] == shifts[i + 1];
    }
  }

  /** Writing a shift to the table and reading it back keeps its weekday and its line. */
  lemma StoredShiftDescribedAlike(s: Shift, id: int)
    ensures WeekdayKey(FromRow(ToRow(s, id))) == WeekdayKey(s)
    ensures DayRange(FromRow(ToRow(s, id))) == DayRange(s)
  {
    RowRoundTrip(s, id);
  }
}

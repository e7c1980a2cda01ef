/**
 * The parts of the Java platform the app relies on: `long`, `LocalDateTime`
 * with the wall-clock fields derived from it, `DayOfWeek` and `Duration`.
 *
 * A `LocalDateTime` is represented the way the app's database stores it: the
 * whole seconds since 1970-01-01T00:00 read as a UTC wall-clock time, plus a
 * nanosecond field. Date and time-of-day fields are floor division and
 * remainder of those seconds by 86400.
 */
module JavaTime {

  const SECONDS_PER_MINUTE: int := 60
  const SECONDS_PER_HOUR: int := 3600
  const SECONDS_PER_DAY: int := 86400
  const NANOS_PER_SECOND: int := 1_000_000_000
  const NANOS_PER_MILLI: int := 1_000_000

  /** The epoch days of `LocalDate.MIN` (-999999999-01-01) and `LocalDate.MAX` (+999999999-12-31). */
  const MIN_EPOCH_DAY: int := -365243219162
  const MAX_EPOCH_DAY: int := 365241780471

  const LONG_MIN: int := -0x8000_0000_0000_0000
  const LONG_MAX: int := 0x7fff_ffff_ffff_ffff

  /** Java's 64-bit `long`. */
  type Long = x: int | LONG_MIN <= x <= LONG_MAX

  /** True when the day that holds this second lies in `LocalDate`'s range. */
  predicate InDateRange(epochSecond: int) {
    MIN_EPOCH_DAY <= epochSecond / SECONDS_PER_DAY <= MAX_EPOCH_DAY
  }

  type EpochSecond = s: int | InDateRange(s)
  type NanoOfSecond = n: int | 0 <= n < NANOS_PER_SECOND

  datatype LocalDateTime = LocalDateTime(epochSecond: EpochSecond, nano: NanoOfSecond)

  function EpochDay(t: LocalDateTime): (d: int)
    ensures MIN_EPOCH_DAY <= d <= MAX_EPOCH_DAY
  {
    t.epochSecond / SECONDS_PER_DAY
  }

  function SecondOfDay(t: LocalDateTime): (s: int)
    ensures 0 <= s < SECONDS_PER_DAY
    ensures t.epochSecond == EpochDay(t) * SECONDS_PER_DAY + s
  {
    t.epochSecond % SECONDS_PER_DAY
  }

  /** `LocalDateTime.getHour`. */
  function Hour(t: LocalDateTime): (h: int)
    ensures 0 <= h < 24
  {
    SecondOfDay(t) / SECONDS_PER_HOUR
  }

  /** `LocalDateTime.getMinute`. */
  function Minute(t: LocalDateTime): (m: int)
    ensures 0 <= m < 60
  {
    SecondOfDay(t) / SECONDS_PER_MINUTE % 60
  }

  /** `a` is not after `b` (`!a.isAfter(b)`). */
  predicate IsBeforeOrEqual(a: LocalDateTime, b: LocalDateTime) {
    a.epochSecond < b.epochSecond || (a.epochSecond == b.epochSecond && a.nano <= b.nano)
  }

  datatype DayOfWeek = MONDAY | TUESDAY | WEDNESDAY | THURSDAY | FRIDAY | SATURDAY | SUNDAY

  /** ISO day number, Monday = 1 ... Sunday = 7 (`DayOfWeek.getValue`). */
  function DayOfWeekValue(d: DayOfWeek): (v: int)
    ensures 1 <= v <= 7
  {
    match d
    case MONDAY => 1
    case TUESDAY => 2
    case WEDNESDAY => 3
    case THURSDAY => 4
    case FRIDAY => 5
    case SATURDAY => 6
    case SUNDAY => 7
  }

  function DayOfWeekFromValue(v: int): (d: DayOfWeek)
    requires 1 <= v <= 7
    ensures DayOfWeekValue(d) == v
  {
    if v == 1 then MONDAY
    else if v == 2 then TUESDAY
    else if v == 3 then WEDNESDAY
    else if v == 4 then THURSDAY
    else if v == 5 then FRIDAY
    else if v == 6 then SATURDAY
    else SUNDAY
  }

  /** `LocalDateTime.getDayOfWeek`: 1970-01-01 (epoch day 0) was a Thursday. */
  function DayOfWeekOf(t: LocalDateTime): (d: DayOfWeek)
    ensures DayOfWeekValue(d) == (EpochDay(t) + 3) % 7 + 1
  {
    DayOfWeekFromValue((EpochDay(t) + 3) % 7 + 1)
  }

  /** `DayOfWeek.name`: the enum constant's name. */
  function Name(d: DayOfWeek): (s: string)
    ensures |s| >= 6
  {
    match d
    case MONDAY => "MONDAY"
    case TUESDAY => "TUESDAY"
    case WEDNESDAY => "WEDNESDAY"
    case THURSDAY => "THURSDAY"
    case FRIDAY => "FRIDAY"
    case SATURDAY => "SATURDAY"
    case SUNDAY => "SUNDAY"
  }

  /** Distinct days have distinct names, so grouping by name is grouping by day. */
  lemma NameInjective(d: DayOfWeek, e: DayOfWeek)
    ensures Name(d) == Name(e) ==> d == e
  {
    if Name(d) == Name(e) {
      assert Name(d)[0] == Name(e)[0] && Name(d)[1] == Name(e)[1];
    }
  }

  /** `LocalDateTime.minusDays`; it throws outside `LocalDate`'s range, which callers exclude. */
  function MinusDays(t: LocalDateTime, days: int): (r: LocalDateTime)
    requires InDateRange(t.epochSecond - days * SECONDS_PER_DAY)
    ensures EpochDay(r) == EpochDay(t) - days && SecondOfDay(r) == SecondOfDay(t) && r.nano == t.nano
  {
    LocalDateTime(t.epochSecond - days * SECONDS_PER_DAY, t.nano)
  }

  /** `t.withHour(0).withMinute(0).withSecond(0).withNano(0)`. */
  function AtStartOfDay(t: LocalDateTime): (r: LocalDateTime)
    ensures EpochDay(r) == EpochDay(t) && SecondOfDay(r) == 0 && r.nano == 0
  {
    LocalDateTime(EpochDay(t) * SECONDS_PER_DAY, 0)
  }

  /** `java.time.Duration`: whole seconds (floor) and a non-negative nanosecond adjustment. */
  datatype Duration = Duration(seconds: int, nano: NanoOfSecond)

  function TotalNanos(d: Duration): int {
    d.seconds * NANOS_PER_SECOND + d.nano
  }

  /** `Duration.between(a, b)`: the exact time from `a` to `b`, negative when `b` is earlier. */
  function Between(a: LocalDateTime, b: LocalDateTime): (d: Duration)
    ensures TotalNanos(d) == (b.epochSecond - a.epochSecond) * NANOS_PER_SECOND + b.nano - a.nano
    ensures d.seconds >= 0 <==> IsBeforeOrEqual(a, b)
  {
    var secs := b.epochSecond - a.epochSecond;
    var nanos := b.nano - a.nano;
    if nanos < 0 then Duration(secs - 1, nanos + NANOS_PER_SECOND) else Duration(secs, nanos)
  }

  /** Java's `/` on integers: the quotient truncated toward zero. */
  function JavaDiv(a: int, b: int): (q: int)
    requires b > 0
    ensures a >= 0 ==> q == a / b
    ensures a < 0 ==> q == -((-a) / b)
  {
    if a >= 0 then a / b else -((-a) / b)
  }

  /**
   * `JavaDiv` truncates toward zero: for a non-negative dividend the quotient
   * is the largest multiple of `b` not above it, for a negative one the
   * smallest not below it.
   */
  lemma JavaDivTruncates(a: int, b: int)
    requires b > 0
    ensures a >= 0 ==> 0 <= JavaDiv(a, b) && JavaDiv(a, b) * b <= a < JavaDiv(a, b) * b + b
    ensures a < 0 ==> JavaDiv(a, b) <= 0 && JavaDiv(a, b) * b - b < a <= JavaDiv(a, b) * b
  {
  }

  /** Java's `%` on integers: the remainder takes the sign of the dividend. */
  function JavaRem(a: int, b: int): (r: int)
    requires b > 0
    ensures JavaDiv(a, b) * b + r == a
    ensures a >= 0 ==> r == a % b
    ensures -b < r < b
  {
    a - JavaDiv(a, b) * b
  }

  /** `Duration.toHours`: the whole hours, truncated toward zero. */
  function ToHours(d: Duration): (h: int)
    ensures d.seconds >= 0 ==> 0 <= h && h * SECONDS_PER_HOUR <= d.seconds < h * SECONDS_PER_HOUR + SECONDS_PER_HOUR
    ensures d.seconds < 0 ==> h <= 0 && h * SECONDS_PER_HOUR - SECONDS_PER_HOUR < d.seconds <= h * SECONDS_PER_HOUR
  {
    JavaDiv(d.seconds, SECONDS_PER_HOUR)
  }

  /** `Duration.toMinutes`: the whole minutes, truncated toward zero. */
  function ToMinutes(d: Duration): (m: int)
    ensures d.seconds >= 0 ==> 0 <= m && m * SECONDS_PER_MINUTE <= d.seconds < m * SECONDS_PER_MINUTE + SECONDS_PER_MINUTE
    ensures d.seconds < 0 ==> m <= 0 && m * SECONDS_PER_MINUTE - SECONDS_PER_MINUTE < d.seconds <= m * SECONDS_PER_MINUTE
  {
    JavaDiv(d.seconds, SECONDS_PER_MINUTE)
  }

  /** `Duration.toMillis` (OpenJDK 8): whole milliseconds, rounded toward negative infinity. */
  function ToMillis(d: Duration): (ms: int)
    ensures ms * NANOS_PER_MILLI <= TotalNanos(d) < (ms + 1) * NANOS_PER_MILLI
  {
    d.seconds * 1000 + d.nano / NANOS_PER_MILLI
  }
}

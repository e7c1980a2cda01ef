/**
 * Room's type converters (`Converters` in AppDatabase.kt): a `LocalDateTime`
 * is stored as a `long` of epoch seconds at offset UTC, and read back with a
 * zero nanosecond field.
 */
module Converters {
  import opened Wrappers
  import opened JavaTime

  /** `LocalDateTime.ofEpochSecond` throws when the day lies outside `LocalDate`'s range. */
  datatype DateTimeException = EpochDayOutOfRange(epochSecond: int)

  /** `fromTimestamp`: `value?.let { LocalDateTime.ofEpochSecond(it, 0, ZoneOffset.UTC) }`. */
  function FromTimestamp(value: Option<Long>): (r: Result<Option<LocalDateTime>, DateTimeException>)
    ensures value.None? ==> r == Success(None)
    ensures value.Some? ==> (r.Success? <==> InDateRange(value.value))
    ensures value.Some? && r.Success? ==>
      r.value.Some? &&
      EpochDay(r.value.value) == value.value / SECONDS_PER_DAY &&
      SecondOfDay(r.value.value) == value.value % SECONDS_PER_DAY &&
      r.value.value.nano == 0
  {
    match value
    case None => Success(None)
    case Some(v) =>
      if InDateRange(v) then Success(Some(LocalDateTime(v, 0)))
      else Failure(EpochDayOutOfRange(v))
  }

  /** `dateToTimestamp`: `date?.toEpochSecond(ZoneOffset.UTC)`; the nanoseconds are dropped. */
  function DateToTimestamp(date: Option<LocalDateTime>): (r: Option<Long>)
    ensures r.Some? <==> date.Some?
    ensures date.Some? ==> r.value == EpochDay(date.value) * SECONDS_PER_DAY + SecondOfDay(date.value)
  {
    match date
    case None => None
    case Some(d) => Some(d.epochSecond)
  }

  /** Every `long` that `fromTimestamp` accepts is given back by `dateToTimestamp`. */
  lemma TimestampRoundTrip(v: Long)
    requires InDateRange(v)
    ensures FromTimestamp(Some(v)).Success?
    ensures DateToTimestamp(FromTimestamp(Some(v)).value) == Some(v)
  {
  }

  /**
   * Storing and reading back keeps the date and the wall-clock time to the
   * second; only the nanoseconds are lost.
   */
  lemma DateRoundTrip(d: LocalDateTime)
    ensures DateToTimestamp(Some(d)).value as int == d.epochSecond
    ensures FromTimestamp(DateToTimestamp(Some(d))) == Success(Some(LocalDateTime(d.epochSecond, 0)))
  {
  }

  /**
   * Comparing stored longs agrees with comparing date-times, except that two
   * times within the same second compare equal once stored.
   */
  lemma TimestampOrder(a: LocalDateTime, b: LocalDateTime)
    ensures IsBeforeOrEqual(a, b) ==> DateToTimestamp(Some(a)).value <= DateToTimestamp(Some(b)).value
    ensures DateToTimestamp(Some(a)).value < DateToTimestamp(Some(b)).value ==> IsBeforeOrEqual(a, b) && a != b
    ensures DateToTimestamp(Some(a)).value <= DateToTimestamp(Some(b)).value <==>
      IsBeforeOrEqual(LocalDateTime(a.epochSecond, 0), b)
  {
  }
}

/**
 * The `shifts` entity (Shift.kt) in its two forms: the Kotlin record the app
 * handles, and the row Room stores, whose date-time columns hold the longs
 * produced by the converters.
 */
module ShiftEntity {
  import opened Wrappers
  import opened JavaTime
  import opened Converters

  /** `data class Shift`; `id` 0 means "let the database choose". */
  datatype Shift = Shift(
    id: int,
    date: LocalDateTime,
    startTime: LocalDateTime,
    endTime: Option<LocalDateTime>,
    durationMillis: int)

  /** A row of the `shifts` table. */
  datatype ShiftRow = ShiftRow(
    id: int,
    date: Long,
    startTime: Long,
    endTime: Option<Long>,
    durationMillis: int)

  /** Every stored date-time column can be converted back without an exception. */
  predicate Readable(row: ShiftRow) {
    InDateRange(row.date) && InDateRange(row.startTime) &&
    (row.endTime.Some? ==> InDateRange(row.endTime.value))
  }

  /** The date-time as it reads back from the database: the same second, no nanoseconds. */
  function DropNanos(t: LocalDateTime): (r: LocalDateTime)
    ensures r.nano == 0 && EpochDay(r) == EpochDay(t) && SecondOfDay(r) == SecondOfDay(t)
  {
    LocalDateTime(t.epochSecond, 0)
  }

  /** The row Room writes for `s` once the primary key `id` is decided. */
  function ToRow(s: Shift, id: int): (row: ShiftRow)
    ensures Readable(row) && row.id == id && row.durationMillis == s.durationMillis
  {
    ShiftRow(
      id,
      DateToTimestamp(Some(s.date)).value,
      DateToTimestamp(Some(s.startTime)).value,
      DateToTimestamp(s.endTime),
      s.durationMillis)
  }

  function ReadDateTime(v: Long): (t: LocalDateTime)
    requires InDateRange(v)
    ensures DateToTimestamp(Some(t)) == Some(v) && t.nano == 0
  {
    FromTimestamp(Some(v)).value.value
  }

  /** The `Shift` Room builds from a stored row. */
  function FromRow(row: ShiftRow): (s: Shift)
    requires Readable(row)
    ensures s.id == row.id && s.durationMillis == row.durationMillis
    ensures ToRow(s, row.id) == row
  {
    var endTime := match row.endTime
      case None => None
      case Some(v) => Some(ReadDateTime(v));
    Shift(row.id, ReadDateTime(row.date), ReadDateTime(row.startTime), endTime, row.durationMillis)
  }

  /** Writing and reading a shift back keeps everything but the nanoseconds and the id. */
  lemma RowRoundTrip(s: Shift, id: int)
    ensures FromRow(ToRow(s, id)) == Shift(
      id,
      DropNanos(s.date),
      DropNanos(s.startTime),
      match s.endTime case None => None case Some(e) => Some(DropNanos(e)),
      s.durationMillis)
  {
  }
}

/**
 * `ShiftDao`: the four statements on the `shifts` table, over an in-memory
 * table. Rows are kept in primary-key order, as SQLite keeps a rowid table;
 * `sequence` is SQLite's AUTOINCREMENT counter, the largest id ever used.
 */
module ShiftDao {
  import opened Wrappers
  import opened JavaTime
  import opened Converters
  import opened ShiftEntity

  predicate SortedById(rows: seq<ShiftRow>) {
    forall i, j :: 0 <= i < j < |rows| ==> rows[i].id < rows[j].id
  }

  predicate SortedByDateDesc(rows: seq<ShiftRow>) {
    forall i, j :: 0 <= i < j < |rows| ==> rows[i].date >= rows[j].date
  }

  predicate AllReadable(rows: seq<ShiftRow>) {
    forall x :: x in rows ==> Readable(x)
  }

  /** In an id-ordered table the first row has the smallest id. */
  lemma SortedHead(rows: seq<ShiftRow>)
    requires SortedById(rows) && rows != []
    ensures forall x :: x in rows[1..] ==> rows[0].id < x.id
  {
    forall x | x in rows[1..]
      ensures rows[0].id < x.id
    {
      var k :| 0 <= k < |rows[1..]| && rows[1..][k] == x;
      assert rows[k + 1] == x;
    }
  }

  /**
   * INSERT OR REPLACE of `row` into an id-ordered table: the row with the same
   * primary key, if any, is replaced; otherwise `row` joins at its place in id
   * order.
   */
  function PutById(rows: seq<ShiftRow>, row: ShiftRow): (r: seq<ShiftRow>)
    requires SortedById(rows)
    ensures SortedById(r)
    ensures row in r && forall x :: x in r ==> x == row || x in rows
  {
    if rows == [] then [row]
    else if rows[0].id == row.id then
      assert forall i :: 0 < i < |rows| ==> rows[i] in rows[1..];
      [row] + rows[1..]
    else if row.id < rows[0].id then
      [row] + rows
    else
      var rest := PutById(rows[1..], row);
      SortedHead(rows);
      [rows[0]] + rest
  }

  /** REPLACE: a row with the same primary key is overwritten in place. */
  lemma {:induction false} PutByIdReplaces(rows: seq<ShiftRow>, row: ShiftRow, i: int)
    requires SortedById(rows) && 0 <= i < |rows| && rows[i].id == row.id
    ensures PutById(rows, row) == rows[i := row]
  {
    if i > 0 {
      assert rows[0].id < rows[i].id;
      PutByIdReplaces(rows[1..], row, i - 1);
      assert rows[i := row] == [rows[0]] + rows[1..][i - 1 := row];
    }
  }

  /** A new primary key adds exactly one row and keeps all others. */
  lemma {:induction false} PutByIdAdds(rows: seq<ShiftRow>, row: ShiftRow)
    requires SortedById(rows)
    requires forall i :: 0 <= i < |rows| ==> rows[i].id != row.id
    ensures multiset(PutById(rows, row)) == multiset(rows) + multiset{row}
  {
    if rows != [] && rows[0].id < row.id {
      PutByIdAdds(rows[1..], row);
      assert rows == [rows[0]] + rows[1..];
    }
  }

  /** A key above every present key goes to the end of the table. */
  lemma {:induction false} PutByIdAppends(rows: seq<ShiftRow>, row: ShiftRow)
    requires SortedById(rows)
    requires forall i :: 0 <= i < |rows| ==> rows[i].id < row.id
    ensures PutById(rows, row) == rows + [row]
  {
    if rows != [] {
      var rest := rows[1..];
      forall i | 0 <= i < |rest|
        ensures rest[i].id < row.id
      {
        assert rest[i] == rows[i + 1];
      }
      PutByIdAppends(rest, row);
      assert [rows[0]] + (rest + [row]) == rows + [row];
    }
  }

  /** `kept` holds exactly the rows of `rows` whose `date` is at least `since`, as often as `rows` does. */
  ghost predicate HoldsRowsSince(kept: seq<ShiftRow>, rows: seq<ShiftRow>, since: int) {
    forall x :: multiset(kept)[x] == if x.date >= since then multiset(rows)[x] else 0
  }

  /** The rows whose `date` column is at least `since`, in table order. */
  function KeepSince(rows: seq<ShiftRow>, since: int): (r: seq<ShiftRow>)
    ensures HoldsRowsSince(r, rows, since)
  {
    if rows == [] then []
    else
      assert rows == [rows[0]] + rows[1..];
      (if rows[0].date >= since then [rows[0]] else []) + KeepSince(rows[1..], since)
  }

  /** A head below every id of an id-ordered tail keeps the list id-ordered. */
  lemma ConsById(h: ShiftRow, t: seq<ShiftRow>)
    requires SortedById(t)
    requires forall y :: y in t ==> h.id < y.id
    ensures SortedById([h] + t)
  {
    var r := [h] + t;
    forall i, j | 0 <= i < j < |r| ensures r[i].id < r[j].id {
      assert r[j] == t[j - 1];
      if i > 0 { assert r[i] == t[i - 1]; }
    }
  }

  /** Dropping rows from an id-ordered table leaves it id-ordered. */
  lemma {:induction false} KeepSinceSorted(rows: seq<ShiftRow>, since: int)
    requires SortedById(rows)
    ensures SortedById(KeepSince(rows, since))
  {
    if rows != [] {
      var rest := KeepSince(rows[1..], since);
      KeepSinceSorted(rows[1..], since);
      forall y | y in rest
        ensures rows[0].id < y.id
      {
        assert multiset(rest)[y] > 0;
        assert y in multiset(rows[1..]);
        var k :| 0 <= k < |rows[1..]| && rows[1..][k] == y;
        assert rows[k + 1] == y;
      }
      if rows[0].date >= since {
        ConsById(rows[0], rest);
      } else {
        assert KeepSince(rows, since) == rest;
      }
    }
  }

  /** Filtering twice by the same bound is filtering once. */
  lemma {:induction false} KeepSinceIdempotent(rows: seq<ShiftRow>, since: int)
    ensures KeepSince(KeepSince(rows, since), since) == KeepSince(rows, since)
  {
    if rows != [] {
      KeepSinceIdempotent(rows[1..], since);
      var rest := KeepSince(rows[1..], since);
      if rows[0].date >= since {
        var kept := [rows[0]] + rest;
        assert KeepSince(rows, since) == kept;
        assert kept[0] == rows[0] && kept[1..] == rest;
        assert KeepSince(kept, since) == [rows[0]] + KeepSince(rest, since);
      } else {
        assert KeepSince(rows, since) == [] + rest == rest;
      }
    }
  }

  /** A head no earlier than every element of a date-ordered tail keeps the list ordered. */
  lemma ConsSorted(h: ShiftRow, t: seq<ShiftRow>)
    requires SortedByDateDesc(t)
    requires forall y :: y in t ==> y.date <= h.date
    ensures SortedByDateDesc([h] + t)
  {
    var r := [h] + t;
    forall i, j | 0 <= i < j < |r| ensures r[i].date >= r[j].date {
      assert r[j] == t[j - 1];
      if i > 0 { assert r[i] == t[i - 1]; }
    }
  }

  /** Placing a row dated before the head into the tail keeps everything no later than the head. */
  lemma InsertedBelowHead(x: ShiftRow, s: seq<ShiftRow>, rest: seq<ShiftRow>)
    requires SortedByDateDesc(s) && s != [] && x.date < s[0].date
    requires multiset(rest) == multiset(s[1..]) + multiset{x}
    ensures forall y :: y in rest ==> y.date <= s[0].date
  {
    forall y | y in rest
      ensures y.date <= s[0].date
    {
      assert y in multiset(rest);
      if y != x {
        assert y in multiset(s[1..]);
        var k :| 0 <= k < |s[1..]| && s[1..][k] == y;
        assert s[k + 1] == y;
      }
    }
  }

  /** Places `x` in a list ordered by `date` descending. */
  function InsertByDate(x: ShiftRow, s: seq<ShiftRow>): (r: seq<ShiftRow>)
    requires SortedByDateDesc(s)
    ensures SortedByDateDesc(r)
    ensures multiset(r) == multiset(s) + multiset{x}
  {
    if s == [] || x.date >= s[0].date then
      ConsSorted(x, s);
      [x] + s
    else
      var rest := InsertByDate(x, s[1..]);
      assert s == [s[0]] + s[1..];
      InsertedBelowHead(x, s, rest);
      ConsSorted(s[0], rest);
      [s[0]] + rest
  }
  /** `ORDER BY date DESC`, by insertion sort. */
  function SortByDateDesc(s: seq<ShiftRow>): (r: seq<ShiftRow>)
    ensures SortedByDateDesc(r)
    ensures multiset(r) == multiset(s)
  {
    if s == [] then []
    else
      assert s == [s[0]] + s[1..];
      InsertByDate(s[0], SortByDateDesc(s[1..]))
  }

  /** `SELECT * FROM shifts WHERE date >= :since ORDER BY date DESC`. */
  function RecentRows(rows: seq<ShiftRow>, since: int): (r: seq<ShiftRow>)
    ensures SortedByDateDesc(r)
    ensures HoldsRowsSince(r, rows, since)
  {
    SortByDateDesc(KeepSince(rows, since))
  }

  /** Deleting the rows older than `since` does not change what the query from `since` returns. */
  lemma RecentRowsAfterDelete(rows: seq<ShiftRow>, since: int)
    ensures RecentRows(KeepSince(rows, since), since) == RecentRows(rows, since)
  {
    KeepSinceIdempotent(rows, since);
  }

  /** A row written with `date >= since` is returned by the query from `since`. */
  lemma InsertedRowIsRecent(rows: seq<ShiftRow>, row: ShiftRow, since: int)
    requires SortedById(rows) && row.date >= since
    ensures row in RecentRows(PutById(rows, row), since)
  {
    var r := PutById(rows, row);
    assert multiset(r)[row] > 0;
  }

  /** Room builds one `Shift` per returned row. */
  function ReadAll(rows: seq<ShiftRow>): (r: seq<Shift>)
    requires AllReadable(rows)
    ensures |r| == |rows| && forall i :: 0 <= i < |rows| ==> r[i] == FromRow(rows[i])
  {
    if rows == [] then [] else [FromRow(rows[0])] + ReadAll(rows[1..])
  }

  /** The query returns rows of the table, each dated from `since` on. */
  lemma RecentRowsMembers(rows: seq<ShiftRow>, since: int)
    ensures forall x :: x in RecentRows(rows, since) ==> x in rows && x.date >= since
  {
    var found := RecentRows(rows, since);
    forall x | x in found
      ensures x in rows && x.date >= since
    {
      assert x in multiset(found);
    }
  }

  /** The shifts Room builds from the query are latest first and inside the window. */
  lemma ReadRecentOrdered(rows: seq<ShiftRow>, since: int)
    requires AllReadable(rows)
    ensures AllReadable(RecentRows(rows, since))
    ensures var r := ReadAll(RecentRows(rows, since));
      && (forall i, j :: 0 <= i < j < |r| ==> IsBeforeOrEqual(r[j].date, r[i].date))
      && (forall k :: 0 <= k < |r| ==> r[k].date.nano == 0 && r[k].date.epochSecond >= since)
  {
    RecentRowsMembers(rows, since);
    var found := RecentRows(rows, since);
    var r := ReadAll(found);
    forall i, j | 0 <= i < j < |r|
      ensures IsBeforeOrEqual(r[j].date, r[i].date)
    {
      assert r[i].date.epochSecond == found[i].date;
      assert r[j].date.epochSecond == found[j].date;
    }
  }

  /** Every row dated from `since` on comes back from the query. */
  lemma ReadRecentComplete(rows: seq<ShiftRow>, since: int)
    requires AllReadable(rows)
    ensures AllReadable(RecentRows(rows, since))
    ensures forall i :: 0 <= i < |rows| && rows[i].date >= since ==>
      FromRow(rows[i]) in ReadAll(RecentRows(rows, since))
  {
    RecentRowsMembers(rows, since);
    var found := RecentRows(rows, since);
    var r := ReadAll(found);
    forall i | 0 <= i < |rows| && rows[i].date >= since
      ensures FromRow(rows[i]) in r
    {
      assert rows[i] in multiset(rows);
      assert rows[i] in multiset(found);
      var k :| 0 <= k < |found| && found[k] == rows[i];
      assert r[k] == FromRow(rows[i]);
    }
  }

  /** `s` is what Room reads from a row of `rows` whose `date` is at least `since`. */
  ghost predicate StoredSince(rows: seq<ShiftRow>, since: int, s: Shift)
    requires AllReadable(rows)
  {
    exists i :: 0 <= i < |rows| && rows[i].date >= since && s == FromRow(rows[i])
  }

  /** Nothing comes back from the query but rows of the table dated from `since` on. */
  lemma ReadRecentSound(rows: seq<ShiftRow>, since: int)
    requires AllReadable(rows)
    ensures AllReadable(RecentRows(rows, since))
    ensures var r := ReadAll(RecentRows(rows, since));
      forall k :: 0 <= k < |r| ==> StoredSince(rows, since, r[k])
  {
    RecentRowsMembers(rows, since);
    var found := RecentRows(rows, since);
    var r := ReadAll(found);
    forall k | 0 <= k < |r|
      ensures StoredSince(rows, since, r[k])
    {
      assert found[k] in found;
      assert found[k] in rows;
      var i :| 0 <= i < |rows| && rows[i] == found[k];
      assert r[k] == FromRow(rows[i]);
    }
  }

  /** Deleting the rows dated before `since` keeps the table's invariant and the query's answer. */
  lemma KeepSinceKeepsTable(rows: seq<ShiftRow>, since: int, sequence: int)
    requires SortedById(rows) && AllReadable(rows) && forall x :: x in rows ==> x.id <= sequence
    ensures var kept := KeepSince(rows, since);
      SortedById(kept) && AllReadable(kept) && (forall x :: x in kept ==> x.id <= sequence) &&
      RecentRows(kept, since) == RecentRows(rows, since)
  {
    var kept := KeepSince(rows, since);
    KeepSinceSorted(rows, since);
    forall x | x in kept
      ensures x in rows
    {
      assert x in multiset(kept);
    }
    RecentRowsAfterDelete(rows, since);
  }

  /** What one query returns: latest first, inside the window, every qualifying row, nothing else, each row once. */
  lemma ReadRecent(rows: seq<ShiftRow>, since: int)
    requires SortedById(rows) && AllReadable(rows)
    ensures AllReadable(RecentRows(rows, since))
    ensures var r := ReadAll(RecentRows(rows, since));
      && (forall i, j :: 0 <= i < j < |r| ==> IsBeforeOrEqual(r[j].date, r[i].date))
      && (forall k :: 0 <= k < |r| ==> r[k].date.nano == 0 && r[k].date.epochSecond >= since)
      && (forall i :: 0 <= i < |rows| && rows[i].date >= since ==> FromRow(rows[i]) in r)
      && (forall k :: 0 <= k < |r| ==> StoredSince(rows, since, r[k]))
      && (forall i, j :: 0 <= i < j < |r| ==> r[i].id != r[j].id)
  {
    ReadRecentDistinct(rows, since);
    ReadRecentOrdered(rows, since);
    ReadRecentComplete(rows, since);
    ReadRecentSound(rows, since);
  }

  /** An id-ordered table holds each row at most once. */
  lemma {:induction false} SortedByIdOnce(rows: seq<ShiftRow>)
    requires SortedById(rows)
    ensures forall x :: multiset(rows)[x] <= 1
  {
    if rows != [] {
      var t := rows[1..];
      SortedHead(rows);
      assert SortedById(t) by {
        forall i, j | 0 <= i < j < |t|
          ensures t[i].id < t[j].id
        {
          assert t[i] == rows[i + 1] && t[j] == rows[j + 1];
        }
      }
      SortedByIdOnce(t);
      assert rows == [rows[0]] + t;
      assert rows[0] !in t;
    }
  }

  /** An element found at two positions occurs at least twice. */
  lemma TwiceInMultiset(s: seq<ShiftRow>, i: int, j: int)
    requires 0 <= i < j < |s| && s[i] == s[j]
    ensures multiset(s)[s[i]] >= 2
  {
    assert s == s[..j] + s[j..];
    assert s[i] in s[..j];
    assert s[j..][0] == s[j];
  }

  /** The query returns each stored shift at most once: no two results share an id. */
  lemma ReadRecentDistinct(rows: seq<ShiftRow>, since: int)
    requires SortedById(rows) && AllReadable(rows)
    ensures AllReadable(RecentRows(rows, since))
    ensures var r := ReadAll(RecentRows(rows, since));
      forall i, j :: 0 <= i < j < |r| ==> r[i].id != r[j].id
  {
    RecentRowsMembers(rows, since);
    SortedByIdOnce(rows);
    var found := RecentRows(rows, since);
    var r := ReadAll(found);
    forall i, j | 0 <= i < j < |r|
      ensures r[i].id != r[j].id
    {
      assert found[i] in found && found[j] in found;
      if r[i].id == r[j].id {
        var a :| 0 <= a < |rows| && rows[a] == found[i];
        var b :| 0 <= b < |rows| && rows[b] == found[j];
        assert a == b;
        TwiceInMultiset(found, i, j);
        assert false;
      }
    }
  }

  /** The `shifts` table. */
  class ShiftTable {
    var rows: seq<ShiftRow>
    var sequence: int

    ghost predicate Valid()
      reads this
    {
      SortedById(rows) && AllReadable(rows) && 0 <= sequence &&
      forall x :: x in rows ==> x.id <= sequence
    }

    /** A freshly created database: no rows, AUTOINCREMENT counter at 0. */
    constructor ()
      ensures Valid() && rows == [] && sequence == 0
    {
      rows := [];
      sequence := 0;
    }

    /**
     * `insertShift` with `OnConflictStrategy.REPLACE`. Room binds the key as
     * `nullif(id, 0)`, so an id of 0 gets the next AUTOINCREMENT value, above
     * every id ever used; any other id replaces the row with that id or
     * adds a new row with it.
     */
    method InsertShift(shift: Shift)
      requires Valid()
      modifies this
      ensures Valid()
      ensures shift.id == 0 ==>
        sequence == old(sequence) + 1 &&
        (forall i :: 0 <= i < |old(rows)| ==> old(rows)[i].id < sequence) &&
        rows == old(rows) + [ToRow(shift, sequence)]
      ensures shift.id != 0 ==> sequence == if shift.id > old(sequence) then shift.id else old(sequence)
      ensures forall i :: 0 <= i < |old(rows)| && shift.id != 0 && old(rows)[i].id == shift.id ==>
        rows == old(rows)[i := ToRow(shift, shift.id)]
      ensures shift.id != 0 && (forall i :: 0 <= i < |old(rows)| ==> old(rows)[i].id != shift.id) ==>
        multiset(rows) == multiset(old(rows)) + multiset{ToRow(shift, shift.id)}
    {
      var id := shift.id;
      if id == 0 {
        id := sequence + 1;
      }
      var row := ToRow(shift, id);
      if shift.id == 0 {
        PutByIdAppends(rows, row);
      } else if i :| 0 <= i < |rows| && rows[i].id == id {
        PutByIdReplaces(rows, row, i);
      } else {
        PutByIdAdds(rows, row);
      }
      rows := PutById(rows, row);
      if id > sequence {
        sequence := id;
      }
    }

    /** `DELETE FROM shifts WHERE date < :olderThan`. */
    method DeleteOldShifts(olderThan: LocalDateTime)
      requires Valid()
      modifies this
      ensures Valid()
      ensures sequence == old(sequence)
      ensures HoldsRowsSince(rows, old(rows), DateToTimestamp(Some(olderThan)).value)
      ensures RecentShifts(olderThan) == old(RecentShifts(olderThan))
    {
      var since := DateToTimestamp(Some(olderThan)).value;
      KeepSinceKeepsTable(rows, since, sequence);
      rows := KeepSince(rows, since);
    }

    /** `getRecentShifts`: the shifts dated from `since` on, latest first. */
    function RecentShifts(since: LocalDateTime): (r: seq<Shift>)
      reads this
      requires Valid()
      ensures forall i, j :: 0 <= i < j < |r| ==> IsBeforeOrEqual(r[j].date, r[i].date)
      ensures forall k :: 0 <= k < |r| ==>
        r[k].date.nano == 0 && r[k].date.epochSecond >= since.epochSecond
      ensures forall i :: 0 <= i < |rows| && rows[i].date >= since.epochSecond ==> FromRow(rows[i]) in r
      ensures forall k :: 0 <= k < |r| ==> StoredSince(rows, since.epochSecond, r[k])
      ensures forall i, j :: 0 <= i < j < |r| ==> r[i].id != r[j].id
    {
      var from := DateToTimestamp(Some(since)).value;
      assert from == since.epochSecond by { DateRoundTrip(since); }
      ReadRecent(rows, from);
      ReadAll(RecentRows(rows, from))
    }

    /** `getLastShift`: `ORDER BY id DESC LIMIT 1`. */
    function LastShift(): (r: Option<Shift>)
      reads this
      requires Valid()
      ensures r.None? <==> rows == []
      ensures r.Some? ==>
        (exists i :: 0 <= i < |rows| && r.value == FromRow(rows[i])) &&
        forall i :: 0 <= i < |rows| ==> rows[i].id <= r.value.id
    {
      if rows == [] then None
      else
        // names the witness for the `exists` in the ensures
        assert FromRow(rows[|rows| - 1]) == FromRow(rows[|rows| - 1]);
        Some(FromRow(rows[|rows| - 1]))
    }
  }
}

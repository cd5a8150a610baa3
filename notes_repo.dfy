/** The `daily_notes` table of the hosted store as an in-memory table
    (the operations of src/features/notes/data/notesRepo.ts). At most one
    row per day: the store upserts on the unique key `day_date`. */
module NotesRepo {
  import opened Wrappers
  import Days

  datatype DailyNote = DailyNote(dayDate: string, message: Option<string>, updatedAt: string)

  /** The text the page keeps for a row: its message, or "" for a null one. */
  function MessageText(n: DailyNote): string {
    n.message.GetOr("")
  }

  predicate UniqueDays(rows: seq<DailyNote>) {
    forall i, j :: 0 <= i < j < |rows| ==> rows[i].dayDate != rows[j].dayDate
  }

  /** The rows whose day lies in `[from, to]`, in table order. */
  function InRange(rows: seq<DailyNote>, from: string, to: string): (r: seq<DailyNote>)
    ensures |r| <= |rows|
    ensures forall n :: n in r <==> n in rows && Days.Between(from, n.dayDate, to)
  {
    if rows == [] then []
    else
      var rest := InRange(rows[1..], from, to);
      if Days.Between(from, rows[0].dayDate, to) then [rows[0]] + rest else rest
  }

  /** Keeping some of the rows keeps the days unique. */
  lemma {:induction false} InRangeUnique(rows: seq<DailyNote>, from: string, to: string)
    requires UniqueDays(rows)
    ensures UniqueDays(InRange(rows, from, to))
  {
    if rows != [] {
      InRangeUnique(rows[1..], from, to);
      var rest := InRange(rows[1..], from, to);
      forall n | n in rest ensures n.dayDate != rows[0].dayDate {
        var k :| 0 <= k < |rows[1..]| && rows[1..][k] == n;
        assert rows[k + 1] == n;
      }
    }
  }

  /** The row of `day`, if there is one (`.eq("day_date", day).maybeSingle()`). */
  function FindDay(rows: seq<DailyNote>, day: string): (r: Option<DailyNote>)
    ensures r.Some? ==> r.value in rows && r.value.dayDate == day
    ensures r.None? ==> forall n :: n in rows ==> n.dayDate != day
  {
    if rows == [] then None
    else if rows[0].dayDate == day then Some(rows[0])
    else FindDay(rows[1..], day)
  }

  /** With unique days the row found is THE row of that day. */
  lemma FindDayUnique(rows: seq<DailyNote>, n: DailyNote)
    requires UniqueDays(rows) && n in rows
    ensures FindDay(rows, n.dayDate) == Some(n)
  {
    var f := FindDay(rows, n.dayDate);
    var i :| 0 <= i < |rows| && rows[i] == f.value;
    var j :| 0 <= j < |rows| && rows[j] == n;
    assert i == j;
  }

  /** A one-day window answers with the row the day query finds:
      `getRange(d, d)` and `getByDate(d)` agree on a table with one row per day. */
  lemma {:induction false} OneDayWindow(rows: seq<DailyNote>, d: string)
    requires UniqueDays(rows)
    ensures InRange(rows, d, d) == if FindDay(rows, d).Some? then [FindDay(rows, d).value] else []
  {
    if rows != [] {
      OneDayWindow(rows[1..], d);
      Days.BetweenSelf(d, rows[0].dayDate);
      if rows[0].dayDate == d {
        // no later row has that day
        forall n | n in rows[1..] ensures n.dayDate != d {
          var k :| 0 <= k < |rows[1..]| && rows[1..][k] == n;
          assert rows[k + 1] == n;
        }
      }
    }
  }

  /** The table after an upsert of `row`: the row of its day is replaced, or
      the row is added when its day is new. */
  function Upserted(rows: seq<DailyNote>, row: DailyNote): (r: seq<DailyNote>)
    requires UniqueDays(rows)
    ensures UniqueDays(r)
    ensures row in r
    ensures forall n :: n in r && n != row ==> n in rows && n.dayDate != row.dayDate
    ensures forall n :: n in rows && n.dayDate != row.dayDate ==> n in r
  {
    if FindDay(rows, row.dayDate).Some? then
      var r := seq(|rows|, i requires 0 <= i < |rows| =>
                 if rows[i].dayDate == row.dayDate then row else rows[i]);
      var k :| 0 <= k < |rows| && rows[k] == FindDay(rows, row.dayDate).value;
      assert r[k] == row;
      forall n | n in rows && n.dayDate != row.dayDate ensures n in r {
        var j :| 0 <= j < |rows| && rows[j] == n;
        assert r[j] == n;
      }
      r
    else
      rows + [row]
  }

  /** A day query after an upsert of `row` finds exactly `row`: the saved
      message is what a later `getByDate` of its day reads back. */
  lemma ReadAfterUpsert(rows: seq<DailyNote>, row: DailyNote)
    requires UniqueDays(rows)
    ensures FindDay(Upserted(rows, row), row.dayDate) == Some(row)
  {
    FindDayUnique(Upserted(rows, row), row);
  }

  class Table {
    var rows: seq<DailyNote>

    ghost predicate Valid()
      reads this
    {
      UniqueDays(rows)
    }

    constructor (rows: seq<DailyNote>)
      requires UniqueDays(rows)
      ensures Valid() && this.rows == rows
    {
      this.rows := rows;
    }

    /** `getRange(from, to)`: a failing call throws; otherwise the rows of
        the window, both ends included. */
    method GetRange(from: string, to: string, fault: Option<Failure>) returns (r: Result<seq<DailyNote>>)
      ensures fault.Some? ==> r == Err(fault.value)
      ensures fault.None? ==> r == Ok(InRange(rows, from, to))
    {
      if fault.Some? {
        return Err(fault.value);
      }
      r := Ok(InRange(rows, from, to));
    }

    /** `getByDate(day)` with `.maybeSingle()`: the table holds one row per
        day, so the answer is THE row of that day, or none. */
    method GetByDate(day: string, fault: Option<Failure>) returns (r: Result<Option<DailyNote>>)
      requires Valid()
      ensures fault.Some? ==> r == Err(fault.value)
      ensures fault.None? ==> r.Ok? && r.value == FindDay(rows, day)
      ensures fault.None? ==> forall n :: n in rows && n.dayDate == day ==> r.value == Some(n)
    {
      if fault.Some? {
        return Err(fault.value);
      }
      forall n | n in rows && n.dayDate == day
        ensures FindDay(rows, day) == Some(n)
      {
        FindDayUnique(rows, n);
      }
      r := Ok(FindDay(rows, day));
    }

    /** `upsert(day, message)`: conflict on `day_date` replaces the day's
        row; the call returns the row as stored, stamped `now`. */
    method Upsert(day: string, message: string, now: string, fault: Option<Failure>) returns (r: Result<DailyNote>)
      requires Valid()
      modifies this
      ensures Valid()
      ensures fault.Some? ==> r == Err(fault.value) && rows == old(rows)
      ensures fault.None? ==> r == Ok(DailyNote(day, Some(message), now))
      ensures fault.None? ==> rows == Upserted(old(rows), r.value)
    {
      if fault.Some? {
        return Err(fault.value);
      }
      var stored := DailyNote(day, Some(message), now);
      rows := Upserted(rows, stored);
      r := Ok(stored);
    }
  }
}

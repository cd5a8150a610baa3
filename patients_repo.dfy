/** The `daily_patients` table of the hosted store as an in-memory table
    keyed by row id (the operations of src/features/patients/data/patientsRepo.ts).
    Identifiers and timestamps the store generates are parameters. */
module PatientsRepo {
  import opened Wrappers
  import Days

  datatype Patient = Patient(
    id: string, dayDate: string, name: string, phone: string,
    email: Option<string>, operationTime: Option<string>, comment: Option<string>,
    createdAt: string, updatedAt: string)

  /** What `create` sends: no id. */
  datatype PatientCreate = PatientCreate(
    dayDate: string, name: string, phone: string,
    email: Option<string>, operationTime: Option<string>, comment: Option<string>)

  /** What `update` sends: the id, and no day. */
  datatype PatientUpdate = PatientUpdate(
    id: string, name: string, phone: string,
    email: Option<string>, operationTime: Option<string>, comment: Option<string>)

  /** `.single()` on an update that matched no row. */
  const NoSingleRow: Failure := Failure(Some("Cannot coerce the result to a single JSON object"))
  /** An insert whose generated id is already taken. */
  const DuplicateId: Failure := Failure(Some("duplicate key value violates unique constraint"))

  predicate UniqueIds(rows: seq<Patient>) {
    forall i, j :: 0 <= i < j < |rows| ==> rows[i].id != rows[j].id
  }

  predicate HasId(rows: seq<Patient>, id: string) {
    exists p :: p in rows && p.id == id
  }

  /** `.eq("day_date", day)`: the rows of one day, in table order. */
  function OnDay(rows: seq<Patient>, day: string): (r: seq<Patient>)
    ensures |r| <= |rows|
    ensures forall p :: p in r <==> p in rows && p.dayDate == day
    ensures forall p :: multiset(r)[p] == if p.dayDate == day then multiset(rows)[p] else 0
  {
    if rows == [] then []
    else
      var rest := OnDay(rows[1..], day);
      assert rows == [rows[0]] + rows[1..];
      if rows[0].dayDate == day then [rows[0]] + rest else rest
  }

  /** The day's list of a table with unique ids has unique ids. */
  lemma {:induction false} OnDayUnique(rows: seq<Patient>, day: string)
    requires UniqueIds(rows)
    ensures UniqueIds(OnDay(rows, day))
  {
    if rows != [] {
      OnDayUnique(rows[1..], day);
      forall p | p in OnDay(rows[1..], day) ensures p.id != rows[0].id {
        var k :| 0 <= k < |rows[1..]| && rows[1..][k] == p;
        assert rows[k + 1] == p;
      }
    }
  }

  /** `getDaysWithAny(from, to)`: one `day_date` per row of the window, so a
      day with several appointments comes back several times. */
  function DaysInRange(rows: seq<Patient>, from: string, to: string): (r: seq<string>)
    ensures |r| <= |rows|
    ensures forall d :: d in r <==> Days.Between(from, d, to) && exists p :: p in rows && p.dayDate == d
  {
    if rows == [] then []
    else
      var rest := DaysInRange(rows[1..], from, to);
      assert forall p :: p in rows[1..] ==> p in rows;
      assert forall p :: p in rows && p != rows[0] ==> p in rows[1..];
      if Days.Between(from, rows[0].dayDate, to) then [rows[0].dayDate] + rest else rest
  }

  /** `.delete().eq("id", id)`: every row but the one with that id. */
  function WithoutId(rows: seq<Patient>, id: string): (r: seq<Patient>)
    ensures |r| <= |rows|
    ensures forall p :: p in r <==> p in rows && p.id != id
  {
    if rows == [] then []
    else
      var rest := WithoutId(rows[1..], id);
      if rows[0].id != id then [rows[0]] + rest else rest
  }

  /** Deleting rows keeps the ids unique. */
  lemma {:induction false} WithoutIdUnique(rows: seq<Patient>, id: string)
    requires UniqueIds(rows)
    ensures UniqueIds(WithoutId(rows, id))
  {
    if rows != [] {
      WithoutIdUnique(rows[1..], id);
      forall p | p in WithoutId(rows[1..], id) ensures p.id != rows[0].id {
        var k :| 0 <= k < |rows[1..]| && rows[1..][k] == p;
        assert rows[k + 1] == p;
      }
    }
  }

  /** The row an insert stores: the payload's fields, a generated id, both timestamps `now`. */
  function CreatedRow(c: PatientCreate, id: string, now: string): (p: Patient)
    ensures p.id == id && p.dayDate == c.dayDate && p.createdAt == now
    ensures PatientCreate(p.dayDate, p.name, p.phone, p.email, p.operationTime, p.comment) == c
  {
    Patient(id, c.dayDate, c.name, c.phone, c.email, c.operationTime, c.comment, now, now)
  }

  /** The row an update stores: id, day and creation time kept, every sent
      field overwritten (the update resupplies all of them), stamped `now`. */
  function UpdatedRow(p: Patient, u: PatientUpdate, now: string): (q: Patient)
    ensures q.id == p.id && q.dayDate == p.dayDate && q.createdAt == p.createdAt
    ensures PatientUpdate(q.id, q.name, q.phone, q.email, q.operationTime, q.comment) == u.(id := p.id)
  {
    p.(name := u.name, phone := u.phone, email := u.email,
       operationTime := u.operationTime, comment := u.comment, updatedAt := now)
  }

  /** The row with `id`, if any. */
  function FindId(rows: seq<Patient>, id: string): (r: Option<Patient>)
    ensures r.Some? ==> r.value in rows && r.value.id == id
    ensures r.None? ==> !HasId(rows, id)
  {
    if rows == [] then None
    else if rows[0].id == id then Some(rows[0])
    else FindId(rows[1..], id)
  }

  /** The table with the row of `row.id` replaced by `row`. */
  function Replaced(rows: seq<Patient>, row: Patient): (r: seq<Patient>)
    ensures |r| == |rows|
    ensures forall i :: 0 <= i < |rows| ==> r[i] == if rows[i].id == row.id then row else rows[i]
  {
    seq(|rows|, i requires 0 <= i < |rows| => if rows[i].id == row.id then row else rows[i])
  }

  class Table {
    var rows: seq<Patient>

    ghost predicate Valid()
      reads this
    {
      UniqueIds(rows)
    }

    constructor (rows: seq<Patient>)
      requires UniqueIds(rows)
      ensures Valid() && this.rows == rows
    {
      this.rows := rows;
    }

    /** `listByDay(day)`. The store orders the rows by time (nulls last),
        then by creation; this table keeps its own order. */
    method ListByDay(day: string, fault: Option<Failure>) returns (r: Result<seq<Patient>>)
      ensures fault.Some? ==> r == Err(fault.value)
      ensures fault.None? ==> r == Ok(OnDay(rows, day))
    {
      if fault.Some? {
        return Err(fault.value);
      }
      r := Ok(OnDay(rows, day));
    }

    /** `getDaysWithAny(from, to)`. */
    method GetDaysWithAny(from: string, to: string, fault: Option<Failure>) returns (r: Result<seq<string>>)
      ensures fault.Some? ==> r == Err(fault.value)
      ensures fault.None? ==> r == Ok(DaysInRange(rows, from, to))
    {
      if fault.Some? {
        return Err(fault.value);
      }
      r := Ok(DaysInRange(rows, from, to));
    }

    /** `create(payload)`: inserts the row under the generated `newId` and
        returns it; a taken id is a constraint violation and inserts nothing. */
    method Create(payload: PatientCreate, newId: string, now: string, fault: Option<Failure>) returns (r: Result<Patient>)
      requires Valid()
      modifies this
      ensures Valid()
      ensures fault.Some? ==> r == Err(fault.value)
      ensures fault.None? && HasId(old(rows), newId) ==> r == Err(DuplicateId)
      ensures fault.None? && !HasId(old(rows), newId) ==> r == Ok(CreatedRow(payload, newId, now))
      ensures r.Ok? ==> rows == old(rows) + [r.value]
      ensures r.Err? ==> rows == old(rows)
    {
      if fault.Some? {
        return Err(fault.value);
      }
      if FindId(rows, newId).Some? {
        return Err(DuplicateId);
      }
      var row := CreatedRow(payload, newId, now);
      rows := rows + [row];
      r := Ok(row);
    }

    /** `update(payload)`: overwrites the row of `payload.id` and returns it;
        when no row has that id, `.single()` throws and nothing changes. */
    method Update(payload: PatientUpdate, now: string, fault: Option<Failure>) returns (r: Result<Patient>)
      requires Valid()
      modifies this
      ensures Valid()
      ensures fault.Some? ==> r == Err(fault.value)
      ensures fault.None? && !HasId(old(rows), payload.id) ==> r == Err(NoSingleRow)
      ensures fault.None? && HasId(old(rows), payload.id) ==>
                r == Ok(UpdatedRow(FindId(old(rows), payload.id).value, payload, now))
      ensures r.Ok? ==> rows == Replaced(old(rows), r.value)
      ensures r.Err? ==> rows == old(rows)
    {
      if fault.Some? {
        return Err(fault.value);
      }
      var found := FindId(rows, payload.id);
      if found.None? {
        return Err(NoSingleRow);
      }
      var row := UpdatedRow(found.value, payload, now);
      rows := Replaced(rows, row);
      r := Ok(row);
    }

    /** `remove(id)`: deletes the row with that id (a missing id deletes nothing). */
    method Remove(id: string, fault: Option<Failure>) returns (r: Result<()>)
      requires Valid()
      modifies this
      ensures Valid()
      ensures fault.Some? ==> r == Err(fault.value) && rows == old(rows)
      ensures fault.None? ==> r == Ok(()) && rows == WithoutId(old(rows), id)
    {
      if fault.Some? {
        return Err(fault.value);
      }
      WithoutIdUnique(rows, id);
      rows := WithoutId(rows, id);
      r := Ok(());
    }
  }
}

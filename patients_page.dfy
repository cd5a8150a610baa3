/** The appointments page (src/features/patients/PatientsPage.tsx): the
    calendar markers of the window, the list of the selected day, the panel
    mode, and the fixed mutate, refresh day, refresh markers, view sequence. */
module PatientsPage {
  import opened Wrappers
  import Days
  import PatientsRepo
  import PatientForm

  type Patient = PatientsRepo.Patient

  /** `PanelMode`: the table, the create form, or the edit form of a row. */
  datatype PanelMode = Viewing | Creating | Editing(patient: Patient)

  /** The distinct days of a listing. */
  function DaySet(days: seq<string>): set<string> {
    set i | 0 <= i < |days| :: days[i]
  }

  /** The loop of `refreshDots`: adds each returned day to a set, so
      duplicates collapse and the set holds exactly the days returned. */
  method CollectDays(days: seq<string>) returns (s: set<string>)
    ensures forall d :: d in s <==> d in days
    ensures |s| <= |days|
  {
    s := {};
    for i := 0 to |days|
      invariant forall d :: d in s <==> d in days[..i]
      invariant |s| <= i
    {
      assert days[..i + 1] == days[..i] + [days[i]];
      s := s + {days[i]};
    }
    assert days[..|days|] == days;
  }

  /** After a marker refresh from `rows`, a day is marked exactly when it
      lies in the window and some row is on it. */
  lemma MarkersOfRows(rows: seq<Patient>, from: string, to: string, d: string)
    ensures d in DaySet(PatientsRepo.DaysInRange(rows, from, to)) <==>
            Days.Between(from, d, to) && exists p :: p in rows && p.dayDate == d
  {
    var days := PatientsRepo.DaysInRange(rows, from, to);
    if d in days {
      var i :| 0 <= i < |days| && days[i] == d;
      assert d in DaySet(days);
    }
  }

  /** After `remove(id)` and the refreshes: the day's list no longer holds
      `id`, and a day of the window stays marked exactly when some other
      row is still on it. */
  lemma AfterRemove(rows: seq<Patient>, id: string, day: string, from: string, to: string)
    ensures forall p :: p in PatientsRepo.OnDay(PatientsRepo.WithoutId(rows, id), day) ==> p.id != id
    ensures day in DaySet(PatientsRepo.DaysInRange(PatientsRepo.WithoutId(rows, id), from, to)) <==>
            Days.Between(from, day, to) && exists p :: p in rows && p.id != id && p.dayDate == day
  {
    MarkersOfRows(PatientsRepo.WithoutId(rows, id), from, to, day);
  }

  class Page {
    const rangeFrom: string
    const rangeTo: string
    var selectedIso: string
    var loadingRange: bool
    var loadingDay: bool
    var patients: seq<Patient>
    var panelMode: PanelMode
    var daysWithPatients: set<string>

    /** The initial state: today selected, both loads pending, nothing listed. */
    constructor (today: string, rangeFrom: string, rangeTo: string)
      ensures this.rangeFrom == rangeFrom && this.rangeTo == rangeTo && selectedIso == today
      ensures loadingRange && loadingDay && patients == [] && panelMode == Viewing && daysWithPatients == {}
    {
      this.rangeFrom := rangeFrom;
      this.rangeTo := rangeTo;
      selectedIso := today;
      loadingRange, loadingDay := true, true;
      patients := [];
      panelMode := Viewing;
      daysWithPatients := {};
    }

    /** The table is shown only in view mode once the day has loaded. */
    predicate ShowsTable()
      reads this
    {
      panelMode == Viewing && !loadingDay
    }

    /** `refreshDots`: the marker set becomes exactly the distinct days the
        window query returned; a failing query throws and changes nothing. */
    method RefreshDots(db: PatientsRepo.Table, fault: Option<Failure>) returns (r: Result<()>)
      modifies this
      ensures fault.Some? ==> r == Err(fault.value) && daysWithPatients == old(daysWithPatients)
      ensures fault.None? ==> r == Ok(()) && daysWithPatients == DaySet(PatientsRepo.DaysInRange(db.rows, rangeFrom, rangeTo))
      ensures selectedIso == old(selectedIso) && patients == old(patients) && panelMode == old(panelMode)
      ensures loadingRange == old(loadingRange) && loadingDay == old(loadingDay)
    {
      var rows := db.GetDaysWithAny(rangeFrom, rangeTo, fault);
      if rows.Err? {
        return Err(rows.failure);
      }
      var days := CollectDays(rows.value);
      daysWithPatients := days;
      r := Ok(());
    }

    /** `refreshDay(selectedIso)`: the list is REPLACED by the day's rows. */
    method RefreshDay(db: PatientsRepo.Table, fault: Option<Failure>) returns (r: Result<()>)
      modifies this
      ensures fault.Some? ==> r == Err(fault.value) && patients == old(patients)
      ensures fault.None? ==> r == Ok(()) && patients == PatientsRepo.OnDay(db.rows, selectedIso)
      ensures selectedIso == old(selectedIso) && daysWithPatients == old(daysWithPatients) && panelMode == old(panelMode)
      ensures loadingRange == old(loadingRange) && loadingDay == old(loadingDay)
    {
      var list := db.ListByDay(selectedIso, fault);
      if list.Err? {
        return Err(list.failure);
      }
      patients := list.value;
      r := Ok(());
    }

    /** The markers effect: `loadingRange` is raised during the refresh and
        cleared after it, whether it resolved or threw. */
    method LoadMarkers(db: PatientsRepo.Table, fault: Option<Failure>) returns (r: Result<()>, ghost loadingWhileFetching: bool)
      modifies this
      ensures loadingWhileFetching && !loadingRange
      ensures fault.Some? ==> r == Err(fault.value) && daysWithPatients == old(daysWithPatients)
      ensures fault.None? ==> r == Ok(()) && daysWithPatients == DaySet(PatientsRepo.DaysInRange(db.rows, rangeFrom, rangeTo))
      ensures selectedIso == old(selectedIso) && patients == old(patients) && panelMode == old(panelMode)
      ensures loadingDay == old(loadingDay)
    {
      loadingRange := true;
      loadingWhileFetching := loadingRange;
      r := RefreshDots(db, fault);
      loadingRange := false;
    }

    /** The selected-day effect: `loadingDay` is raised during the load and
        cleared after it; a successful load replaces the list and resets the
        panel to view mode, a failing one changes neither. */
    method LoadDay(db: PatientsRepo.Table, fault: Option<Failure>) returns (r: Result<()>, ghost loadingWhileFetching: bool)
      modifies this
      ensures loadingWhileFetching && !loadingDay
      ensures fault.Some? ==> r == Err(fault.value) && patients == old(patients) && panelMode == old(panelMode)
      ensures fault.None? ==> r == Ok(()) && patients == PatientsRepo.OnDay(db.rows, selectedIso) && panelMode == Viewing
      ensures selectedIso == old(selectedIso) && daysWithPatients == old(daysWithPatients) && loadingRange == old(loadingRange)
    {
      loadingDay := true;
      loadingWhileFetching := loadingDay;
      r := RefreshDay(db, fault);
      if r.Ok? {
        panelMode := Viewing;
      }
      loadingDay := false;
    }

    /** Picking a day: the effect depends on the ISO key, so it runs only
        when the key changes. */
    method SelectDate(day: string, db: PatientsRepo.Table, fault: Option<Failure>) returns (r: Result<()>)
      modifies this
      ensures selectedIso == day
      ensures day == old(selectedIso) ==> (r == Ok(()) && loadingDay == old(loadingDay)
                 && patients == old(patients) && panelMode == old(panelMode))
      ensures day != old(selectedIso) ==> !loadingDay
      ensures day != old(selectedIso) && fault.Some? ==> r == Err(fault.value) && patients == old(patients) && panelMode == old(panelMode)
      ensures day != old(selectedIso) && fault.None? ==> r == Ok(()) && patients == PatientsRepo.OnDay(db.rows, day) && panelMode == Viewing
      ensures daysWithPatients == old(daysWithPatients) && loadingRange == old(loadingRange)
    {
      if day == selectedIso {
        return Ok(());
      }
      selectedIso := day;
      ghost var loading;
      r, loading := LoadDay(db, fault);
    }

    /** "Add new patient", a button of the view panel. */
    method OpenCreate()
      requires panelMode == Viewing
      modifies this
      ensures panelMode == Creating
      ensures selectedIso == old(selectedIso) && patients == old(patients) && daysWithPatients == old(daysWithPatients)
      ensures loadingRange == old(loadingRange) && loadingDay == old(loadingDay)
    {
      panelMode := Creating;
    }

    /** The table's edit action on its row `p`. */
    method OpenEdit(p: Patient)
      requires ShowsTable() && p in patients
      modifies this
      ensures panelMode == Editing(p)
      ensures selectedIso == old(selectedIso) && patients == old(patients) && daysWithPatients == old(daysWithPatients)
      ensures loadingRange == old(loadingRange) && loadingDay == old(loadingDay)
    {
      panelMode := Editing(p);
    }

    /** The Cancel button of the open `form`, disabled while it submits. */
    method CancelForm(form: PatientForm.Form)
      requires panelMode != Viewing && !form.submitting
      modifies this
      ensures panelMode == Viewing
      ensures selectedIso == old(selectedIso) && patients == old(patients) && daysWithPatients == old(daysWithPatients)
      ensures loadingRange == old(loadingRange) && loadingDay == old(loadingDay)
    {
      panelMode := Viewing;
    }

    /** The two refreshes and the switch to view mode that follow every
        successful mutation, in that order; the first throw stops the rest. */
    method RefreshAfterMutation(db: PatientsRepo.Table, dayFault: Option<Failure>, dotsFault: Option<Failure>) returns (r: Result<()>)
      modifies this
      ensures dayFault.Some? ==> (r == Err(dayFault.value)
                 && patients == old(patients) && daysWithPatients == old(daysWithPatients) && panelMode == old(panelMode))
      ensures dayFault.None? ==> patients == PatientsRepo.OnDay(db.rows, selectedIso)
      ensures dayFault.None? && dotsFault.Some? ==> (r == Err(dotsFault.value)
                 && daysWithPatients == old(daysWithPatients) && panelMode == old(panelMode))
      ensures dayFault.None? && dotsFault.None? ==> (r == Ok(())
                 && daysWithPatients == DaySet(PatientsRepo.DaysInRange(db.rows, rangeFrom, rangeTo)) && panelMode == Viewing)
      ensures selectedIso == old(selectedIso) && loadingRange == old(loadingRange) && loadingDay == old(loadingDay)
    {
      r := RefreshDay(db, dayFault);
      if r.Err? {
        return;
      }
      r := RefreshDots(db, dotsFault);
      if r.Err? {
        return;
      }
      panelMode := Viewing;
    }

    /** `onSubmitPatient`: a payload with an id is an update, one without is
        a create; then the refreshes and view mode. If the mutation throws,
        the table and the page are left as they were. */
    method OnSubmitPatient(db: PatientsRepo.Table, payload: PatientForm.Payload, newId: string, now: string,
                           mutateFault: Option<Failure>, dayFault: Option<Failure>, dotsFault: Option<Failure>)
      returns (stored: Result<Patient>, r: Result<()>)
      requires db.Valid()
      modifies this, db
      ensures db.Valid()
      ensures mutateFault.Some? ==> stored == Err(mutateFault.value)
      ensures payload.Create? && stored.Ok? ==>
                stored.value == PatientsRepo.CreatedRow(payload.create, newId, now) && db.rows == old(db.rows) + [stored.value]
      ensures payload.Create? && mutateFault.None? ==> (stored.Ok? <==> !PatientsRepo.HasId(old(db.rows), newId))
      ensures payload.Update? && stored.Ok? ==>
                PatientsRepo.FindId(old(db.rows), payload.update.id).Some? &&
                stored.value == PatientsRepo.UpdatedRow(PatientsRepo.FindId(old(db.rows), payload.update.id).value, payload.update, now)
                && db.rows == PatientsRepo.Replaced(old(db.rows), stored.value)
      ensures payload.Update? && mutateFault.None? ==> (stored.Ok? <==> PatientsRepo.HasId(old(db.rows), payload.update.id))
      ensures stored.Err? ==> (r == Err(stored.failure) && db.rows == old(db.rows)
                 && patients == old(patients) && daysWithPatients == old(daysWithPatients) && panelMode == old(panelMode))
      ensures stored.Ok? && dayFault.Some? ==> (r == Err(dayFault.value)
                 && patients == old(patients) && daysWithPatients == old(daysWithPatients) && panelMode == old(panelMode))
      ensures stored.Ok? && dayFault.None? ==> patients == PatientsRepo.OnDay(db.rows, selectedIso)
      ensures stored.Ok? && dayFault.None? && dotsFault.Some? ==> (r == Err(dotsFault.value)
                 && daysWithPatients == old(daysWithPatients) && panelMode == old(panelMode))
      ensures stored.Ok? && dayFault.None? && dotsFault.None? ==> (r == Ok(())
                 && daysWithPatients == DaySet(PatientsRepo.DaysInRange(db.rows, rangeFrom, rangeTo)) && panelMode == Viewing)
      ensures selectedIso == old(selectedIso) && loadingRange == old(loadingRange) && loadingDay == old(loadingDay)
    {
      if payload.Update? {
        stored := db.Update(payload.update, now, mutateFault);
      } else {
        stored := db.Create(payload.create, newId, now, mutateFault);
      }
      if stored.Err? {
        return stored, Err(stored.failure);
      }
      r := RefreshAfterMutation(db, dayFault, dotsFault);
    }

    /** `onDeletePatient(p)`, the table's delete action on its row `p`:
        declining the confirmation changes nothing; accepting it removes the
        row, then refreshes and returns to view. */
    method OnDeletePatient(db: PatientsRepo.Table, p: Patient, confirmed: bool,
                           removeFault: Option<Failure>, dayFault: Option<Failure>, dotsFault: Option<Failure>)
      returns (r: Result<()>)
      requires db.Valid() && ShowsTable() && p in patients
      modifies this, db
      ensures db.Valid()
      ensures !confirmed ==> (r == Ok(()) && db.rows == old(db.rows)
                 && patients == old(patients) && daysWithPatients == old(daysWithPatients) && panelMode == old(panelMode))
      ensures confirmed && removeFault.Some? ==> (r == Err(removeFault.value) && db.rows == old(db.rows)
                 && patients == old(patients) && daysWithPatients == old(daysWithPatients) && panelMode == old(panelMode))
      ensures confirmed && removeFault.None? ==> db.rows == PatientsRepo.WithoutId(old(db.rows), p.id)
      ensures confirmed && removeFault.None? && dayFault.Some? ==> (r == Err(dayFault.value)
                 && patients == old(patients) && daysWithPatients == old(daysWithPatients) && panelMode == old(panelMode))
      ensures confirmed && removeFault.None? && dayFault.None? ==>
                patients == PatientsRepo.OnDay(db.rows, selectedIso) && forall q :: q in patients ==> q.id != p.id
      ensures confirmed && removeFault.None? && dayFault.None? && dotsFault.Some? ==> (r == Err(dotsFault.value)
                 && daysWithPatients == old(daysWithPatients) && panelMode == old(panelMode))
      ensures confirmed && removeFault.None? && dayFault.None? && dotsFault.None? ==> (r == Ok(()) && panelMode == Viewing
                 && daysWithPatients == DaySet(PatientsRepo.DaysInRange(db.rows, rangeFrom, rangeTo))
                 && (selectedIso in daysWithPatients <==>
                       Days.Between(rangeFrom, selectedIso, rangeTo)
                       && exists q :: q in old(db.rows) && q.id != p.id && q.dayDate == selectedIso))
      ensures selectedIso == old(selectedIso) && loadingRange == old(loadingRange) && loadingDay == old(loadingDay)
    {
      if !confirmed {
        return Ok(());
      }
      r := db.Remove(p.id, removeFault);
      if r.Err? {
        return;
      }
      r := RefreshAfterMutation(db, dayFault, dotsFault);
      AfterRemove(old(db.rows), p.id, selectedIso, rangeFrom, rangeTo);
    }

    /** Submitting the open form, whose `onSubmit` is `OnSubmitPatient`.
        The page mounts the create form for the selected day and the edit
        form for the row being edited. Nothing happens when the gate is
        closed; otherwise the payload is sent, with the outcome of
        `OnSubmitPatient`, and the form shows the error of a throw and
        clears `submitting` in either case. */
    method SubmitForm(form: PatientForm.Form, db: PatientsRepo.Table, newId: string, now: string,
                      mutateFault: Option<Failure>, dayFault: Option<Failure>, dotsFault: Option<Failure>)
      returns (sent: Option<PatientForm.Payload>, stored: Option<Result<Patient>>, r: Result<()>)
      requires db.Valid() && panelMode != Viewing
      requires panelMode == Creating ==> form.mode == PatientForm.CreateMode(selectedIso)
      requires panelMode.Editing? ==> form.mode == PatientForm.EditMode(panelMode.patient)
      modifies this, db, form
      ensures db.Valid() && form.fields == old(form.fields)
      ensures form.submitting == (sent.None? && old(form.submitting))
      ensures sent.Some? <==> PatientForm.CanSubmit(old(form.fields), old(form.submitting))
      ensures sent.Some? ==> sent.value == PatientForm.BuildPayload(form.mode, form.fields)
      ensures sent.Some? && sent.value.Create? ==> sent.value.create.dayDate == selectedIso
      ensures sent.Some? && sent.value.Update? ==> old(panelMode).Editing? && sent.value.update.id == old(panelMode).patient.id
      ensures sent.None? ==> (stored == None && r == Ok(()) && form.error == None && db.rows == old(db.rows)
                 && patients == old(patients) && daysWithPatients == old(daysWithPatients) && panelMode == old(panelMode))
      ensures sent.Some? ==> stored.Some?
      ensures sent.Some? && mutateFault.Some? ==> stored == Some(Err(mutateFault.value))
      ensures sent.Some? && sent.value.Create? && mutateFault.None? ==> (stored.value.Ok? <==> !PatientsRepo.HasId(old(db.rows), newId))
      ensures sent.Some? && sent.value.Create? && stored.value.Ok? ==>
                stored.value.value == PatientsRepo.CreatedRow(sent.value.create, newId, now) && db.rows == old(db.rows) + [stored.value.value]
      ensures sent.Some? && sent.value.Update? && mutateFault.None? ==>
                (stored.value.Ok? <==> PatientsRepo.HasId(old(db.rows), sent.value.update.id))
      ensures sent.Some? && sent.value.Update? && stored.value.Ok? ==>
                PatientsRepo.FindId(old(db.rows), sent.value.update.id).Some? &&
                stored.value.value == PatientsRepo.UpdatedRow(PatientsRepo.FindId(old(db.rows), sent.value.update.id).value, sent.value.update, now)
                && db.rows == PatientsRepo.Replaced(old(db.rows), stored.value.value)
      ensures sent.Some? && stored.value.Err? ==> (r == Err(stored.value.failure) && db.rows == old(db.rows)
                 && patients == old(patients) && daysWithPatients == old(daysWithPatients) && panelMode == old(panelMode))
      ensures sent.Some? && stored.value.Ok? && dayFault.Some? ==> (r == Err(dayFault.value)
                 && patients == old(patients) && daysWithPatients == old(daysWithPatients) && panelMode == old(panelMode))
      ensures sent.Some? && stored.value.Ok? && dayFault.None? ==> patients == PatientsRepo.OnDay(db.rows, selectedIso)
      ensures sent.Some? && stored.value.Ok? && dayFault.None? && dotsFault.Some? ==> (r == Err(dotsFault.value)
                 && daysWithPatients == old(daysWithPatients) && panelMode == old(panelMode))
      ensures sent.Some? && stored.value.Ok? && dayFault.None? && dotsFault.None? ==> (r == Ok(())
                 && daysWithPatients == DaySet(PatientsRepo.DaysInRange(db.rows, rangeFrom, rangeTo)) && panelMode == Viewing)
      ensures sent.Some? && r.Err? ==> form.error == Some(r.failure.message.GetOr(PatientForm.DefaultError))
      ensures sent.Some? && r.Ok? ==> form.error == None
      ensures selectedIso == old(selectedIso) && loadingRange == old(loadingRange) && loadingDay == old(loadingDay)
    {
      sent := form.BeginSubmit();
      if sent.None? {
        return None, None, Ok(());
      }
      var result;
      result, r := OnSubmitPatient(db, sent.value, newId, now, mutateFault, dayFault, dotsFault);
      stored := Some(result);
      form.FinishSubmit(if r.Err? then Some(r.failure) else None);
    }
  }

  /** Mounting the page over an empty store: both effects run, no day is
      marked and the selected day's table is shown with no appointments. */
  method OpenOnEmptyStore(today: string, from: string, to: string) returns (db: PatientsRepo.Table, page: Page)
    ensures fresh(db) && fresh(page)
    ensures db.Valid() && db.rows == []
    ensures page.selectedIso == today && page.patients == [] && page.daysWithPatients == {}
    ensures page.ShowsTable() && !page.loadingRange
  {
    db := new PatientsRepo.Table([]);
    page := new Page(today, from, to);
    var r;
    ghost var loading;
    r, loading := page.LoadMarkers(db, None);
    r, loading := page.LoadDay(db, None);
    assert PatientsRepo.DaysInRange([], from, to) == [];
  }
}

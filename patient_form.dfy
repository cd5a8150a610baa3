/** The appointment form (src/features/patients/components/PatientForm.tsx):
    field normalisation, the submit gate, the payloads, the edit prefill and
    the submit sequence around `onSubmit`. */
module PatientForm {
  import opened Wrappers
  import Text
  import PatientsRepo

  type Patient = PatientsRepo.Patient

  /** Create an appointment on a day, or edit an existing one. */
  datatype FormMode = CreateMode(dayDate: string) | EditMode(patient: Patient)

  /** The five text inputs. */
  datatype Fields = Fields(name: string, phone: string, email: string, operationTime: string, comment: string)

  /** What the form hands to `onSubmit`: only the update carries an id. */
  datatype Payload = Create(create: PatientsRepo.PatientCreate) | Update(update: PatientsRepo.PatientUpdate)

  const DefaultError: string := "Failed to save appointment."

  /** `normalizeTime`: blank is no time; a trimmed "HH:MM" (any five
      characters) gains ":00"; anything else is kept, trimmed. */
  function NormalizeTime(value: string): (r: Option<string>)
    ensures r.None? <==> Text.IsBlank(value)
    ensures r.Some? && |Text.Trim(value)| == 5 ==> r.value == Text.Trim(value) + ":00"
    ensures r.Some? && |Text.Trim(value)| != 5 ==> r.value == Text.Trim(value)
  {
    var v := Text.Trim(value);
    if |v| == 0 then None
    else if |v| == 5 then Some(v + ":00")
    else Some(v)
  }

  /** An optional text column: `v.trim().length ? v.trim() : null`. */
  function OptionalText(value: string): (r: Option<string>)
    ensures r.None? <==> Text.IsBlank(value)
    ensures r.Some? ==> r.value == Text.Trim(value) && Text.IsTrimmed(r.value) && !Text.IsBlank(r.value)
  {
    var v := Text.Trim(value);
    Text.TrimIdempotent(value);
    if |v| > 0 then Some(v) else None
  }

  /** `canSubmit`: a name and a phone that are not blank, and no submit in flight. */
  function CanSubmit(f: Fields, submitting: bool): (b: bool)
    ensures b <==> !Text.IsBlank(f.name) && !Text.IsBlank(f.phone) && !submitting
  {
    |Text.Trim(f.name)| > 0 && |Text.Trim(f.phone)| > 0 && !submitting
  }

  /** `s.slice(0, 5)`: at most the first five characters. */
  function Prefix5(s: string): (r: string)
    ensures |r| == if |s| < 5 then |s| else 5
    ensures r == s[..|r|]
  {
    if |s| < 5 then s else s[..5]
  }

  /** `initial`: empty inputs for a new appointment; for an edit, the row's
      fields with null email and comment shown as "" and the stored time cut
      to "HH:MM" ("" for a null or empty time). */
  function Initial(mode: FormMode): (f: Fields)
    ensures mode.CreateMode? ==> f == Fields("", "", "", "", "")
    ensures mode.EditMode? ==>
              var p := mode.patient;
              && f.name == p.name && f.phone == p.phone
              && f.email == p.email.GetOr("") && f.comment == p.comment.GetOr("")
              && (p.operationTime.None? || p.operationTime == Some("") ==> f.operationTime == "")
              && (p.operationTime.Some? && p.operationTime.value != "" ==> f.operationTime == Prefix5(p.operationTime.value))
  {
    match mode
    case CreateMode(_) => Fields("", "", "", "", "")
    case EditMode(p) =>
      Fields(p.name, p.phone, p.email.GetOr(""),
             if p.operationTime.Some? && p.operationTime.value != "" then Prefix5(p.operationTime.value) else "",
             p.comment.GetOr(""))
  }

  /** The payload `handleSubmit` builds: trimmed name and phone, optional
      texts null when blank, the normalised time; the create payload has the
      form's day, the update payload the edited row's id. */
  function BuildPayload(mode: FormMode, f: Fields): (r: Payload)
    ensures r.Create? <==> mode.CreateMode?
    ensures r.Create? ==> r.create == PatientsRepo.PatientCreate(
              mode.dayDate, Text.Trim(f.name), Text.Trim(f.phone),
              OptionalText(f.email), NormalizeTime(f.operationTime), OptionalText(f.comment))
    ensures r.Update? ==> r.update == PatientsRepo.PatientUpdate(
              mode.patient.id, Text.Trim(f.name), Text.Trim(f.phone),
              OptionalText(f.email), NormalizeTime(f.operationTime), OptionalText(f.comment))
  {
    var name, phone := Text.Trim(f.name), Text.Trim(f.phone);
    var email, time, comment := OptionalText(f.email), NormalizeTime(f.operationTime), OptionalText(f.comment);
    match mode
    case CreateMode(day) => Create(PatientsRepo.PatientCreate(day, name, phone, email, time, comment))
    case EditMode(p) => Update(PatientsRepo.PatientUpdate(p.id, name, phone, email, time, comment))
  }

  predicate IsDigit(c: char) {
    '0' <= c <= '9'
  }

  /** A stored `operation_time` of the form "HH:MM:SS". */
  predicate IsTimeOfDay(t: string) {
    && |t| == 8
    && IsDigit(t[0]) && IsDigit(t[1]) && t[2] == ':'
    && IsDigit(t[3]) && IsDigit(t[4]) && t[5] == ':'
    && IsDigit(t[6]) && IsDigit(t[7])
  }

  /** Prefill then normalise: a stored "HH:MM:SS" comes back as "HH:MM:00",
      so a time stored with zero seconds comes back unchanged. */
  lemma TimeRoundTrip(p: Patient)
    requires p.operationTime.Some? && IsTimeOfDay(p.operationTime.value)
    ensures var t := p.operationTime.value;
            NormalizeTime(Initial(EditMode(p)).operationTime) == Some(t[..5] + ":00")
    ensures p.operationTime.value[6..] == "00" ==>
            NormalizeTime(Initial(EditMode(p)).operationTime) == p.operationTime
  {
    var t := p.operationTime.value;
    var shown := Initial(EditMode(p)).operationTime;
    assert shown == t[..5];
    Text.TrimOfTrimmed(shown);
    if t[6..] == "00" {
      assert t[..5] + ":00" == t;
    }
  }

  /** A row in the form this form itself stores: name and phone trimmed and
      not blank, optional texts absent or trimmed and not blank, and a time
      absent or "HH:MM:00". */
  predicate IsNormalRow(p: Patient) {
    && Text.IsTrimmed(p.name) && !Text.IsBlank(p.name)
    && Text.IsTrimmed(p.phone) && !Text.IsBlank(p.phone)
    && (p.email.Some? ==> Text.IsTrimmed(p.email.value) && !Text.IsBlank(p.email.value))
    && (p.comment.Some? ==> Text.IsTrimmed(p.comment.value) && !Text.IsBlank(p.comment.value))
    && (p.operationTime.Some? ==> IsTimeOfDay(p.operationTime.value) && p.operationTime.value[6..] == "00")
  }

  /** An optional text shown as `value ?? ""` and read back with
      `OptionalText` is unchanged when it was stored trimmed and not blank. */
  lemma OptionalRoundTrip(o: Option<string>)
    requires o.Some? ==> Text.IsTrimmed(o.value) && !Text.IsBlank(o.value)
    ensures OptionalText(o.GetOr("")) == o
  {
    if o.Some? { Text.TrimOfTrimmed(o.value); }
  }

  /** Opening such a row for edit and submitting it untouched is allowed and
      sends back exactly the row's own fields. */
  lemma EditRoundTrip(p: Patient)
    requires IsNormalRow(p)
    ensures CanSubmit(Initial(EditMode(p)), false)
    ensures BuildPayload(EditMode(p), Initial(EditMode(p))) ==
            Update(PatientsRepo.PatientUpdate(p.id, p.name, p.phone, p.email, p.operationTime, p.comment))
  {
    var f := Initial(EditMode(p));
    TrimmedRequiredFields(p);
    OptionalRoundTrip(p.email);
    OptionalRoundTrip(p.comment);
    if p.operationTime.Some? { TimeRoundTrip(p); }
  }

  /** The prefilled name and phone of a normal row trim back to themselves. */
  lemma TrimmedRequiredFields(p: Patient)
    requires IsNormalRow(p)
    ensures Text.Trim(Initial(EditMode(p)).name) == p.name
    ensures Text.Trim(Initial(EditMode(p)).phone) == p.phone
  {
    Text.TrimOfTrimmed(p.name);
    Text.TrimOfTrimmed(p.phone);
  }

  /** A new appointment with a blank time and a blank email stores both as
      absent (not ""), and reopening it for edit shows both inputs empty. */
  lemma BlankOptionalsStayAbsent(day: string, f: Fields, id: string, now: string)
    requires Text.IsBlank(f.email) && Text.IsBlank(f.operationTime)
    ensures var row := PatientsRepo.CreatedRow(BuildPayload(CreateMode(day), f).create, id, now);
            && row.email.None? && row.operationTime.None?
            && Initial(EditMode(row)).email == "" && Initial(EditMode(row)).operationTime == ""
  {
  }

  class Form {
    const mode: FormMode
    var fields: Fields
    var submitting: bool
    var error: Option<string>

    /** The form opens with the prefill of its mode, idle and without error. */
    constructor (mode: FormMode)
      ensures this.mode == mode && fields == Initial(mode)
      ensures !submitting && error == None
    {
      this.mode := mode;
      fields := Initial(mode);
      submitting := false;
      error := None;
    }

    /** Typing into the inputs, which are disabled while a submit is pending. */
    method SetFields(f: Fields)
      requires !submitting
      modifies this
      ensures fields == f && submitting == old(submitting) && error == old(error)
    {
      fields := f;
    }

    /** `handleSubmit` up to its `await`: the error is cleared; when the gate
        is closed nothing is submitted; otherwise `submitting` is raised and
        the payload of the current inputs is handed to `onSubmit`. */
    method BeginSubmit() returns (payload: Option<Payload>)
      modifies this
      ensures error == None && fields == old(fields)
      ensures payload.Some? <==> CanSubmit(fields, old(submitting))
      ensures payload.Some? ==> payload.value == BuildPayload(mode, fields) && submitting
      ensures payload.None? ==> submitting == old(submitting)
    {
      error := None;
      if !CanSubmit(fields, submitting) {
        return None;
      }
      submitting := true;
      payload := Some(BuildPayload(mode, fields));
    }

    /** `handleSubmit` after `onSubmit` settled (`None` when it resolved): a
        failure shows its message, or the default text when the thrown value
        is not an `Error`; `submitting` is cleared in either case. */
    method FinishSubmit(outcome: Option<Failure>)
      requires submitting
      modifies this
      ensures !submitting && fields == old(fields)
      ensures outcome.None? ==> error == old(error)
      ensures outcome.Some? ==> error == Some(outcome.value.message.GetOr(DefaultError))
    {
      if outcome.Some? {
        error := Some(outcome.value.message.GetOr(DefaultError));
      }
      submitting := false;
    }
  }
}

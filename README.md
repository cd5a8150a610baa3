# Team notes and appointments client: a Dafny model of its client-side logic

The system is a small web client over a hosted table store. It keeps one
free-text note per calendar day and a list of appointments per day. This
project models the sequential logic that sits between the store and the
rendering:

- the **notes page**: a day-keyed cache of messages. A range load builds the
  cache in one step. Selecting a day reads the cache first and falls back to
  a single-day fetch whose result is written back. A save folds the row the
  store returned into the cache. The calendar markers are derived from the
  cache.
- the **note editor**: view and edit modes, a draft, a saving flag, and the
  text shown for a message (`None` = loading, blank = no note).
- the **appointment form**: time normalisation, the submit gate, the create
  and update payloads (trimmed, blank optional fields sent as null), the
  edit-mode prefill, and the submit sequence around `onSubmit`.
- the **appointments page**: the marker set (distinct days of the window),
  the day's list (replaced wholesale), the panel mode, and the fixed
  sequence mutate, refresh day, refresh markers, view mode.
- the **calendar range gate**: day truncation, the inclusive range test, the
  hidden/disabled matchers and the guarded selection.

The two store tables (`daily_notes`, `daily_patients`) are in-memory
tables passed to the pages as parameters (`NotesRepo.Table`,
`PatientsRepo.Table`). They provide the inclusive day-range filter, the
day filter, the upsert keyed on the day, and mutations that return the
stored row. Every store call takes a `fault: Option<Failure>`: `Some` makes
that call throw. Ids and timestamps the store would generate are
parameters too.

Each component state is a class whose fields are the React state
variables. Each effect or handler is one method, run as one atomic step.
Where a handler awaits, the state visible during the await is returned in
a ghost out-parameter (`loadingWhileFetching`, `shownWhileFetching`,
`savingWhileAwaiting`). The note editor's save click is the exception: it
is split into `Click` and `SaveSettled`, so that `NotesPage.Page.ClickMain`
can run the page's `Save` in between, as the await does. An effect runs
only when one of its dependencies changes value. So picking the day that
is already selected runs nothing, and the editor's reset effect runs only
when the message value changes.

Modules: `Wrappers` (Option, Failure, Result), `Text` (`String.prototype.trim`),
`Days` (order of ISO day keys), `Calendar`, `NotePanel`, `NotesRepo`,
`NotesPage`, `PatientsRepo`, `PatientForm`, `PatientsPage`, one file each.

Two behaviours of the code that are easy to assume otherwise:

- The note cache is not confined to the configured window. The notes page's
  calendar has no range gate, and a miss writes back ANY selected day, so
  the cache can hold days outside the window.
- Only appointment mutations are followed by a re-fetch. A note save
  instead patches the one cache key locally with the returned row.

## Model

| member | source | states |
|---|---|---|
| Text.Trim | src/features/patients/components/PatientForm.tsx:21 | `trim` returns a slice of the input with only white space before and after it, leaves no white space at either end, and is empty exactly when the input is blank |
| Text.HeadTailSlice | src/features/patients/components/PatientForm.tsx:21 | dropping a blank head and then a blank tail leaves a slice of the input with only white space around it |
| Text.HeadTailBlank | src/features/patients/components/PatientForm.tsx:21-22 | trimming removes everything exactly when the text is blank |
| Text.TrimOfTrimmed | src/features/patients/components/PatientForm.tsx:66-67 | text without surrounding white space is unchanged by `trim` |
| Text.TrimIdempotent | src/features/patients/components/PatientForm.tsx:68 | `s.trim().trim() == s.trim()` |
| Days.DayLeReflexive | src/features/patients/data/patientsRepo.ts:55-56 | the store's key order puts every key at most itself, so a window's bounds lie in it |
| Days.DayLeAntisymmetric | src/features/notes/data/notesRepo.ts:16-17 | two day keys each at most the other are the same key |
| Days.BetweenSelf | src/features/notes/data/notesRepo.ts:16-17 | the inclusive window from a key to itself holds exactly that key |
| Calendar.StartOfDay | src/features/calendar/NotesCalendar.tsx:14-15 | the result is a midnight, at or before the instant and less than one day before it |
| Calendar.IsInRange | src/features/calendar/NotesCalendar.tsx:30-33 | `isInRange` admits exactly the instants from local midnight of the first bound's day to the end of the last bound's day |
| Calendar.InRangeByDay | src/features/calendar/NotesCalendar.tsx:30-33 | `isInRange` holds iff the day of `d` is between the days of the bounds, both ends inclusive |
| Calendar.SameDaySameVerdict | src/features/calendar/NotesCalendar.tsx:31 | two instants of one calendar day are both in range or both out |
| Calendar.BoundsAdmitWholeDay | src/features/calendar/NotesCalendar.tsx:24-25 | a bound carrying a time of day still admits every instant of its own day |
| Calendar.RangeMatchers | src/features/calendar/NotesCalendar.tsx:27-28 | the hidden and the disabled lists are the same two matchers, before `from` and after `to` |
| Calendar.HiddenIsOutOfRange | src/features/calendar/NotesCalendar.tsx:27-33 | a day is hidden (and disabled) iff it is not in range: the complement of `isInRange` |
| Calendar.Forwarded | src/features/calendar/NotesCalendar.tsx:40-42 | a selection is forwarded, unchanged, iff a date is defined and its day is in range; otherwise nothing is forwarded |
| Calendar.ForwardedIsNeverHidden | src/features/calendar/NotesCalendar.tsx:40-44 | a forwarded date is never a hidden or disabled day |
| NotePanel.ViewText | src/features/notes/components/NotePanel.tsx:14-18 | null shows "Loading...", blank text shows "No note for this day.", anything else shows the message verbatim |
| NotePanel.LoadingIsDistinct | src/features/notes/components/NotePanel.tsx:5-6 | the loading text differs from the text shown for an empty note |
| NotePanel.Panel.constructor | src/features/notes/components/NotePanel.tsx:10-24 | the editor mounts in view mode, not saving, with the draft copied from the message ("" when null) |
| NotePanel.Panel.MainDisabled | src/features/notes/components/NotePanel.tsx:60 | the main button is disabled while saving or while the message is null |
| NotePanel.Panel.ReceiveMessage | src/features/notes/components/NotePanel.tsx:20-24 | when the message value changes the mode returns to view and the draft becomes the message ("" when null); otherwise nothing is reset |
| NotePanel.Panel.EditDraft | src/features/notes/components/NotePanel.tsx:48-54 | typing, possible only in edit mode while not saving, replaces the draft and nothing else |
| NotePanel.Panel.Click | src/features/notes/components/NotePanel.tsx:26-34 | only an enabled button can be clicked; in view mode: switches to edit and requests no save; in edit mode: raises `saving` and requests a save of the trimmed draft |
| NotePanel.Panel.SaveSettled | src/features/notes/components/NotePanel.tsx:34-38 | after the save the mode is view only if it succeeded, and `saving` is false in either case |
| NotePanel.Panel.Cancel | src/features/notes/components/NotePanel.tsx:65-72 | cancel, offered in edit mode while not saving, restores the draft from the message and returns to view |
| NotesRepo.InRange | src/features/notes/data/notesRepo.ts:12-22 | the range query returns exactly the rows whose day lies between the bounds, both inclusive |
| NotesRepo.InRangeUnique | src/features/notes/data/notesRepo.ts:12-22 | a range answer from a table with one row per day has one row per day |
| NotesRepo.FindDay | src/features/notes/data/notesRepo.ts:24-33 | the day query returns a row of that day, or none exactly when no row has that day |
| NotesRepo.FindDayUnique | src/features/notes/data/notesRepo.ts:24-33 | with unique days the row found is the day's only row |
| NotesRepo.OneDayWindow | src/features/notes/data/notesRepo.ts:12-33 | the range query over a one-day window returns exactly the row the day query finds, or nothing |
| NotesRepo.Upserted | src/features/notes/data/notesRepo.ts:35-44 | an upsert keeps one row per day, contains the new row, and keeps every row of another day |
| NotesRepo.ReadAfterUpsert | src/features/notes/data/notesRepo.ts:24-44 | after an upsert, the day query of the saved row's day returns exactly that row, so the saved message reads back |
| NotesRepo.Table.GetRange | src/features/notes/data/notesRepo.ts:12-22 | a failing call throws; otherwise the window's rows |
| NotesRepo.Table.GetByDate | src/features/notes/data/notesRepo.ts:24-33 | a failing call throws; otherwise `maybeSingle` gives the day's only row, or none when the day has no row |
| NotesRepo.Table.Upsert | src/features/notes/data/notesRepo.ts:35-44 | a failing call throws and changes nothing; otherwise the day's row is replaced or added and the stored row is returned |
| NotesPage.CacheKeys | src/features/notes/NotesPage.tsx:51-52 | the map built from the rows has exactly the rows' days as keys |
| NotesPage.LastRowWins | src/features/notes/NotesPage.tsx:51-52 | a day maps to the message of its last row, "" when that message is null, so a later row overwrites an earlier one |
| NotesPage.CacheOf | src/features/notes/NotesPage.tsx:51-52 | the map of the line-52 loop has a key for the day of every row |
| NotesPage.CacheOfUniqueRows | src/features/notes/NotesPage.tsx:51-52 | from rows with one row per day, every row's day maps to that row's message |
| NotesPage.RangeCache | src/features/notes/NotesPage.tsx:46-53 | after a successful range load a day is a key iff the table has a row for it inside the window, mapped to that row's message |
| NotesPage.BuildCache | src/features/notes/NotesPage.tsx:51-52 | the loop builds exactly the map of the rows |
| NotesPage.Markers | src/features/notes/NotesPage.tsx:35-39 | the calendar markers are exactly the cached days whose message is not blank |
| NotesPage.Page.constructor | src/features/notes/NotesPage.tsx:14-19 | the page starts with today selected, an empty cache, `loadingRange` true and the message loading |
| NotesPage.Page.LoadRange | src/features/notes/NotesPage.tsx:42-60 | `loadingRange` is true during the fetch and false after it whether it succeeds or throws; on success the cache is replaced, not merged, by the map of the window's rows |
| NotesPage.Page.Sync | src/features/notes/NotesPage.tsx:63-84 | a cached day is shown and nothing is fetched; on a miss the message is first null, then the fetched message or "" without a row, and the cache gains exactly that key; a failing fetch leaves the message null and the cache unchanged |
| NotesPage.Page.SelectDate | src/features/notes/NotesPage.tsx:21-84 | re-picking the selected day runs nothing; another day is shown from the cache, or fetched: then the fetched message ("" without a row or for a null message) is shown and written back under that key alone; a failing fetch leaves the message loading and the cache as it was; `loadingRange` is untouched |
| NotesPage.Page.Save | src/features/notes/NotesPage.tsx:86-96 | the stored row is the selected day, the submitted message and the stamp; the cache and the shown message take the returned row's day and message (null as ""); every other key, the selected day and `loadingRange` are unchanged; a failing upsert changes nothing |
| NotesPage.Page.ClickMain | src/features/notes/components/NotePanel.tsx:26-39 | only an enabled button can be clicked (not saving, message loaded); a view-mode click only enters edit mode; an edit-mode click saves the trimmed draft through the page while `saving` is true, upserting exactly that row into the store, returns to view only on success, and clears `saving` either way; the selected day and `loadingRange` are unchanged |
| NotesPage.Page.SaveDraft | src/features/notes/components/NotePanel.tsx:32-38 | the edit-mode click: the trimmed draft is saved while `saving` is raised; success upserts the row of the selected day with that text, shows it and returns to view; a throw keeps the editor and changes nothing else; `saving` ends false and `loadingRange` is unchanged |
| NotesPage.ReselectAfterMiss | src/features/notes/NotesPage.tsx:65-84 | from any state whose selected day is not cached, the first run fetches and writes back that day's message, under the same selected day, and the re-run that the cache change triggers is a hit that fetches nothing |
| NotesPage.OpenOnEmptyStore | src/features/notes/NotesPage.tsx:42-84 | mounting over an empty store caches "" for today and shows the empty note in view mode |
| NotesPage.EditAndSave | src/features/notes/components/NotePanel.tsx:26-50 | on an enabled panel, clicking Edit, typing a trimmed text and clicking Save returns the panel to view showing exactly that text, cached for the selected day with other keys kept; the store holds it and a day query reads it back |
| NotesPage.StandupScenario | src/features/notes/NotesPage.tsx:42-95 | with an empty store the selected day shows "No note for this day."; after saving "standup moved" and re-selecting the day it shows exactly that text |
| PatientsRepo.OnDay | src/features/patients/data/patientsRepo.ts:36-48 | the day query returns exactly the rows of that day, each as often as it is in the table |
| PatientsRepo.OnDayUnique | src/features/patients/data/patientsRepo.ts:36-48 | the day's list of a table with unique ids has unique ids |
| PatientsRepo.DaysInRange | src/features/patients/data/patientsRepo.ts:50-60 | the window query returns a day iff it lies between the bounds and some row is on it, duplicates allowed |
| PatientsRepo.WithoutId | src/features/patients/data/patientsRepo.ts:102-105 | a delete keeps exactly the rows with another id |
| PatientsRepo.WithoutIdUnique | src/features/patients/data/patientsRepo.ts:102-105 | a delete keeps the ids unique |
| PatientsRepo.CreatedRow | src/features/patients/data/patientsRepo.ts:62-80 | an inserted row carries the generated id and exactly the payload's fields |
| PatientsRepo.UpdatedRow | src/features/patients/data/patientsRepo.ts:82-100 | an update keeps the id, day and creation time and overwrites every sent field |
| PatientsRepo.FindId | src/features/patients/data/patientsRepo.ts:92 | the row with an id, or none exactly when no row has it |
| PatientsRepo.Table.ListByDay | src/features/patients/data/patientsRepo.ts:36-48 | a failing call throws; otherwise the day's rows |
| PatientsRepo.Table.GetDaysWithAny | src/features/patients/data/patientsRepo.ts:50-60 | a failing call throws; otherwise one day per row of the window |
| PatientsRepo.Table.Create | src/features/patients/data/patientsRepo.ts:62-80 | inserts and returns the row; a fault or a taken id throws and inserts nothing |
| PatientsRepo.Table.Update | src/features/patients/data/patientsRepo.ts:82-100 | overwrites and returns the row of the id; a fault, or no row with that id, throws and changes nothing |
| PatientsRepo.Table.Remove | src/features/patients/data/patientsRepo.ts:102-105 | deletes the row of the id; a fault throws and changes nothing |
| PatientForm.NormalizeTime | src/features/patients/components/PatientForm.tsx:20-24 | null exactly when the trimmed input is empty; a trimmed 5-character input gains ":00"; any other input is returned trimmed |
| PatientForm.OptionalText | src/features/patients/components/PatientForm.tsx:68-70 | null exactly when the input is blank, otherwise the trimmed input |
| PatientForm.CanSubmit | src/features/patients/components/PatientForm.tsx:51-52 | holds iff the trimmed name and phone are both non-empty and no submit is in flight |
| PatientForm.Prefix5 | src/features/patients/components/PatientForm.tsx:37 | `slice(0, 5)`: the first five characters, or the whole of a shorter string |
| PatientForm.Initial | src/features/patients/components/PatientForm.tsx:27-40 | create mode prefills empty inputs; edit mode the row's name and phone, null email and comment as "", and the time as `slice(0, 5)` of a non-empty stored time ("" when null or empty) |
| PatientForm.BuildPayload | src/features/patients/components/PatientForm.tsx:63-82 | trimmed name and phone, blank email and comment as null, the normalised time; the create payload has the form's day and no id, the update payload the row's id and no day |
| PatientForm.TimeRoundTrip | src/features/patients/components/PatientForm.tsx:23-37 | normalising the prefill of a stored "HH:MM:SS" gives "HH:MM:00", so a stored "HH:MM:00" comes back unchanged |
| PatientForm.OptionalRoundTrip | src/features/patients/components/PatientForm.tsx:36-38 | an optional text stored trimmed and non-blank reads back unchanged through prefill and normalisation |
| PatientForm.TrimmedRequiredFields | src/features/patients/components/PatientForm.tsx:34-67 | a stored name and phone without surrounding white space come back unchanged through prefill and trimming |
| PatientForm.EditRoundTrip | src/features/patients/components/PatientForm.tsx:32-82 | a row in the form's own normal form, opened for edit and submitted untouched, passes the gate and sends back exactly its own fields |
| PatientForm.BlankOptionalsStayAbsent | src/features/patients/components/PatientForm.tsx:64-71 | a new appointment with blank time and email stores both as null, and reopening it for edit shows both inputs empty |
| PatientForm.Form.constructor | src/features/patients/components/PatientForm.tsx:42-49 | the form opens with the prefill of its mode, not submitting, without error |
| PatientForm.Form.SetFields | src/features/patients/components/PatientForm.tsx:103-151 | typing, offered only while no submit is pending, changes the inputs and nothing else |
| PatientForm.Form.BeginSubmit | src/features/patients/components/PatientForm.tsx:54-85 | the error is cleared; when the gate is closed nothing is submitted; otherwise `submitting` is raised and the payload of the inputs is handed on |
| PatientForm.Form.FinishSubmit | src/features/patients/components/PatientForm.tsx:86-92 | a throw shows its message, or "Failed to save appointment." for a non-Error; `submitting` is false afterwards in either case |
| PatientsPage.CollectDays | src/features/patients/PatientsPage.tsx:64-65 | the loop's set holds exactly the returned days, duplicates collapsed |
| PatientsPage.MarkersOfRows | src/features/patients/PatientsPage.tsx:59-67 | after a marker refresh a day is marked iff it lies in the window and some row is on it |
| PatientsPage.AfterRemove | src/features/patients/PatientsPage.tsx:120-123 | after removing an id and refreshing, the day's list has no row with that id, and the day is marked iff another row remains on it |
| PatientsPage.Page.constructor | src/features/patients/PatientsPage.tsx:26-37 | the page starts with today selected, both loads pending, no rows, view mode and no markers |
| PatientsPage.Page.ShowsTable | src/features/patients/PatientsPage.tsx:160-190 | the table is shown only in view mode and only once the day has loaded |
| PatientsPage.Page.RefreshDots | src/features/patients/PatientsPage.tsx:59-67 | the marker set becomes exactly the distinct days of the window query; a throw changes nothing |
| PatientsPage.Page.RefreshDay | src/features/patients/PatientsPage.tsx:69-72 | the day's list is replaced wholesale by the fetched list; a throw changes nothing |
| PatientsPage.Page.LoadMarkers | src/features/patients/PatientsPage.tsx:75-87 | `loadingRange` is true during the refresh and false after it, success or throw |
| PatientsPage.Page.LoadDay | src/features/patients/PatientsPage.tsx:90-102 | `loadingDay` is true during the load and false after it; success replaces the list and resets the panel to view |
| PatientsPage.Page.SelectDate | src/features/patients/PatientsPage.tsx:89-102 | re-picking the selected day runs nothing, so `loadingDay` and the list keep their values; another day loads its list, resets the panel to view on success, and ends with `loadingDay` false |
| PatientsPage.Page.OpenCreate | src/features/patients/PatientsPage.tsx:160-181 | from the view panel, the panel switches to the create form and nothing else changes |
| PatientsPage.Page.OpenEdit | src/features/patients/PatientsPage.tsx:184-189 | from a row of the shown table, the panel switches to the edit form of that row and nothing else changes |
| PatientsPage.Page.CancelForm | src/features/patients/PatientsPage.tsx:194-207 | from an open form that is not submitting, the panel returns to view and nothing else changes |
| PatientsPage.Page.RefreshAfterMutation | src/features/patients/PatientsPage.tsx:111-113 | refresh day, then refresh markers, then view mode, in that order; the first throw stops the rest |
| PatientsPage.Page.OnSubmitPatient | src/features/patients/PatientsPage.tsx:104-114 | a payload with an id is an update, one without a create; then the refreshes and view mode; a throwing mutation performs no refresh and no mode change |
| PatientsPage.Page.OnDeletePatient | src/features/patients/PatientsPage.tsx:116-126 | for a row of the shown table: a declined confirmation changes nothing; an accepted one removes, refreshes and returns to view, after which the list lacks the id and the day is marked iff a row remains |
| PatientsPage.Page.SubmitForm | src/features/patients/PatientsPage.tsx:194-207 | the form is the create form of the selected day or the edit form of the row being edited; a closed gate sends nothing and changes nothing; otherwise a create lands on the selected day, an update targets the edited row, and the stored row, the table, the list, the markers and the panel mode are those of the page's submit; the form shows a throw's error and clears `submitting` |
| PatientsPage.OpenOnEmptyStore | src/features/patients/PatientsPage.tsx:75-102 | mounting over an empty store marks no day and shows the selected day's table with no appointments |

## Left out

- Rendering: JSX, styles, the calendar widget, the appointment table's formatting, the button component and the three-way routing of the app root.
- Authentication (session lookup, the subscription to session changes, sign-in and sign-out): lifecycle and calls into the hosted service.
- Concurrency: races between the range fetch and a direct day fetch, last-write-wins on a cache key, and requests that outlive their component. Each effect and handler is one atomic step.
- The React runtime re-running an effect when its dependencies change is not automatic in the model: `NotesPage.Page.ClickMain` and the scenario methods run the re-triggered effects explicitly.
- Real dates: `new Date()`, the ±60/90-day window arithmetic, time zones and daylight-saving days, and the conversion of a date to its ISO key. Instants are local milliseconds and the window bounds are ISO keys given to the page constructors.
- The store's ordering of a day's appointments (time ascending with nulls last, then creation time) and of the notes range (by day): `PatientsRepo.Table.ListByDay` and `NotesRepo.Table.GetRange` return rows in table order. The note cache does not depend on the order, because the table has one row per day.
- The store's own normalisation of stored values: the in-memory tables store what they are sent. `NotesPage.Page.Save` still takes its state from the returned row.
- The store's comparison of `date` values: day keys are compared lexicographically, which agrees with calendar order for well-formed "YYYY-MM-DD" keys.
- Whether the store's thrown errors are `Error` instances: a parameter of each `Failure`. The messages of the two errors the model raises itself (update of a missing id, insert of a taken id) are stand-ins.
- String length: JavaScript counts UTF-16 code units and Dafny counts characters, which differ outside the Basic Multilingual Plane. This affects the 5-character test of `normalizeTime` (`PatientForm.NormalizeTime`) and the `slice(0, 5)` of the edit prefill (`PatientForm.Prefix5`, `PatientForm.Initial`).
- `Text.IsSpace` lists the ECMAScript white space and line terminators of current Unicode; later additions to the space-separator category are not tracked.
- The login page and the configuration files.
- The notes page's own calendar component only drops undefined dates and has no range gate, so the notes page forwards any picked day; `Calendar` models the range-gated calendar of the appointments page.

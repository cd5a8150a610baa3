/** The notes page (src/features/notes/NotesPage.tsx): a day-keyed cache of
    note messages, loaded for a fixed window, read first when a day is
    selected, and written back after a direct fetch or a save. */
module NotesPage {
  import opened Wrappers
  import Text
  import Days
  import NotesRepo
  import NotePanel

  type DailyNote = NotesRepo.DailyNote

  /** The map the range load builds from `rows`: `map.set(day, message ?? "")`
      for each row in turn, so a later row of a day overwrites an earlier one. */
  function CacheOf(rows: seq<DailyNote>): (m: map<string, string>)
    ensures forall i :: 0 <= i < |rows| ==> rows[i].dayDate in m
  {
    if rows == [] then map[]
    else
      var last := rows[|rows| - 1];
      CacheOf(rows[..|rows| - 1])[last.dayDate := NotesRepo.MessageText(last)]
  }

  /** The keys of the map are exactly the days of the rows. */
  lemma {:induction false} CacheKeys(rows: seq<DailyNote>, d: string)
    ensures d in CacheOf(rows) <==> exists i :: 0 <= i < |rows| && rows[i].dayDate == d
  {
    if rows != [] {
      var init := rows[..|rows| - 1];
      CacheKeys(init, d);
      if d in CacheOf(init) {
        var i :| 0 <= i < |init| && init[i].dayDate == d;
        assert rows[i].dayDate == d;
      }
      if exists i :: 0 <= i < |rows| && rows[i].dayDate == d {
        var i :| 0 <= i < |rows| && rows[i].dayDate == d;
        if i < |init| { assert init[i].dayDate == d; }
      }
    }
  }

  /** A day maps to the message of its LAST row (a null message read as ""). */
  lemma {:induction false} LastRowWins(rows: seq<DailyNote>, i: int)
    requires 0 <= i < |rows|
    requires forall j :: i < j < |rows| ==> rows[j].dayDate != rows[i].dayDate
    ensures rows[i].dayDate in CacheOf(rows)
    ensures CacheOf(rows)[rows[i].dayDate] == NotesRepo.MessageText(rows[i])
  {
    var init := rows[..|rows| - 1];
    if i < |rows| - 1 {
      assert forall j :: i < j < |init| ==> init[j] == rows[j];
      LastRowWins(init, i);
      assert init[i] == rows[i];
    }
  }

  /** From a table with one row per day, every row's day maps to that row's text. */
  lemma CacheOfUniqueRows(rows: seq<DailyNote>, n: DailyNote)
    requires NotesRepo.UniqueDays(rows) && n in rows
    ensures n.dayDate in CacheOf(rows) && CacheOf(rows)[n.dayDate] == NotesRepo.MessageText(n)
  {
    var i :| 0 <= i < |rows| && rows[i] == n;
    LastRowWins(rows, i);
  }

  /** After a successful range load the cache holds exactly the days of the
      window that have a row, each with its row's message ("" for null). */
  lemma RangeCache(rows: seq<DailyNote>, from: string, to: string, d: string)
    requires NotesRepo.UniqueDays(rows)
    ensures var m := CacheOf(NotesRepo.InRange(rows, from, to));
            && (d in m <==> exists n :: n in rows && n.dayDate == d && Days.Between(from, d, to))
            && (d in m ==> exists n :: n in rows && n.dayDate == d && m[d] == NotesRepo.MessageText(n))
  {
    var r := NotesRepo.InRange(rows, from, to);
    NotesRepo.InRangeUnique(rows, from, to);
    CacheKeys(r, d);
    if d in CacheOf(r) {
      var i :| 0 <= i < |r| && r[i].dayDate == d;
      CacheOfUniqueRows(r, r[i]);
    }
    if exists n :: n in rows && n.dayDate == d && Days.Between(from, d, to) {
      var n :| n in rows && n.dayDate == d && Days.Between(from, d, to);
      CacheOfUniqueRows(r, n);
    }
  }

  /** The loop of the range load: builds the cache from the rows one by one. */
  method BuildCache(rows: seq<DailyNote>) returns (m: map<string, string>)
    ensures m == CacheOf(rows)
  {
    m := map[];
    for i := 0 to |rows|
      invariant m == CacheOf(rows[..i])
    {
      assert rows[..i + 1][..i] == rows[..i];
      m := m[rows[i].dayDate := NotesRepo.MessageText(rows[i])];
    }
    assert rows[..|rows|] == rows;
  }

  /** The text the selection effect shows after fetching `day`: the row's
      message, or "" when there is no row or its message is null. */
  function FetchedText(rows: seq<DailyNote>, day: string): string {
    match NotesRepo.FindDay(rows, day)
    case None => ""
    case Some(n) => NotesRepo.MessageText(n)
  }

  /** `hasNoteDates`: the cached days whose message is not blank. */
  function Markers(cache: map<string, string>): (r: set<string>)
    ensures forall d :: d in r <==> d in cache && !Text.IsBlank(cache[d])
  {
    set d | d in cache && |Text.Trim(cache[d])| > 0
  }

  class Page {
    const rangeFrom: string
    const rangeTo: string
    var selectedIso: string
    var notesByDate: map<string, string>
    var loadingRange: bool
    var selectedMessage: Option<string>

    /** The initial state: today selected, empty cache, loading, no message yet. */
    constructor (today: string, rangeFrom: string, rangeTo: string)
      ensures this.rangeFrom == rangeFrom && this.rangeTo == rangeTo
      ensures selectedIso == today && notesByDate == map[]
      ensures loadingRange && selectedMessage == None
    {
      this.rangeFrom := rangeFrom;
      this.rangeTo := rangeTo;
      selectedIso := today;
      notesByDate := map[];
      loadingRange := true;
      selectedMessage := None;
    }

    /** The range-load effect. `loadingRange` is raised while the fetch is
        awaited and cleared afterwards whether the fetch resolved or threw;
        on success the cache is REPLACED by the map built from the rows. */
    method LoadRange(db: NotesRepo.Table, fault: Option<Failure>) returns (ghost loadingWhileFetching: bool)
      modifies this
      ensures loadingWhileFetching && !loadingRange
      ensures fault.None? ==> notesByDate == CacheOf(NotesRepo.InRange(db.rows, rangeFrom, rangeTo))
      ensures fault.Some? ==> notesByDate == old(notesByDate)
      ensures selectedIso == old(selectedIso) && selectedMessage == old(selectedMessage)
    {
      loadingRange := true;
      loadingWhileFetching := loadingRange;
      var rows := db.GetRange(rangeFrom, rangeTo, fault);
      if rows.Ok? {
        var m := BuildCache(rows.value);
        notesByDate := m;
      }
      loadingRange := false;
    }

    /** The selection effect for `selectedIso`. A cached day is shown at
        once and nothing is fetched. Otherwise the message goes to `None`
        (loading), the day is fetched, and the message ("" when the day has
        no row) is shown and written back under that one key. A failing
        fetch leaves the message loading and the cache as it was. */
    method Sync(db: NotesRepo.Table, fault: Option<Failure>) returns (fetched: bool, ghost shownWhileFetching: Option<string>)
      requires db.Valid()
      modifies this
      ensures fetched <==> selectedIso !in old(notesByDate)
      ensures !fetched ==> selectedMessage == Some(old(notesByDate)[selectedIso]) && notesByDate == old(notesByDate)
      ensures fetched ==> shownWhileFetching == None
      ensures fetched && fault.None? ==>
                var text := FetchedText(db.rows, selectedIso);
                selectedMessage == Some(text) && notesByDate == old(notesByDate)[selectedIso := text]
      ensures fetched && fault.Some? ==> selectedMessage == None && notesByDate == old(notesByDate)
      ensures selectedIso == old(selectedIso) && loadingRange == old(loadingRange)
    {
      shownWhileFetching := selectedMessage;
      if selectedIso in notesByDate {
        selectedMessage := Some(notesByDate[selectedIso]);
        return false, shownWhileFetching;
      }
      fetched := true;
      selectedMessage := None;
      shownWhileFetching := selectedMessage;
      var row := db.GetByDate(selectedIso, fault);
      if row.Err? {
        return;
      }
      var message := if row.value.Some? then row.value.value.message.GetOr("") else "";
      selectedMessage := Some(message);
      notesByDate := notesByDate[selectedIso := message];
    }

    /** Picking a day on the calendar. The effect depends on the ISO key, so
        picking the day already selected runs nothing. */
    method SelectDate(day: string, db: NotesRepo.Table, fault: Option<Failure>) returns (fetched: bool)
      requires db.Valid()
      modifies this
      ensures selectedIso == day && loadingRange == old(loadingRange)
      ensures day == old(selectedIso) ==> !fetched && notesByDate == old(notesByDate) && selectedMessage == old(selectedMessage)
      ensures day != old(selectedIso) ==> (fetched <==> day !in old(notesByDate))
      ensures day != old(selectedIso) && !fetched ==> selectedMessage == Some(old(notesByDate)[day]) && notesByDate == old(notesByDate)
      ensures day != old(selectedIso) && fetched && fault.None? ==>
                var text := FetchedText(db.rows, day);
                selectedMessage == Some(text) && notesByDate == old(notesByDate)[day := text]
      ensures day != old(selectedIso) && fetched && fault.Some? ==> selectedMessage == None && notesByDate == old(notesByDate)
    {
      if day == selectedIso {
        return false;
      }
      selectedIso := day;
      ghost var shown;
      fetched, shown := Sync(db, fault);
    }

    /** `onSave`: upserts the selected day and folds the ROW THE STORE
        RETURNED (null message read as "") into the cache and the shown
        message, leaving every other key alone. A failing upsert throws and
        changes nothing. */
    method Save(newMessage: string, db: NotesRepo.Table, now: string, fault: Option<Failure>) returns (r: Result<DailyNote>)
      requires db.Valid()
      modifies this, db
      ensures db.Valid()
      ensures fault.Some? ==> r == Err(fault.value) && notesByDate == old(notesByDate) && selectedMessage == old(selectedMessage) && db.rows == old(db.rows)
      ensures fault.None? ==> r == Ok(NotesRepo.DailyNote(selectedIso, Some(newMessage), now))
      ensures fault.None? ==> db.rows == NotesRepo.Upserted(old(db.rows), r.value)
      ensures r.Ok? ==> notesByDate == old(notesByDate)[r.value.dayDate := NotesRepo.MessageText(r.value)]
      ensures r.Ok? ==> selectedMessage == Some(NotesRepo.MessageText(r.value))
      ensures r.Ok? ==> r.value.dayDate == selectedIso && r.value.message == Some(newMessage)
      ensures selectedIso == old(selectedIso) && loadingRange == old(loadingRange)
    {
      r := db.Upsert(selectedIso, newMessage, now, fault);
      if r.Err? {
        return;
      }
      var saved := r.value;
      notesByDate := notesByDate[saved.dayDate := NotesRepo.MessageText(saved)];
      selectedMessage := Some(NotesRepo.MessageText(saved));
    }

    /** A click on the panel's main button, the panel's `onSave` being this
        page's `Save`. In view mode: edit mode, and nothing is saved. In edit
        mode: the trimmed draft is saved while `saving` is raised; the new
        message reaches the panel (resetting its draft when it changed); the
        cache-backed selection effect re-runs; the panel returns to view
        mode only when the save succeeded, and `saving` is cleared in
        either case. */
    method ClickMain(panel: NotePanel.Panel, db: NotesRepo.Table, now: string, fault: Option<Failure>)
      returns (saved: Option<Result<DailyNote>>, ghost savingWhileAwaiting: bool)
      requires db.Valid() && panel.message == selectedMessage && !panel.MainDisabled()
      modifies this, panel, db
      ensures db.Valid() && panel.message == selectedMessage
      ensures old(panel.mode) == NotePanel.View ==>
                saved == None && panel.mode == NotePanel.Edit && panel.draft == old(panel.draft) && !panel.saving
                && db.rows == old(db.rows) && notesByDate == old(notesByDate) && selectedMessage == old(selectedMessage)
      ensures old(panel.mode) == NotePanel.Edit ==> saved.Some? && savingWhileAwaiting && !panel.saving
      ensures old(panel.mode) == NotePanel.Edit && fault.Some? ==>
                saved == Some(Err(fault.value)) && panel.mode == NotePanel.Edit && panel.draft == old(panel.draft)
                && db.rows == old(db.rows) && notesByDate == old(notesByDate) && selectedMessage == old(selectedMessage)
      ensures old(panel.mode) == NotePanel.Edit && fault.None? ==>
                var text := Text.Trim(old(panel.draft));
                && saved.value == Ok(NotesRepo.DailyNote(selectedIso, Some(text), now))
                && db.rows == NotesRepo.Upserted(old(db.rows), saved.value.value)
                && panel.mode == NotePanel.View
                && selectedMessage == Some(text) && notesByDate == old(notesByDate)[selectedIso := text]
                && panel.draft == (if selectedMessage != old(selectedMessage) then text else old(panel.draft))
      ensures selectedIso == old(selectedIso) && loadingRange == old(loadingRange)
    {
      if panel.mode == NotePanel.View {
        var request := panel.Click();
        return None, false;
      }
      var r;
      r, savingWhileAwaiting := SaveDraft(panel, db, now, fault);
      saved := Some(r);
    }

    /** The edit-mode click: `onClick` from `setSaving(true)` to its
        `finally`, with this page's `Save` as the awaited `onSave`. */
    method SaveDraft(panel: NotePanel.Panel, db: NotesRepo.Table, now: string, fault: Option<Failure>)
      returns (saved: Result<DailyNote>, ghost savingWhileAwaiting: bool)
      requires db.Valid() && panel.message == selectedMessage && panel.mode == NotePanel.Edit && !panel.MainDisabled()
      modifies this, panel, db
      ensures db.Valid() && panel.message == selectedMessage
      ensures savingWhileAwaiting && !panel.saving
      ensures fault.Some? ==>
                saved == Err(fault.value) && panel.mode == NotePanel.Edit && panel.draft == old(panel.draft)
                && db.rows == old(db.rows) && notesByDate == old(notesByDate) && selectedMessage == old(selectedMessage)
      ensures fault.None? ==>
                var text := Text.Trim(old(panel.draft));
                && saved == Ok(NotesRepo.DailyNote(selectedIso, Some(text), now))
                && db.rows == NotesRepo.Upserted(old(db.rows), saved.value)
                && panel.mode == NotePanel.View
                && selectedMessage == Some(text) && notesByDate == old(notesByDate)[selectedIso := text]
                && panel.draft == (if selectedMessage != old(selectedMessage) then text else old(panel.draft))
      ensures selectedIso == old(selectedIso) && loadingRange == old(loadingRange)
    {
      var request := panel.Click();
      savingWhileAwaiting := panel.saving;
      saved := Save(request.value, db, now, fault);
      if saved.Ok? {
        // the cache changed, so the selection effect runs again: a hit
        assert selectedIso in notesByDate;
        ghost var shown;
        var refetched;
        refetched, shown := Sync(db, None);
      }
      panel.ReceiveMessage(selectedMessage);
      panel.SaveSettled(saved.Ok?);
    }
  }

  /** A day fetched on a miss is written back, so when the effect runs again
      for it (the cache changed) it is a hit and nothing is fetched twice. */
  method ReselectAfterMiss(page: Page, db: NotesRepo.Table) returns (first: bool, second: bool)
    requires db.Valid() && page.selectedIso !in page.notesByDate
    modifies page
    ensures first && !second
    ensures page.selectedIso == old(page.selectedIso) && page.loadingRange == old(page.loadingRange)
    ensures page.selectedMessage == Some(FetchedText(db.rows, old(page.selectedIso)))
    ensures page.notesByDate == old(page.notesByDate)[old(page.selectedIso) := FetchedText(db.rows, old(page.selectedIso))]
  {
    ghost var pending;
    first, pending := page.Sync(db, None);
    second, pending := page.Sync(db, None);
  }

  /** Mounting both components over an empty store: the range load finds
      nothing, the selection effect misses, fetches no row and caches "". */
  method OpenOnEmptyStore(today: string, from: string, to: string)
    returns (db: NotesRepo.Table, page: Page, panel: NotePanel.Panel)
    ensures fresh(db) && fresh(page) && fresh(panel)
    ensures db.Valid() && db.rows == []
    ensures page.selectedIso == today && page.notesByDate == map[today := ""]
    ensures page.selectedMessage == Some("") && panel.message == page.selectedMessage
    ensures panel.mode == NotePanel.View && !panel.saving
  {
    db := new NotesRepo.Table([]);
    page := new Page(today, from, to);
    panel := new NotePanel.Panel(page.selectedMessage);
    ghost var loading := page.LoadRange(db, None);
    assert page.notesByDate == map[];
    var fetched;
    ghost var pending;
    fetched, pending := page.Sync(db, None);
    panel.ReceiveMessage(page.selectedMessage);
  }

  /** Two clicks of the main button with `text` typed in between: the first
      opens the editor, the second saves. */
  method EditAndSave(page: Page, panel: NotePanel.Panel, db: NotesRepo.Table, text: string)
    requires db.Valid() && panel.message == page.selectedMessage && panel.mode == NotePanel.View
    requires !panel.MainDisabled() && Text.IsTrimmed(text)
    modifies page, panel, db
    ensures db.Valid() && panel.message == page.selectedMessage
    ensures page.selectedIso == old(page.selectedIso) && page.loadingRange == old(page.loadingRange)
    ensures panel.mode == NotePanel.View && !panel.saving
    ensures page.selectedMessage == Some(text)
    ensures page.notesByDate == old(page.notesByDate)[page.selectedIso := text]
    ensures db.rows == NotesRepo.Upserted(old(db.rows), NotesRepo.DailyNote(page.selectedIso, Some(text), "t2"))
    ensures NotesRepo.FindDay(db.rows, page.selectedIso) == Some(NotesRepo.DailyNote(page.selectedIso, Some(text), "t2"))
  {
    var saved;
    ghost var saving;
    saved, saving := page.ClickMain(panel, db, "t1", None);
    panel.EditDraft(text);
    Text.TrimOfTrimmed(text);
    saved, saving := page.ClickMain(panel, db, "t2", None);
    NotesRepo.ReadAfterUpsert(old(db.rows), saved.value.value);
  }

  /** The end-to-end scenario of an empty store: the selected day shows
      "No note for this day."; saving "standup moved" from the panel,
      moving to the next day and back shows exactly that text. */
  method StandupScenario() returns (before: string, after: string)
    ensures before == NotePanel.NoNoteText
    ensures after == "standup moved"
  {
    var today, tomorrow := "2026-10-14", "2026-10-15";
    var db, page, panel := OpenOnEmptyStore(today, "2026-08-15", "2027-01-12");
    before := NotePanel.ViewText(panel.message);
    var text := "standup moved";
    assert Text.IsTrimmed(text);
    EditAndSave(page, panel, db, text);
    assert today != tomorrow by {
      assert today[9] != tomorrow[9];
    }
    var fetched := page.SelectDate(tomorrow, db, None);
    fetched := page.SelectDate(today, db, None);
    panel.ReceiveMessage(page.selectedMessage);
    assert !Text.IsBlank(text) by {
      assert !Text.IsSpace(text[0]);
    }
    after := NotePanel.ViewText(panel.message);
  }
}

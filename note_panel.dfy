/** The note editor of one day (src/features/notes/components/NotePanel.tsx).
    `message` is the prop the page passes in: `None` while the day's note
    is loading, `Some("")` when the day has no note yet. */
module NotePanel {
  import opened Wrappers
  import Text

  datatype Mode = View | Edit

  const LoadingText: string := "Loading..."
  const NoNoteText: string := "No note for this day."

  /** What view mode shows for `message`: a loading sentinel, a "no note"
      line for blank text, and the message itself, untrimmed, otherwise. */
  function ViewText(message: Option<string>): (r: string)
    ensures message.None? ==> r == LoadingText
    ensures message.Some? && Text.IsBlank(message.value) ==> r == NoNoteText
    ensures message.Some? && !Text.IsBlank(message.value) ==> r == message.value
  {
    if message.None? then LoadingText
    else if |Text.Trim(message.value)| == 0 then NoNoteText
    else message.value
  }

  /** Loading is never confused with an empty note, whatever the note says. */
  lemma LoadingIsDistinct(m: string)
    requires Text.IsBlank(m)
    ensures ViewText(None) != ViewText(Some(m))
  {
    assert LoadingText[0] != NoNoteText[0];
  }

  class Panel {
    var message: Option<string>
    var mode: Mode
    var draft: string
    var saving: bool

    /** Mounting: view mode, not saving, and the reset effect has copied the
        message (or "") into the draft. */
    constructor (message: Option<string>)
      ensures this.message == message
      ensures mode == View && draft == message.GetOr("") && !saving
    {
      this.message := message;
      mode := View;
      draft := message.GetOr("");
      saving := false;
    }

    /** The main button is disabled while saving and while the note is loading. */
    predicate MainDisabled()
      reads this
    {
      saving || message.None?
    }

    /** The parent re-renders with the prop `m`. The reset effect runs only
        when the value changed: then the editor returns to view mode and the
        draft is the new message, or "" while loading. */
    method ReceiveMessage(m: Option<string>)
      modifies this
      ensures message == m && saving == old(saving)
      ensures m != old(message) ==> mode == View && draft == m.GetOr("")
      ensures m == old(message) ==> mode == old(mode) && draft == old(draft)
    {
      if m != message {
        mode := View;
        draft := m.GetOr("");
      }
      message := m;
    }

    /** Typing into the textarea, which is shown in edit mode and disabled
        while saving. */
    method EditDraft(text: string)
      requires mode == Edit && !saving
      modifies this
      ensures draft == text
      ensures mode == old(mode) && saving == old(saving) && message == old(message)
    {
      draft := text;
    }

    /** `onClick` up to its `await`. In view mode it switches to edit and
        asks for nothing to be saved; in edit mode it raises `saving` and
        returns the text handed to `onSave`: the trimmed draft. The button
        cannot be clicked while it is disabled. */
    method Click() returns (request: Option<string>)
      requires !MainDisabled()
      modifies this
      ensures message == old(message) && draft == old(draft)
      ensures old(mode) == View ==> request == None && mode == Edit && saving == old(saving)
      ensures old(mode) == Edit ==> request == Some(Text.Trim(draft)) && mode == Edit && saving
    {
      if mode == View {
        mode := Edit;
        request := None;
        return;
      }
      saving := true;
      request := Some(Text.Trim(draft));
    }

    /** `onClick` after `onSave` settled (`ok` when it resolved): back to view
        mode only on success, and `saving` is cleared in either case. */
    method SaveSettled(ok: bool)
      modifies this
      ensures !saving
      ensures mode == (if ok then View else old(mode))
      ensures message == old(message) && draft == old(draft)
    {
      if ok {
        mode := View;
      }
      saving := false;
    }

    /** The Cancel button: the draft is restored from the message and the
        editor returns to view mode. The button is shown in edit mode and
        disabled while saving. */
    method Cancel()
      requires mode == Edit && !saving
      modifies this
      ensures mode == View && draft == message.GetOr("")
      ensures message == old(message) && saving == old(saving)
    {
      mode := View;
      draft := message.GetOr("");
    }
  }
}

/** The notes form's two event handlers, as transitions on the form's text
    buffer that may dispatch one action to the notes store. Rendering is
    outside the model. */
module NotesComponent {
  import opened Wrappers
  import opened Strings
  import opened NotesSlice

  /** The buffer after the event and the action dispatched, if any. */
  datatype Submission = Submission(noteText: string, dispatched: Option<NotesAction>)

  /** Submitting the form: text that trims to nothing is ignored and stays
      in the buffer; other text is dispatched trimmed and the buffer is
      cleared. */
  function HandleSubmit(bookKey: string, noteText: string): (r: Submission)
    ensures AllSpace(noteText) ==> r == Submission(noteText, None)
    ensures !AllSpace(noteText) ==>
      && r.noteText == ""
      && r.dispatched.Some?
      && r.dispatched.value == AddNote(bookKey, Trim(noteText))
  {
    var trimmed := Trim(noteText);
    if trimmed != "" then Submission("", Some(AddNote(bookKey, trimmed)))
    else Submission(noteText, None)
  }

  /** Clicking a note's delete button asks the store to delete that
      position of the same book. */
  function HandleDelete(bookKey: string, noteIndex: int): (a: NotesAction)
    ensures a.DeleteNote? && a.bookKey == bookKey && a.noteIndex == noteIndex
  {
    DeleteNote(bookKey, noteIndex)
  }

  /** The store after an optional dispatch. */
  function Dispatch(state: NotesState, action: Option<NotesAction>, now: string): (r: NotesState)
    ensures action.None? ==> r == state
  {
    match action
    case None => state
    case Some(a) => Reduce(state, a, now)
  }

  /** A note text as the form produces it: non-empty, with no whitespace at
      either end. */
  predicate CleanText(text: string) {
    text != "" && Trimmed(text)
  }

  /** Every stored note is clean. */
  ghost predicate AllNotesClean(state: NotesState) {
    forall k, i :: k in state.notesByBook && 0 <= i < |state.notesByBook[k]| ==>
      CleanText(state.notesByBook[k][i].text)
  }

  /** A successful submission dispatches text the buffer held with only
      its ends stripped: interior characters, line breaks included, are
      kept. */
  lemma SubmitKeepsInterior(bookKey: string, noteText: string)
    requires HandleSubmit(bookKey, noteText).dispatched.Some?
    ensures var text := HandleSubmit(bookKey, noteText).dispatched.value.text;
            CleanText(text) && exists i :: StripsEndsOf(text, noteText, i)
  {
  }

  lemma InitialNotesClean()
    ensures AllNotesClean(InitialNotes)
  {
  }

  /** Adding clean text to a clean store keeps it clean. */
  lemma AddCleanKeepsClean(state: NotesState, bookKey: string, text: string, now: string)
    requires AllNotesClean(state)
    requires CleanText(text)
    ensures AllNotesClean(AddNoteTo(state, bookKey, text, now))
  {
  }

  /** Deleting never makes a clean store unclean. */
  lemma DeleteKeepsClean(state: NotesState, bookKey: string, noteIndex: int)
    requires AllNotesClean(state)
    ensures AllNotesClean(DeleteNoteFrom(state, bookKey, noteIndex))
  {
  }

  /** Notes are never blank: as long as the store is only changed through
      the form's handlers, every stored note stays clean. */
  lemma HandlersKeepNotesClean(
    state: NotesState, bookKey: string, noteText: string, noteIndex: int, now: string)
    requires AllNotesClean(state)
    ensures AllNotesClean(Dispatch(state, HandleSubmit(bookKey, noteText).dispatched, now))
    ensures AllNotesClean(Dispatch(state, Some(HandleDelete(bookKey, noteIndex)), now))
  {
    if HandleSubmit(bookKey, noteText).dispatched.Some? {
      AddCleanKeepsClean(state, bookKey, Trim(noteText), now);
    }
    DeleteKeepsClean(state, bookKey, noteIndex);
  }
}

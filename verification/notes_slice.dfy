/** The notes store: for each book key, the notes written about that book
    in creation order, and the two reducers that change it. */
module NotesSlice {
  import opened JsArray

  /** `dateCreated` is an ISO-8601 timestamp taken from the clock when the
      note is added; the model receives it as an opaque string. */
  datatype Note = Note(text: string, dateCreated: string)

  datatype NotesState = NotesState(notesByBook: map<string, seq<Note>>)

  /** No book has any notes yet. */
  const InitialNotes: NotesState := NotesState(map[])

  /** The actions the two reducers handle. */
  datatype NotesAction =
    | AddNote(bookKey: string, text: string)
    | DeleteNote(bookKey: string, noteIndex: int)

  /** Appends a note with the given text, verbatim, and timestamp to the
      book's list, creating the list when the book has none. */
  function AddNoteTo(state: NotesState, bookKey: string, text: string, now: string): (r: NotesState)
    ensures r.notesByBook.Keys == state.notesByBook.Keys + {bookKey}
    ensures bookKey !in state.notesByBook ==> r.notesByBook[bookKey] == [Note(text, now)]
    ensures bookKey in state.notesByBook ==>
      && |r.notesByBook[bookKey]| == |state.notesByBook[bookKey]| + 1
      && r.notesByBook[bookKey][..|state.notesByBook[bookKey]|] == state.notesByBook[bookKey]
      && r.notesByBook[bookKey][|state.notesByBook[bookKey]|] == Note(text, now)
    ensures forall k :: k in state.notesByBook && k != bookKey ==>
      r.notesByBook[k] == state.notesByBook[k]
  {
    var m := state.notesByBook;
    var prior := if bookKey in m then m[bookKey] else [];
    assert (prior + [Note(text, now)])[..|prior|] == prior;
    NotesState(m[bookKey := prior + [Note(text, now)]])
  }

  /** Removes the note at `noteIndex` from the book's list with JavaScript
      `splice(noteIndex, 1)`: later notes move up one place, an index past
      the end removes nothing, a negative one counts from the end. A book
      without a list is left without one. */
  function DeleteNoteFrom(state: NotesState, bookKey: string, noteIndex: int): (r: NotesState)
    ensures r.notesByBook.Keys == state.notesByBook.Keys
    ensures bookKey !in state.notesByBook ==> r == state
    ensures bookKey in state.notesByBook && 0 <= noteIndex < |state.notesByBook[bookKey]| ==>
      r.notesByBook[bookKey]
        == state.notesByBook[bookKey][..noteIndex] + state.notesByBook[bookKey][noteIndex + 1..]
    ensures bookKey in state.notesByBook && noteIndex >= |state.notesByBook[bookKey]| ==> r == state
    ensures forall k :: k in state.notesByBook && k != bookKey ==>
      r.notesByBook[k] == state.notesByBook[k]
  {
    var m := state.notesByBook;
    if bookKey in m then
      assert noteIndex >= |m[bookKey]| ==> m[bookKey := m[bookKey]] == m;
      NotesState(m[bookKey := SpliceOne(m[bookKey], noteIndex)])
    else state
  }

  /** The notes reducer; `now` stands for the clock read by `addNote`. */
  function Reduce(state: NotesState, action: NotesAction, now: string): (r: NotesState)
    ensures forall k :: k in state.notesByBook && k != action.bookKey ==>
      k in r.notesByBook && r.notesByBook[k] == state.notesByBook[k]
    ensures action.DeleteNote? ==> r.notesByBook.Keys == state.notesByBook.Keys
  {
    match action
    case AddNote(bookKey, text) => AddNoteTo(state, bookKey, text, now)
    case DeleteNote(bookKey, noteIndex) => DeleteNoteFrom(state, bookKey, noteIndex)
  }

  /** Deleting a valid position removes exactly that note and keeps the
      others in their order. */
  lemma DeleteRemovesExactlyOne(state: NotesState, bookKey: string, noteIndex: int)
    requires bookKey in state.notesByBook
    requires 0 <= noteIndex < |state.notesByBook[bookKey]|
    ensures var before := state.notesByBook[bookKey];
            var after := DeleteNoteFrom(state, bookKey, noteIndex).notesByBook[bookKey];
            && |after| == |before| - 1
            && multiset(after) + multiset{before[noteIndex]} == multiset(before)
            && (forall i :: 0 <= i < noteIndex ==> after[i] == before[i])
            && (forall i :: noteIndex <= i < |after| ==> after[i] == before[i + 1])
  {
    SpliceOneRemovesOne(state.notesByBook[bookKey], noteIndex);
  }

  /** For every state, book and text, adding a note stores the text
      exactly as given (blank or padded text included) as the book's last
      note, stamped with the supplied time. */
  lemma ReducerStoresTextVerbatim(state: NotesState, bookKey: string, text: string, now: string)
    ensures var r := Reduce(state, AddNote(bookKey, text), now);
      && bookKey in r.notesByBook
      && |r.notesByBook[bookKey]| > 0
      && r.notesByBook[bookKey][|r.notesByBook[bookKey]| - 1] == Note(text, now)
  {
  }
}

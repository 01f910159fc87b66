/** Reading one book's notes out of the store. */
module NotesSelectors {
  import opened NotesSlice

  /** The book's notes, or the empty list when the book has none stored. */
  function SelectNotesByBookKey(state: NotesState, bookKey: string): (notes: seq<Note>)
    ensures bookKey !in state.notesByBook ==> notes == []
    ensures bookKey in state.notesByBook ==> notes == state.notesByBook[bookKey]
  {
    if bookKey in state.notesByBook then state.notesByBook[bookKey] else []
  }

  /** The result depends on the book's own entry only: stores that agree
      on that entry give the same answer, whatever other books hold. */
  lemma SelectorReadsOnlyItsKey(s1: NotesState, s2: NotesState, bookKey: string)
    requires bookKey in s1.notesByBook <==> bookKey in s2.notesByBook
    requires bookKey in s1.notesByBook ==> s1.notesByBook[bookKey] == s2.notesByBook[bookKey]
    ensures SelectNotesByBookKey(s1, bookKey) == SelectNotesByBookKey(s2, bookKey)
  {
  }

  /** After adding a note, the book's notes read as the old ones followed
      by the new note; other books read as before. */
  lemma SelectAfterAdd(state: NotesState, bookKey: string, text: string, now: string, other: string)
    requires other != bookKey
    ensures SelectNotesByBookKey(AddNoteTo(state, bookKey, text, now), bookKey)
            == SelectNotesByBookKey(state, bookKey) + [Note(text, now)]
    ensures SelectNotesByBookKey(AddNoteTo(state, bookKey, text, now), other)
            == SelectNotesByBookKey(state, other)
  {
  }

  /** After deleting a valid position, the book's notes read as the old
      list without that one entry. */
  lemma SelectAfterDelete(state: NotesState, bookKey: string, noteIndex: int)
    requires 0 <= noteIndex < |SelectNotesByBookKey(state, bookKey)|
    ensures var before := SelectNotesByBookKey(state, bookKey);
            SelectNotesByBookKey(DeleteNoteFrom(state, bookKey, noteIndex), bookKey)
              == before[..noteIndex] + before[noteIndex + 1..]
  {
  }
}

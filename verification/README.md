# Harry Potter book app: derived state and reducers, in Dafny

This project models the logic core of a client-side book browser. The app
loads a fixed catalog of books from the Open Library search API, lets the
user search it by title and sort it, and keeps free-text notes per book in
memory. Everything else in the app is view code or request plumbing.

The core consists of six pieces, one Dafny module each:

- **BookListSelectors** (`book_list_selectors.dfy`). This is the projection
  from the optional catalog, the search term, the sort option and the
  notes store to the list the page shows. It is a case-insensitive
  substring search on titles, followed by a stable sort on a copy. The
  sort is by title (the default for any unrecognised option), by first
  publish year (a missing year sorts as 9999), or by note count, most
  notes first.
- **BookListSlice** (`book_list_slice.dfy`) holds the UI state record and
  its eight reducers: search term, sort option, sort direction and the
  language selection.
- **NotesSlice** (`notes_slice.dfy`) is the notes store
  `map<string, seq<Note>>`. It has an append reducer and a
  delete-by-position reducer with JavaScript `splice` semantics.
- **NotesSelectors** (`notes_selectors.dfy`) reads one book's notes. A
  missing entry reads as the empty list.
- **NotesComponent** (`notes_component.dfy`) holds the note form's submit
  and delete handlers. The submit handler trims the text and does nothing
  for blank text. That guard is where the "notes are never blank"
  guarantee lives, because the reducer stores any text it is given.
- **OpenLibraryApi** (`open_library_api.dfy`) holds the records and the
  two response mappings from the search and work-details JSON shapes.

Shared building blocks:

- `Wrappers`: `Option`, for `undefined`.
- `JsArray`: `indexOf` and `splice(start, 1)`, including negative and
  out-of-range starts.
- `Strings`: `trim` with the exact ECMAScript whitespace set, ASCII
  `toLowerCase`, and `includes`.
- `Filtering`: `Array.prototype.filter`.
- `StableSort`: `Array.prototype.sort` with a comparator.
- `Collation`: a concrete code-point comparator.
- `SelectorExamples`: worked instances taken from the selector tests.

Sorting is modelled as insertion sort over a JavaScript-style comparator
`(T, T) -> int`, where "may stay before" means "the result is `<= 0`".
The language requires `Array.prototype.sort` to be stable.
`StableSort.StableSortUnique` proves that a consistent comparator, in
the sense ECMA-262 gives that term for `Array.prototype.sort`, has exactly
one stable sorted permutation. So for such a comparator, whatever
algorithm the engine uses, its result is the modelled one
(`BookListSelectors.DisplayedIsTheStableSort`). For a comparator that is
not consistent the language leaves the order implementation-defined, and
the model says nothing about it.

`localeCompare` depends on the runtime's locale. It is therefore a
parameter of the projection. Every ordering lemma assumes only that it is
a consistent comparator: swapping the arguments flips the sign of the
result (so every string compares equal to itself), and `<= 0` is
transitive (`StableSort.Consistent`).
`Collation.CodePointCompare` shows that such comparators exist.

Three facts about the code shape the displayed list:

- The UI state stores `sortDirection` and `selectedLanguages`
  (`src/components/book-list/slice.ts:6-11`). `selectFilteredAndSortedBooks`
  (`src/components/book-list/selectors.ts:46-96`) reads neither
  (`BookListSelectors.DirectionAndLanguagesIgnored`).
- `SortOption` includes `'editionCount'` (`src/components/book-list/slice.ts:3`).
  The selector's `switch` has no case for it, so it falls through to title
  order (`BookListSelectors.EditionCountSortsByTitle`).
- `Book` (`src/state/apis/openLibraryApi.ts:3-10`) has no language field
  and no edition count.

Some test files disagree with the code; the model follows the code:

- A comment in `src/components/book-list/selectors.test.js` expects equal note
  counts to fall back to title order. The code keeps the search result's
  order instead (`BookListSelectors.NoNotesKeepsSearchOrder`).
- `src/components/book-list/slice.test.js` expects a two-field initial state.
  The code's state has four fields.
- `src/state/books/selectors.test.js` imports selectors that the code does
  not define.

Every operation is a pure function on immutable values. The sort works on
a copy, so the catalog it is given is never changed.

## Model

| member | source | states |
|---|---|---|
| BookListSelectors.SelectSearchTerm | src/components/book-list/selectors.ts:9-12 | an absent search term reads as "", a present one as itself |
| BookListSelectors.SelectSortBy | src/components/book-list/selectors.ts:17-20 | the sort option read is never empty: an absent or empty field reads as "title", any other value as itself |
| BookListSelectors.SelectBooksByTitle | src/components/book-list/selectors.ts:25-34 | no catalog gives the empty list; an empty term gives the catalog unchanged; every listed book is from the catalog and matches the term |
| BookListSelectors.SearchIsExact | src/components/book-list/selectors.ts:28-32 | the search result is a subsequence of the catalog (input order kept) and holds each matching book exactly as often as the catalog does and no non-matching book |
| BookListSelectors.SearchIgnoresCase | src/components/book-list/selectors.ts:29-31 | two terms that lowercase alike select the same books |
| BookListSelectors.NoteCount | src/components/book-list/selectors.ts:39-41 | a book's note count is the length of what the notes selector returns for its key (0 when absent) |
| BookListSelectors.YearKey | src/components/book-list/selectors.ts:75-76 | the year a book sorts under is its publish year, or 9999 when it has none |
| BookListSelectors.SelectFilteredAndSortedBooks | src/components/book-list/selectors.ts:53-95 | no catalog gives the empty list; otherwise the displayed list is a permutation of the title search's result (nothing added, dropped or duplicated) |
| BookListSelectors.OrderFor | src/components/book-list/selectors.ts:68-92 | which books may stay before which: 'publishDate' orders by year with a missing year read as 9999, 'notes' puts the larger note count first, 'title' and every other name (including 'editionCount') order by `localeCompare` of the titles |
| BookListSelectors.VisibleBooks | src/components/book-list/selectors.ts:46-53 | the list shown for a UI state is the selector applied to the state's search term and sort option as stored; it holds exactly the books the title search keeps |
| BookListSelectors.OrdersConsistent | src/components/book-list/selectors.ts:68-92 | for a consistent collation, the title, year and note-count comparators are all consistent: total, sign-flipping under swapped arguments, and transitive |
| BookListSelectors.DisplayedSortedAndStable | src/components/book-list/selectors.ts:66-92 | the displayed list is sorted under the chosen comparator, and books that compare equal keep their relative order from the search result |
| BookListSelectors.DisplayedIsTheStableSort | src/components/book-list/selectors.ts:66-94 | any sorted arrangement that keeps ties in search order equals the displayed list, so any stable sorting engine yields it |
| BookListSelectors.TitleSortOrdersTitles | src/components/book-list/selectors.ts:68-92 | under "title" and under every option other than "publishDate" and "notes", neighbouring titles are in collation order |
| BookListSelectors.YearSortOrdersYears | src/components/book-list/selectors.ts:73-78 | under "publishDate" the sort years never decrease, and a book without a year comes after every book dated before 9999 |
| BookListSelectors.NotesSortOrdersCounts | src/components/book-list/selectors.ts:81-86 | under "notes" the note counts never increase; a book with no entry counts 0 |
| BookListSelectors.NoNotesKeepsSearchOrder | src/components/book-list/selectors.ts:81-86 | when every book the search keeps has a note count of 0 (no entry, or an emptied list), sorting by notes leaves the search result's order unchanged |
| BookListSelectors.EditionCountSortsByTitle | src/components/book-list/selectors.ts:89-91 | "editionCount" has no case of its own and displays exactly what "title" displays |
| BookListSelectors.DirectionAndLanguagesIgnored | src/components/book-list/selectors.ts:46-53 | UI states that differ only in sort direction or language selection display the same list |
| BookListSelectors.InitialShowsCatalogByTitle | src/components/book-list/slice.ts:13-18 | in the initial UI state the whole catalog is shown, sorted by title |
| BookListSlice.Reduce | src/components/book-list/slice.ts:23-53 | each action rewrites one field and keeps the other three: setSearchTerm and setSortBy, setSortDirection and setSelectedLanguages store the payload, clearSearchTerm stores "", clearLanguageFilter stores [], toggleSortDirection stores the other direction, toggleLanguage appends an unselected language and otherwise shortens the selection by one |
| BookListSlice.Flip | src/components/book-list/slice.ts:37 | the toggled direction differs from the current one |
| BookListSlice.ToggleIn | src/components/book-list/slice.ts:42-50 | a selected language loses its first occurrence and the rest keep their order; an unselected one is appended at the end |
| BookListSlice.ReducerFrames | src/components/book-list/slice.ts:24-53 | each action changes only its own field: only the search actions change the term, only setSortBy the option, only the direction actions the direction, only the language actions the selection |
| BookListSlice.ClearSearchTermFacts | src/components/book-list/slice.ts:27-29 | clearing yields "", clearing twice equals clearing once, and the sort option is kept |
| BookListSlice.SortBySurvivesClearSearch | src/components/book-list/slice.ts:27-32 | a sort option set before a clear of the search is still set after it |
| BookListSlice.ToggleSortDirectionInvolution | src/components/book-list/slice.ts:36-38 | toggling changes the direction, and toggling twice restores the whole state |
| BookListSlice.LanguageListSetters | src/components/book-list/slice.ts:39-53 | setSelectedLanguages stores the list verbatim; clearLanguageFilter empties it |
| BookListSlice.ToggleFlipsMembership | src/components/book-list/slice.ts:42-50 | on a duplicate-free selection, toggling flips exactly the given language's membership and keeps the selection duplicate-free |
| BookListSlice.ToggleAbsentTwice | src/components/book-list/slice.ts:42-50 | toggling an unselected language twice restores the selection |
| NotesSlice.AddNoteTo | src/state/notes/slice.ts:22-31 | a book without notes gets a one-note list; otherwise the note is appended, earlier notes unchanged, length up by one; text stored verbatim; other books untouched |
| NotesSlice.DeleteNoteFrom | src/state/notes/slice.ts:32-37 | the set of books is unchanged; an absent book or an index past the end changes nothing; a valid index removes that note only; other books untouched |
| NotesSlice.Reduce | src/state/notes/slice.ts:21-38 | every action leaves other books' notes untouched, and delete never adds or drops a book |
| NotesSlice.DeleteRemovesExactlyOne | src/state/notes/slice.ts:35 | deleting a valid position shortens the list by one, drops exactly that note from the multiset, and keeps the others in order |
| NotesSlice.ReducerStoresTextVerbatim | src/state/notes/slice.ts:22-31 | for every state, book and text, addNote leaves the book with a non-empty list whose last note is the text exactly as given (blank or padded text included) with the supplied time |
| NotesSelectors.SelectNotesByBookKey | src/state/notes/selectors.ts:10-11 | an absent book reads as the empty list, a present one as exactly its stored list |
| NotesSelectors.SelectorReadsOnlyItsKey | src/state/notes/selectors.ts:11 | stores that agree on a book's entry give the same result for it, whatever other books hold |
| NotesSelectors.SelectAfterAdd | src/state/notes/selectors.ts:10-11 | after addNote, the book reads as its old notes followed by the new note, and other books read as before |
| NotesSelectors.SelectAfterDelete | src/state/notes/selectors.ts:10-11 | after deleting a valid position, the book reads as its old notes without that entry |
| NotesComponent.HandleSubmit | src/components/notes/Notes.tsx:18-24 | whitespace-only text dispatches nothing and stays in the buffer; other text dispatches addNote with the trimmed text for the same book and clears the buffer |
| NotesComponent.HandleDelete | src/components/notes/Notes.tsx:26-28 | deleting position i dispatches deleteNote for the same book and index i |
| NotesComponent.Dispatch | src/components/notes/Notes.tsx:20-21 | when nothing is dispatched the store is unchanged |
| NotesComponent.SubmitKeepsInterior | src/components/notes/Notes.tsx:20-21 | dispatched text is non-empty, has no whitespace at either end, and is the buffer with only whitespace cut from its ends |
| NotesComponent.InitialNotesClean | src/state/notes/slice.ts:14-16 | the initial store holds no blank note |
| NotesComponent.AddCleanKeepsClean | src/components/notes/Notes.tsx:20-21 | adding a non-blank, trimmed text keeps every stored note non-blank and trimmed |
| NotesComponent.DeleteKeepsClean | src/components/notes/Notes.tsx:26-28 | deleting never introduces a blank note |
| NotesComponent.HandlersKeepNotesClean | src/components/notes/Notes.tsx:18-28 | through the form's handlers, every note in the store stays non-blank and trimmed |
| OpenLibraryApi.ToBook | src/state/apis/openLibraryApi.ts:49-56 | key and title copied; author is the first listed name, or "J.K. Rowling" when the list is missing, empty or starts with ""; author never empty; cover and year copied; isbn is the first ISBN or absent |
| OpenLibraryApi.TransformSearchBooks | src/state/apis/openLibraryApi.ts:47-57 | one Book per doc, same count and order, keys and titles copied, each mapped by ToBook |
| OpenLibraryApi.TransformBookDetails | src/state/apis/openLibraryApi.ts:61-72 | a string description passes through; a typed one yields its value unless empty; missing or empty typed gives "No description available"; cover is the first cover or absent; subjects default to empty; created is its value or absent |
| OpenLibraryApi.EmptyDescriptionOnlyFromEmptyString | src/state/apis/openLibraryApi.ts:65-67 | the description is empty exactly when the response has an empty plain-string description |
| JsArray.IndexOf | src/components/book-list/slice.ts:44-45 | -1 exactly when absent, otherwise the position of the first occurrence |
| JsArray.RelativeStart | src/state/notes/slice.ts:35 | the start splice uses: negative counts from the end clamped at 0, past the end clamped at the length |
| JsArray.SpliceOne | src/state/notes/slice.ts:35 | removes the element at the normalised start if there is one, otherwise returns the list unchanged; never introduces elements |
| JsArray.SpliceOneRemovesOne | src/components/book-list/slice.ts:46 | removing a valid position drops exactly that element and keeps the rest in order |
| Strings.Trim | src/components/notes/Notes.tsx:20-21 | empty exactly for whitespace-only input; otherwise no whitespace at either end; always the input with only whitespace cut from its ends |
| Strings.TrimIdempotent | src/components/notes/Notes.tsx:21 | trimming already-trimmed text changes nothing |
| Filtering.Filter | src/components/book-list/selectors.ts:30-32 | the result is no longer than the input and holds only input elements that pass the predicate |
| Strings.Lower | src/components/book-list/selectors.ts:29-31 | same length; each ASCII capital becomes the lower-case letter 32 code points below it, every other character is kept |
| Strings.Includes | src/components/book-list/selectors.ts:31 | the empty pattern and the text itself are always found; a found pattern is no longer than the text |
| Filtering.FilterCount | src/components/book-list/selectors.ts:30-32 | filter keeps each passing element with its multiplicity and drops every failing one |
| Filtering.FilterIsSubsequence | src/components/book-list/selectors.ts:30-32 | filter keeps input order |
| Filtering.FilterAgree | src/components/book-list/selectors.ts:30-32 | filters by predicates that agree on the input give the same result |
| StableSort.Sort | src/components/book-list/selectors.ts:66-67 | the sorted copy is a permutation of the input |
| StableSort.SortSorted | src/components/book-list/selectors.ts:68-92 | with a total comparator, neighbours in the result are in order |
| StableSort.SortStable | src/components/book-list/selectors.ts:68-92 | within each class of equal-comparing elements, the result keeps input order |
| StableSort.SortedPairwise | src/components/book-list/selectors.ts:68-92 | under a transitive comparator, sorted neighbours imply every earlier element may precede every later one |
| StableSort.SortIdempotent | src/components/book-list/selectors.ts:66-92 | sorting the sorted copy again returns it unchanged |
| StableSort.StableSortUnique | src/components/book-list/selectors.ts:66-92 | two sorted sequences with the same equal-class subsequences are equal |
| Collation.CodePointCompareConsistent | src/components/book-list/selectors.ts:70 | code-point order is a consistent comparator, so the collation assumption can be met |
| SelectorExamples.MoreNotesFirst | src/components/book-list/selectors.ts:81-86 | with 1 and 2 notes, the book with 2 notes is listed first |
| SelectorExamples.OldestFirstUndatedLast | src/components/book-list/selectors.ts:73-78 | 1998, 1997 and undated books display as 1997, 1998, undated |

## Left out

- HTTP requests, the request lifecycle and response caching are not modelled. This covers the `searchBooks`, `getBookDetails` and `getAuthorDetails` queries, `selectAllBooks` and the store. The catalog enters the model as an `Option<seq<Book>>` (absent until loaded).
- `createSelector` memoisation is framework caching and does not change results. The selectors are plain functions.
- `new Date().toISOString()` in `addNote` reads the clock. The timestamp is a `now` parameter.
- `localeCompare` depends on the runtime's locale and collation. It is a parameter; the lemmas require only that it is a consistent comparator.
- `toLowerCase` is modelled for the ASCII letters only. Unicode case mapping of other characters is not modelled.
- JavaScript numbers are modelled as integers. Fractional, NaN or infinite note indices, years and cover ids are not modelled.
- The sort direction and the language selection are stored but never read by the displayed-list selector, so they do not affect the model's output. The `editionCount` sort and book languages do not exist in the code.
- The selectors `selectSortDirection`, `selectSelectedLanguages` and `selectAvailableLanguages` are imported by the filter sidebar but defined nowhere. The model does not invent them.
- Rendering is not modelled: JSX views, cover URLs, lazy image loading, routing, the subject list display and the language name table.
- `notesByBook` is a plain JavaScript object, so a book key that names an `Object.prototype` member (such as `"constructor"`) behaves differently there: its note count is 1, the notes selector returns a function and `addNote` throws. The model's map treats every such key as absent. The app only builds keys of the form `/works/…` (`src/components/book-details/BookDetails.tsx:11`), which never name such a member.

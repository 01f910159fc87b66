/** The book list's derived state: the search term and sort option read
    from the UI state, the title search, the note count of a book, and the
    list the page displays (title search, then a stable sort on a copy).
    The language selection and the sort direction are stored in the UI
    state but no selector reads them. */
module BookListSelectors {
  import opened Wrappers
  import opened Strings
  import opened Filtering
  import opened StableSort
  import opened OpenLibraryApi
  import opened NotesSlice
  import opened NotesSelectors
  import opened BookListSlice

  /** Year a book without one is sorted under: after all real years. */
  const MissingYear: int := 9999

  /** The search term, with an absent field read as "". */
  function SelectSearchTerm(raw: Option<string>): (term: string)
    ensures raw.Some? ==> term == raw.value
    ensures raw.None? ==> term == ""
  {
    raw.GetOr("")
  }

  /** The sort option's name, with an absent or empty field read as "title". */
  function SelectSortBy(raw: Option<string>): (sortBy: string)
    ensures sortBy != ""
    ensures raw.Some? && raw.value != "" ==> sortBy == raw.value
    ensures raw.None? || raw.value == "" ==> sortBy == "title"
  {
    if raw.Some? && raw.value != "" then raw.value else "title"
  }

  /** A book matches the search when its lowercased title contains the
      lowercased term. Only the title is searched. */
  predicate MatchesSearch(book: Book, searchTerm: string) {
    Includes(Lower(book.title), Lower(searchTerm))
  }

  /** The search as a filter predicate. */
  function TitleSearch(searchTerm: string): (p: Book -> bool)
    ensures forall b :: p(b) == MatchesSearch(b, searchTerm)
  {
    b => MatchesSearch(b, searchTerm)
  }

  /** Books whose title matches the search, or the whole catalog when the
      search is empty, or nothing while the catalog is not loaded. */
  function SelectBooksByTitle(books: Option<seq<Book>>, searchTerm: string): (r: seq<Book>)
    ensures books.None? ==> r == []
    ensures books.Some? && searchTerm == "" ==> r == books.value
    ensures books.Some? ==> forall b :: b in r ==> b in books.value && MatchesSearch(b, searchTerm)
  {
    if books.None? then []
    else if searchTerm == "" then
      assert forall b :: MatchesSearch(b, searchTerm) by {
        forall b: Book
          ensures MatchesSearch(b, searchTerm)
        {
          assert OccursAt(Lower(b.title), Lower(searchTerm), 0);
        }
      }
      books.value
    else Filter(books.value, TitleSearch(searchTerm))
  }

  /** Number of notes stored for the book; a book without an entry has 0. */
  function NoteCount(notes: NotesState, bookKey: string): (n: nat)
    ensures n == |SelectNotesByBookKey(notes, bookKey)|
  {
    if bookKey in notes.notesByBook then |notes.notesByBook[bookKey]| else 0
  }

  /** The year a book is sorted under. */
  function YearKey(book: Book): (y: int)
    ensures book.firstPublishYear.Some? ==> y == book.firstPublishYear.value
    ensures book.firstPublishYear.None? ==> y == MissingYear
  {
    book.firstPublishYear.GetOr(MissingYear)
  }

  /** Alphabetical by title under the runtime's collation `localeCompare`. */
  function TitleOrder(localeCompare: (string, string) -> int): (Book, Book) -> int {
    (a: Book, b: Book) => localeCompare(a.title, b.title)
  }

  /** Oldest first, books without a year last. */
  function YearOrder(): (Book, Book) -> int {
    (a: Book, b: Book) => YearKey(a) - YearKey(b)
  }

  /** Most notes first. */
  function NotesOrder(notes: NotesState): (Book, Book) -> int {
    (a: Book, b: Book) => NoteCount(notes, b.key) - NoteCount(notes, a.key)
  }

  /** The comparator the sort option selects; every name other than
      "publishDate" and "notes" (including "editionCount") sorts by title. */
  function OrderFor(sortBy: string, notes: NotesState, localeCompare: (string, string) -> int)
    : (order: (Book, Book) -> int)
    ensures forall a, b :: Le(order, a, b) <==>
      if sortBy == "publishDate" then YearKey(a) <= YearKey(b)
      else if sortBy == "notes" then NoteCount(notes, b.key) <= NoteCount(notes, a.key)
      else localeCompare(a.title, b.title) <= 0
  {
    if sortBy == "title" then TitleOrder(localeCompare)
    else if sortBy == "publishDate" then YearOrder()
    else if sortBy == "notes" then NotesOrder(notes)
    else TitleOrder(localeCompare)
  }

  /** The displayed list: nothing while the catalog is not loaded;
      otherwise the title search's result, stably sorted by the chosen
      option, as a new sequence. It holds exactly the searched books. */
  function SelectFilteredAndSortedBooks(
    books: Option<seq<Book>>, searchTerm: string, sortBy: string,
    notes: NotesState, localeCompare: (string, string) -> int): (r: seq<Book>)
    ensures books.None? ==> r == []
    ensures multiset(r) == multiset(SelectBooksByTitle(books, searchTerm))
  {
    if books.None? then []
    else
      var filtered :=
        if searchTerm != "" then Filter(books.value, TitleSearch(searchTerm)) else books.value;
      Sort(filtered, OrderFor(sortBy, notes, localeCompare))
  }

  /** The list displayed for a UI state: the state's search term and
      sort option reach the list unchanged, and the direction and language
      fields play no part. */
  function VisibleBooks(
    books: Option<seq<Book>>, ui: BookListState, notes: NotesState,
    localeCompare: (string, string) -> int): (r: seq<Book>)
    ensures r == SelectFilteredAndSortedBooks(books, ui.searchTerm, ui.sortBy.Name(), notes, localeCompare)
    ensures books.None? ==> r == []
    ensures multiset(r) == multiset(SelectBooksByTitle(books, ui.searchTerm))
  {
    SelectFilteredAndSortedBooks(
      books, SelectSearchTerm(Some(ui.searchTerm)), SelectSortBy(Some(ui.sortBy.Name())),
      notes, localeCompare)
  }

  /** The search is exact: the result lists, in catalog order, every
      matching book as often as the catalog does, and nothing else. */
  lemma SearchIsExact(books: seq<Book>, searchTerm: string)
    ensures var r := SelectBooksByTitle(Some(books), searchTerm);
      && IsSubsequence(r, books)
      && forall b :: multiset(r)[b] == if MatchesSearch(b, searchTerm) then multiset(books)[b] else 0
  {
    var p := TitleSearch(searchTerm);
    if searchTerm == "" {
      forall i | 0 <= i < |books|
        ensures p(books[i])
      {
        assert OccursAt(Lower(books[i].title), Lower(searchTerm), 0);
      }
      FilterAllPass(books, p);
    }
    FilterIsSubsequence(books, p);
    forall b
      ensures multiset(SelectBooksByTitle(Some(books), searchTerm))[b]
           == if MatchesSearch(b, searchTerm) then multiset(books)[b] else 0
    {
      FilterCount(books, p, b);
    }
  }

  /** The search ignores letter case: terms that lowercase alike select
      the same books. */
  lemma SearchIgnoresCase(books: Option<seq<Book>>, term1: string, term2: string)
    requires Lower(term1) == Lower(term2)
    ensures SelectBooksByTitle(books, term1) == SelectBooksByTitle(books, term2)
  {
    if books.Some? && term1 != "" {
      FilterAgree(books.value, TitleSearch(term1), TitleSearch(term2));
    }
  }

  /** Given a consistent collation, every sort option's comparator is
      consistent. */
  lemma OrdersConsistent(sortBy: string, notes: NotesState, localeCompare: (string, string) -> int)
    requires Consistent(localeCompare)
    ensures Consistent(OrderFor(sortBy, notes, localeCompare))
  {
    var order := OrderFor(sortBy, notes, localeCompare);
    forall a: Book, b: Book
      ensures Le(order, a, b) || Le(order, b, a)
    {
      assert Le(localeCompare, a.title, b.title) || Le(localeCompare, b.title, a.title);
    }
    forall a: Book, b: Book
      ensures order(a, b) < 0 <==> order(b, a) > 0
    {
      assert localeCompare(a.title, b.title) < 0 <==> localeCompare(b.title, a.title) > 0;
    }
    forall a: Book, b: Book, c: Book | Le(order, a, b) && Le(order, b, c)
      ensures Le(order, a, c)
    {
      if OrderFor(sortBy, notes, localeCompare) == TitleOrder(localeCompare) {
        assert Le(localeCompare, a.title, b.title) && Le(localeCompare, b.title, c.title);
      }
    }
  }

  /** The displayed list is sorted under the selected comparator and keeps
      the searched books' relative order among books that compare equal. */
  lemma DisplayedSortedAndStable(
    books: seq<Book>, searchTerm: string, sortBy: string,
    notes: NotesState, localeCompare: (string, string) -> int)
    requires Consistent(localeCompare)
    ensures var order := OrderFor(sortBy, notes, localeCompare);
      var r := SelectFilteredAndSortedBooks(Some(books), searchTerm, sortBy, notes, localeCompare);
      && Sorted(r, order)
      && forall z :: Filter(r, EquivTo(order, z))
                     == Filter(SelectBooksByTitle(Some(books), searchTerm), EquivTo(order, z))
  {
    var order := OrderFor(sortBy, notes, localeCompare);
    OrdersConsistent(sortBy, notes, localeCompare);
    var filtered := SelectBooksByTitle(Some(books), searchTerm);
    assert SelectFilteredAndSortedBooks(Some(books), searchTerm, sortBy, notes, localeCompare)
        == Sort(filtered, order);
    SortSorted(filtered, order);
    forall z
      ensures Filter(Sort(filtered, order), EquivTo(order, z)) == Filter(filtered, EquivTo(order, z))
    {
      SortStable(filtered, order, z);
    }
  }

  /** Whatever stable algorithm the engine uses, its result is the
      displayed list: it is the only sorted, stable arrangement. */
  lemma DisplayedIsTheStableSort(
    books: seq<Book>, searchTerm: string, sortBy: string,
    notes: NotesState, localeCompare: (string, string) -> int, engine: seq<Book>)
    requires Consistent(localeCompare)
    requires Sorted(engine, OrderFor(sortBy, notes, localeCompare))
    requires forall z :: Filter(engine, EquivTo(OrderFor(sortBy, notes, localeCompare), z))
                         == Filter(SelectBooksByTitle(Some(books), searchTerm),
                                   EquivTo(OrderFor(sortBy, notes, localeCompare), z))
    ensures engine == SelectFilteredAndSortedBooks(Some(books), searchTerm, sortBy, notes, localeCompare)
  {
    OrdersConsistent(sortBy, notes, localeCompare);
    SortIsTheStableSort(SelectBooksByTitle(Some(books), searchTerm), engine,
                        OrderFor(sortBy, notes, localeCompare));
  }

  /** Under "title", and under every name the sort does not recognise,
      neighbouring titles are in collation order. */
  lemma TitleSortOrdersTitles(
    books: seq<Book>, searchTerm: string, sortBy: string,
    notes: NotesState, localeCompare: (string, string) -> int)
    requires Consistent(localeCompare)
    requires sortBy != "publishDate" && sortBy != "notes"
    ensures var r := SelectFilteredAndSortedBooks(Some(books), searchTerm, sortBy, notes, localeCompare);
      forall i :: 0 <= i && i + 1 < |r| ==> localeCompare(r[i].title, r[i + 1].title) <= 0
  {
    DisplayedSortedAndStable(books, searchTerm, sortBy, notes, localeCompare);
  }

  /** Under "publishDate" the years never decrease, and a book without a
      year comes after every book dated before the sentinel year. */
  lemma YearSortOrdersYears(
    books: seq<Book>, searchTerm: string, notes: NotesState, localeCompare: (string, string) -> int)
    ensures var r := SelectFilteredAndSortedBooks(Some(books), searchTerm, "publishDate", notes, localeCompare);
      && (forall i :: 0 <= i && i + 1 < |r| ==> YearKey(r[i]) <= YearKey(r[i + 1]))
      && (forall i, j ::
            (&& 0 <= i < |r| && 0 <= j < |r|
             && r[i].firstPublishYear.Some? && r[i].firstPublishYear.value < MissingYear
             && r[j].firstPublishYear.None?)
            ==> i < j)
  {
    var order := YearOrder();
    var filtered := SelectBooksByTitle(Some(books), searchTerm);
    var r := Sort(filtered, order);
    assert r == SelectFilteredAndSortedBooks(Some(books), searchTerm, "publishDate", notes, localeCompare);
    SortSorted(filtered, order);
    SortedPairwise(r, order);
  }

  /** Under "notes" the note counts never increase, a book without an
      entry counting as 0. */
  lemma NotesSortOrdersCounts(
    books: seq<Book>, searchTerm: string, notes: NotesState, localeCompare: (string, string) -> int)
    ensures var r := SelectFilteredAndSortedBooks(Some(books), searchTerm, "notes", notes, localeCompare);
      forall i :: 0 <= i && i + 1 < |r| ==> NoteCount(notes, r[i].key) >= NoteCount(notes, r[i + 1].key)
  {
    SortSorted(SelectBooksByTitle(Some(books), searchTerm), NotesOrder(notes));
  }

  /** When no listed book has notes, sorting by notes keeps the searched
      order as it is. */
  lemma NoNotesKeepsSearchOrder(
    books: seq<Book>, searchTerm: string, notes: NotesState, localeCompare: (string, string) -> int)
    requires forall b :: b in SelectBooksByTitle(Some(books), searchTerm) ==> NoteCount(notes, b.key) == 0
    ensures SelectFilteredAndSortedBooks(Some(books), searchTerm, "notes", notes, localeCompare)
            == SelectBooksByTitle(Some(books), searchTerm)
  {
    var filtered := SelectBooksByTitle(Some(books), searchTerm);
    forall i | 0 <= i && i + 1 < |filtered|
      ensures Le(NotesOrder(notes), filtered[i], filtered[i + 1])
    {
      assert filtered[i] in books && filtered[i + 1] in books;
    }
    SortOfSorted(filtered, NotesOrder(notes));
  }

  /** "editionCount" has no case of its own and sorts like "title". */
  lemma EditionCountSortsByTitle(
    books: Option<seq<Book>>, searchTerm: string, notes: NotesState,
    localeCompare: (string, string) -> int)
    ensures SelectFilteredAndSortedBooks(books, searchTerm, "editionCount", notes, localeCompare)
            == SelectFilteredAndSortedBooks(books, searchTerm, "title", notes, localeCompare)
  {
  }

  /** The displayed list does not depend on the sort direction or the
      selected languages. */
  lemma DirectionAndLanguagesIgnored(
    books: Option<seq<Book>>, ui1: BookListState, ui2: BookListState,
    notes: NotesState, localeCompare: (string, string) -> int)
    requires ui1.searchTerm == ui2.searchTerm && ui1.sortBy == ui2.sortBy
    ensures VisibleBooks(books, ui1, notes, localeCompare) == VisibleBooks(books, ui2, notes, localeCompare)
  {
  }

  /** In the initial UI state the whole catalog is shown in title order. */
  lemma InitialShowsCatalogByTitle(
    books: seq<Book>, notes: NotesState, localeCompare: (string, string) -> int)
    ensures VisibleBooks(Some(books), InitialBookList, notes, localeCompare)
            == Sort(books, TitleOrder(localeCompare))
  {
  }
}

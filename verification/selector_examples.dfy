/** Worked instances of the displayed-list selector on small catalogs. */
module SelectorExamples {
  import opened Wrappers
  import opened OpenLibraryApi
  import opened NotesSlice
  import opened BookListSelectors
  import opened StableSort
  import opened Collation

  const Philosopher: Book := Book("/works/1", "Harry Potter and the Philosopher's Stone",
                                  "J.K. Rowling", None, Some(1997), None)
  const Chamber: Book := Book("/works/2", "Harry Potter and the Chamber of Secrets",
                              "J.K. Rowling", None, Some(1998), None)
  const Fellowship: Book := Book("/works/5", "The Fellowship of the Ring",
                                 "J.R.R. Tolkien", None, None, None)

  /** The book with more notes is listed first. */
  lemma MoreNotesFirst()
    ensures var notes := NotesState(map[
              "/works/1" := [Note("Note 1", "2025-12-06T10:00:00.000Z")],
              "/works/2" := [Note("Note 2", "2025-12-06T10:00:00.000Z"),
                             Note("Note 3", "2025-12-06T11:00:00.000Z")]]);
            SelectFilteredAndSortedBooks(Some([Philosopher, Chamber]), "", "notes", notes, CodePointCompare)
              == [Chamber, Philosopher]
  {
    var notes := NotesState(map[
      "/works/1" := [Note("Note 1", "2025-12-06T10:00:00.000Z")],
      "/works/2" := [Note("Note 2", "2025-12-06T10:00:00.000Z"),
                     Note("Note 3", "2025-12-06T11:00:00.000Z")]]);
    var order := NotesOrder(notes);
    assert NoteCount(notes, Philosopher.key) == 1 && NoteCount(notes, Chamber.key) == 2;
    assert Sort([Chamber], order) == [Chamber];
    assert !Le(order, Philosopher, Chamber);
    assert Sort([Philosopher, Chamber], order) == Insert(Philosopher, [Chamber], order);
  }

  /** Oldest first, the undated book last. */
  lemma OldestFirstUndatedLast()
    ensures SelectFilteredAndSortedBooks(Some([Fellowship, Chamber, Philosopher]), "", "publishDate",
                                         InitialNotes, CodePointCompare)
              == [Philosopher, Chamber, Fellowship]
  {
    var order := YearOrder();
    assert YearKey(Philosopher) == 1997 && YearKey(Chamber) == 1998 && YearKey(Fellowship) == 9999;
    var ps, cps, fcps := [Philosopher], [Chamber, Philosopher], [Fellowship, Chamber, Philosopher];
    assert cps[1..] == ps && fcps[1..] == cps;
    assert Sort(ps, order) == [Philosopher];
    assert !Le(order, Chamber, Philosopher);
    assert Insert(Chamber, [], order) == [Chamber];
    assert Sort(cps, order) == [Philosopher, Chamber];
    assert !Le(order, Fellowship, Philosopher) && !Le(order, Fellowship, Chamber);
    assert Insert(Fellowship, [Chamber], order) == [Chamber, Fellowship];
    assert Insert(Fellowship, [Philosopher, Chamber], order) == [Philosopher, Chamber, Fellowship];
    assert Sort(fcps, order) == [Philosopher, Chamber, Fellowship];
    assert "publishDate" != "title";
    assert OrderFor("publishDate", InitialNotes, CodePointCompare) == order;
  }
}

/** The book list's UI state (search box, sort controls, language
    filter) and its eight reducers, as transitions on an immutable record. */
module BookListSlice {
  import opened JsArray

  datatype SortOption = Title | PublishDate | Notes | EditionCount {
    /** The string the option is stored and compared as. */
    function Name(): (n: string)
      ensures n != ""
    {
      match this
      case Title => "title"
      case PublishDate => "publishDate"
      case Notes => "notes"
      case EditionCount => "editionCount"
    }
  }

  datatype SortDirection = Asc | Desc

  datatype BookListState = BookListState(
    searchTerm: string,
    sortBy: SortOption,
    sortDirection: SortDirection,
    selectedLanguages: seq<string>)

  /** Empty search, title order ascending, no language selected. */
  const InitialBookList: BookListState := BookListState("", Title, Asc, [])

  datatype BookListAction =
    | SetSearchTerm(term: string)
    | ClearSearchTerm
    | SetSortBy(option: SortOption)
    | SetSortDirection(direction: SortDirection)
    | ToggleSortDirection
    | SetSelectedLanguages(languages: seq<string>)
    | ToggleLanguage(language: string)
    | ClearLanguageFilter

  /** The opposite direction. */
  function Flip(d: SortDirection): (e: SortDirection)
    ensures e != d
  {
    if d == Asc then Desc else Asc
  }

  /** Deselects the first occurrence of `language` when it is selected,
      otherwise selects it by appending it. */
  function ToggleIn(languages: seq<string>, language: string): (r: seq<string>)
    ensures language in languages ==>
      var i := IndexOf(languages, language);
      r == languages[..i] + languages[i + 1..]
    ensures language !in languages ==> r == languages + [language]
  {
    var index := IndexOf(languages, language);
    if index > -1 then SpliceOne(languages, index) else languages + [language]
  }

  /** The bookList reducer: each action rewrites exactly one field and
      leaves the other three as they were. */
  function Reduce(state: BookListState, action: BookListAction): (r: BookListState)
    ensures action.SetSearchTerm? ==> r == state.(searchTerm := action.term)
    ensures action.ClearSearchTerm? ==> r == state.(searchTerm := "")
    ensures action.SetSortBy? ==> r == state.(sortBy := action.option)
    ensures action.SetSortDirection? ==> r == state.(sortDirection := action.direction)
    ensures action.ToggleSortDirection? ==>
      r == state.(sortDirection := if state.sortDirection == Asc then Desc else Asc)
    ensures action.SetSelectedLanguages? ==> r == state.(selectedLanguages := action.languages)
    ensures action.ToggleLanguage? ==>
      r == state.(selectedLanguages := ToggleIn(state.selectedLanguages, action.language))
    ensures action.ToggleLanguage? && action.language !in state.selectedLanguages ==>
      r.selectedLanguages == state.selectedLanguages + [action.language]
    ensures action.ToggleLanguage? && action.language in state.selectedLanguages ==>
      |r.selectedLanguages| == |state.selectedLanguages| - 1
    ensures action.ClearLanguageFilter? ==> r == state.(selectedLanguages := [])
  {
    match action
    case SetSearchTerm(term) => state.(searchTerm := term)
    case ClearSearchTerm => state.(searchTerm := "")
    case SetSortBy(option) => state.(sortBy := option)
    case SetSortDirection(direction) => state.(sortDirection := direction)
    case ToggleSortDirection => state.(sortDirection := Flip(state.sortDirection))
    case SetSelectedLanguages(languages) => state.(selectedLanguages := languages)
    case ToggleLanguage(language) =>
      state.(selectedLanguages := ToggleIn(state.selectedLanguages, language))
    case ClearLanguageFilter => state.(selectedLanguages := [])
  }

  /** Which field each action may change; every other field keeps its value. */
  lemma ReducerFrames(state: BookListState, action: BookListAction)
    ensures var r := Reduce(state, action);
      && (r.searchTerm != state.searchTerm ==> action.SetSearchTerm? || action.ClearSearchTerm?)
      && (r.sortBy != state.sortBy ==> action.SetSortBy?)
      && (r.sortDirection != state.sortDirection ==>
            action.SetSortDirection? || action.ToggleSortDirection?)
      && (r.selectedLanguages != state.selectedLanguages ==>
            action.SetSelectedLanguages? || action.ToggleLanguage? || action.ClearLanguageFilter?)
  {
  }

  /** Clearing the search yields the empty term and is idempotent; it
      keeps the chosen sort option. */
  lemma ClearSearchTermFacts(state: BookListState)
    ensures Reduce(state, ClearSearchTerm).searchTerm == ""
    ensures Reduce(Reduce(state, ClearSearchTerm), ClearSearchTerm) == Reduce(state, ClearSearchTerm)
    ensures Reduce(state, ClearSearchTerm).sortBy == state.sortBy
  {
  }

  /** A sort option chosen before clearing the search survives the clear. */
  lemma SortBySurvivesClearSearch(state: BookListState, option: SortOption)
    ensures Reduce(Reduce(state, SetSortBy(option)), ClearSearchTerm).sortBy == option
  {
  }

  /** Toggling the direction flips it, and toggling twice is the identity. */
  lemma ToggleSortDirectionInvolution(state: BookListState)
    ensures Reduce(state, ToggleSortDirection).sortDirection != state.sortDirection
    ensures Reduce(Reduce(state, ToggleSortDirection), ToggleSortDirection) == state
  {
  }

  /** Setting the languages stores the list verbatim; clearing empties it. */
  lemma LanguageListSetters(state: BookListState, languages: seq<string>)
    ensures Reduce(state, SetSelectedLanguages(languages)).selectedLanguages == languages
    ensures Reduce(state, ClearLanguageFilter).selectedLanguages == []
  {
  }

  /** On a duplicate-free selection, toggling flips the language's
      membership, leaves every other language's membership alone and keeps
      the selection duplicate-free. */
  lemma ToggleFlipsMembership(languages: seq<string>, language: string)
    requires NoDuplicates(languages)
    ensures NoDuplicates(ToggleIn(languages, language))
    ensures forall l :: l in ToggleIn(languages, language)
                        <==> (if l == language then language !in languages else l in languages)
  {
  }

  /** Toggling a language that is not selected, twice, restores the list. */
  lemma ToggleAbsentTwice(languages: seq<string>, language: string)
    requires language !in languages
    ensures ToggleIn(ToggleIn(languages, language), language) == languages
  {
    var once := languages + [language];
    assert IndexOf(once, language) == |languages|;
  }
}

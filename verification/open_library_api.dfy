/** The records the app works with and the two pure response mappings of
    the search and work-details endpoints (their `transformResponse`
    functions). The HTTP layer itself is outside the model. */
module OpenLibraryApi {
  import opened Wrappers

  /** A catalog entry as the rest of the app sees it. */
  datatype Book = Book(
    key: string,
    title: string,
    author: string,
    coverImageId: Option<int>,
    firstPublishYear: Option<int>,
    isbn: Option<string>)

  /** The detail page's record for one work. */
  datatype BookDetails = BookDetails(
    key: string,
    title: string,
    description: string,
    coverId: Option<int>,
    subjects: seq<string>,
    created: Option<string>)

  /** One entry of the search response's `docs` array. */
  datatype SearchDoc = SearchDoc(
    key: string,
    title: string,
    authorName: Option<seq<string>>,
    coverI: Option<int>,
    firstPublishYear: Option<int>,
    isbn: Option<seq<string>>)

  datatype SearchBooksResponse = SearchBooksResponse(docs: seq<SearchDoc>)

  /** The JSON shape `{ value: string }` used for typed values. */
  datatype TypedValue = TypedValue(value: string)

  /** A work description is either a plain string or a typed value. */
  datatype Description = Plain(text: string) | Typed(typed: TypedValue)

  datatype BookDetailsResponse = BookDetailsResponse(
    key: string,
    title: string,
    description: Option<Description>,
    covers: Option<seq<int>>,
    subjects: Option<seq<string>>,
    created: Option<TypedValue>)

  const DefaultAuthor: string := "J.K. Rowling"
  const NoDescription: string := "No description available"

  /** Maps one search hit to a Book: the author is the first listed name
      unless that is missing or empty, in which case the fixed default
      author is used, so a Book never has an empty author. */
  function ToBook(doc: SearchDoc): (b: Book)
    ensures b.key == doc.key && b.title == doc.title
    ensures b.author != ""
    ensures b.author == DefaultAuthor
         || (doc.authorName.Some? && |doc.authorName.value| > 0 && b.author == doc.authorName.value[0])
    ensures doc.authorName.Some? && |doc.authorName.value| > 0 && doc.authorName.value[0] != ""
            ==> b.author == doc.authorName.value[0]
    ensures b.coverImageId == doc.coverI
    ensures b.firstPublishYear == doc.firstPublishYear
    ensures b.isbn.Some? <==> doc.isbn.Some? && |doc.isbn.value| > 0
    ensures b.isbn.Some? ==> b.isbn.value == doc.isbn.value[0]
  {
    var first := First(doc.authorName);
    Book(
      doc.key,
      doc.title,
      if first.Some? && first.value != "" then first.value else DefaultAuthor,
      doc.coverI,
      doc.firstPublishYear,
      First(doc.isbn))
  }

  /** The search endpoint's mapping: one Book per doc, in the same order. */
  function TransformSearchBooks(response: SearchBooksResponse): (books: seq<Book>)
    ensures |books| == |response.docs|
    ensures forall i :: 0 <= i < |books| ==>
      && books[i].key == response.docs[i].key
      && books[i].title == response.docs[i].title
      && books[i].author != ""
      && books[i].coverImageId == response.docs[i].coverI
      && books[i].firstPublishYear == response.docs[i].firstPublishYear
    ensures forall i :: 0 <= i < |books| ==> books[i] == ToBook(response.docs[i])
  {
    seq(|response.docs|, i requires 0 <= i < |response.docs| => ToBook(response.docs[i]))
  }

  /** The details endpoint's mapping. A string description is passed
      through as is (even when empty); a typed one yields its value unless
      that is empty; a missing one yields the placeholder text. */
  function TransformBookDetails(response: BookDetailsResponse): (d: BookDetails)
    ensures d.key == response.key && d.title == response.title
    ensures response.description.Some? && response.description.value.Plain?
            ==> d.description == response.description.value.text
    ensures response.description.Some? && response.description.value.Typed?
            && response.description.value.typed.value != ""
            ==> d.description == response.description.value.typed.value
    ensures response.description.None?
            || (response.description.value.Typed? && response.description.value.typed.value == "")
            ==> d.description == NoDescription
    ensures d.coverId == First(response.covers)
    ensures response.subjects.Some? ==> d.subjects == response.subjects.value
    ensures response.subjects.None? ==> d.subjects == []
    ensures d.created.Some? <==> response.created.Some?
    ensures d.created.Some? ==> d.created.value == response.created.value.value
  {
    BookDetails(
      response.key,
      response.title,
      match response.description
      case Some(Plain(text)) => text
      case Some(Typed(TypedValue(v))) => if v != "" then v else NoDescription
      case None => NoDescription,
      First(response.covers),
      response.subjects.GetOr([]),
      match response.created
      case Some(TypedValue(v)) => Some(v)
      case None => None)
  }

  /** The only way to get an empty description is for the response to
      carry an empty plain-string description. */
  lemma EmptyDescriptionOnlyFromEmptyString(response: BookDetailsResponse)
    ensures TransformBookDetails(response).description == ""
            <==> response.description == Some(Plain(""))
  {
  }
}

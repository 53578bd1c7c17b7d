/** The create and update requests and how they become entity state.

    The validation annotations on these classes are declarations only: the
    controller binds the JSON with `Json.fromJson`, which does not run Bean
    Validation, and neither service checks them. `DeclaredValidCreate` and
    `DeclaredValidUpdate` state what is declared; nothing in the request path
    enforces them.
 */
module Requests {
  import opened Wrappers
  import opened Numbers
  import opened Text
  import opened Books

  /** `BookCreateRequest`; JSON may leave any field null. */
  datatype CreateRequest = CreateRequest(
    isbn: Option<string>,
    title: Option<string>,
    subtitle: Option<string>,
    copyrightYear: Option<Int32>,
    status: Option<string>)

  /** `BookUpdateRequest`: the target id plus the same five fields. */
  datatype UpdateRequest = UpdateRequest(
    id: Option<int>,
    isbn: Option<string>,
    title: Option<string>,
    subtitle: Option<string>,
    copyrightYear: Option<Int32>,
    status: Option<string>)

  /** `@NotBlank`: present and not only characters at or below U+0020. */
  predicate NotBlank(s: Option<string>) {
    s.Some? && !JavaBlank(s.value)
  }

  /** The constraints declared on `BookCreateRequest`; subtitle is optional. */
  predicate DeclaredValidCreate(r: CreateRequest) {
    NotBlank(r.isbn) && NotBlank(r.title) && r.copyrightYear.Some? && NotBlank(r.status)
  }

  /** The constraints declared on `BookUpdateRequest`. */
  predicate DeclaredValidUpdate(r: UpdateRequest) {
    r.id.Some? && NotBlank(r.isbn) && NotBlank(r.title) && r.copyrightYear.Some? && NotBlank(r.status)
  }

  /** `Book.BookStatus.valueOf(status.toUpperCase())` on a field that may be
      null: a null status throws `NullPointerException`, an unknown name
      `IllegalArgumentException`; both are `None`. */
  function RequestStatus(status: Option<string>): (r: Option<Status>)
    ensures r.Some? <==> status.Some? && exists st :: ToUpper(status.value) == Name(st)
    ensures r.Some? ==> Name(r.value) == ToUpper(status.value)
  {
    if status.None? then None
    else
      var parsed := ParseStatus(status.value);
      assert parsed.Some? ==> ToUpper(status.value) == Name(parsed.value);
      parsed
  }

  /** `BookCreateRequest.toBook()`: a new, unsaved book. The failure for an
      unknown or missing status is a generic exception, never the typed
      invalid-request one, so callers see it as `Failure`. */
  function ToBook(r: CreateRequest): (b: Outcome<Book>)
    ensures b.Ok? || b.Failure?
    ensures b.Ok? <==> RequestStatus(r.status).Some?
    ensures b.Ok? ==> b.value.id.None? && b.value.createdAt.None? && b.value.updatedAt.None?
    ensures b.Ok? ==> b.value.isbn == r.isbn && b.value.title == r.title
    ensures b.Ok? ==> b.value.copyrightYear == r.copyrightYear
    ensures b.Ok? ==> b.value.subtitle == Some(if r.subtitle.Some? then r.subtitle.value else "")
    ensures b.Ok? ==> b.value.status.Some? && Name(b.value.status.value) == ToUpper(r.status.value)
  {
    match RequestStatus(r.status)
    case None => Failure
    case Some(st) => Ok(NewBook(r.isbn, r.title, Some(r.subtitle.GetOr("")), r.copyrightYear, Some(st)))
  }

  /** `BookUpdateRequest.updateBook(book)`: a full replace of the five data
      fields (a null subtitle becomes ""); id and timestamps are untouched.
      An unknown or missing status throws before the book is saved, so the
      caller discards the half-updated object: `Failure`. */
  function UpdateBook(r: UpdateRequest, book: Book): (b: Outcome<Book>)
    ensures b.Ok? || b.Failure?
    ensures b.Ok? <==> RequestStatus(r.status).Some?
    ensures b.Ok? ==> b.value.id == book.id
    ensures b.Ok? ==> b.value.createdAt == book.createdAt && b.value.updatedAt == book.updatedAt
    ensures b.Ok? ==> b.value.isbn == r.isbn && b.value.title == r.title
    ensures b.Ok? ==> b.value.copyrightYear == r.copyrightYear
    ensures b.Ok? ==> b.value.subtitle == Some(if r.subtitle.Some? then r.subtitle.value else "")
    ensures b.Ok? ==> b.value.status.Some? && Name(b.value.status.value) == ToUpper(r.status.value)
  {
    match RequestStatus(r.status)
    case None => Failure
    case Some(st) =>
      Ok(book.(isbn := r.isbn, title := r.title, subtitle := Some(r.subtitle.GetOr("")),
               copyrightYear := r.copyrightYear, status := Some(st)))
  }

  /** Applying the same update twice gives the record applying it once gives. */
  lemma UpdateBookIdempotent(r: UpdateRequest, book: Book)
    requires UpdateBook(r, book).Ok?
    ensures UpdateBook(r, UpdateBook(r, book).value) == UpdateBook(r, book)
  {
  }

  /** A full replace: the data fields afterwards depend on the request alone,
      not on what the book held before. */
  lemma UpdateBookForgetsOldContent(r: UpdateRequest, a: Book, b: Book)
    requires UpdateBook(r, a).Ok?
    ensures UpdateBook(r, b).Ok?
    ensures SameContent(UpdateBook(r, a).value, UpdateBook(r, b).value)
  {
  }

  /** A declared-valid create request whose status names a constant yields a
      storable book: the declared constraints are enough for the columns. */
  lemma DeclaredValidCreateIsStorable(r: CreateRequest)
    requires DeclaredValidCreate(r)
    requires RequestStatus(r.status).Some?
    ensures ToBook(r).Ok? && Storable(ToBook(r).value)
  {
  }

  /** The declared constraints are not what `toBook` checks: a blank title
      still produces a book. */
  lemma BlankTitleStillBuilds()
    ensures var r := CreateRequest(Some("isbn"), Some(" "), None, Some(2023), Some("pending"));
            !DeclaredValidCreate(r) && ToBook(r).Ok? && Storable(ToBook(r).value)
  {
    var r := CreateRequest(Some("isbn"), Some(" "), None, Some(2023), Some("pending"));
    assert ToUpper("pending") == Name(Pending);
    assert RequestStatus(r.status) == Some(Pending);
  }
}

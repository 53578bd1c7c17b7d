/** The book entity and its status enum.

    Every reference field of the Java entity may be null while the object is
    being built, so each is an `Option`; the columns are declared non-null,
    which `Storable` states and the store enforces.
 */
module Books {
  import opened Wrappers
  import opened Numbers
  import opened Text

  /** `Book.BookStatus`: a flat enum with no transition rules. */
  datatype Status = Pending | Rejected | Approved

  /** A point in time assigned by the store (`Instant`); only equality and
      copying matter here, so it is kept abstract as an integer. */
  type Instant = int

  /** `BookStatus.name()`: the text stored in the status column and carried
      by the transfer object. */
  function Name(st: Status): string {
    match st
    case Pending => "PENDING"
    case Rejected => "REJECTED"
    case Approved => "APPROVED"
  }

  /** `BookStatus.valueOf(s.toUpperCase())`: `None` where Java throws
      `IllegalArgumentException` because no constant has that name. */
  function ParseStatus(s: string): (r: Option<Status>)
    ensures forall st :: r == Some(st) <==> ToUpper(s) == Name(st)
  {
    var upper := ToUpper(s);
    if upper == "PENDING" then Some(Pending)
    else if upper == "REJECTED" then Some(Rejected)
    else if upper == "APPROVED" then Some(Approved)
    else None
  }

  lemma UpperOfUpper(s: string)
    ensures ToUpper(ToUpper(s)) == ToUpper(s)
  {
  }

  /** The stored name reads back as the same constant: the column
      representation loses nothing. */
  lemma NameRoundTrip(st: Status)
    ensures ParseStatus(Name(st)) == Some(st)
  {
    var n := Name(st);
    assert ToUpper(n) == n;
  }

  /** Parsing ignores case: any spelling parses like its upper-case form. */
  lemma ParseStatusIgnoresCase(s: string)
    ensures ParseStatus(s) == ParseStatus(ToUpper(s))
  {
    UpperOfUpper(s);
  }

  /** The entity `Book` (with the id and timestamps of its base class). */
  datatype Book = Book(
    id: Option<int>,
    isbn: Option<string>,
    title: Option<string>,
    subtitle: Option<string>,
    copyrightYear: Option<Int32>,
    status: Option<Status>,
    createdAt: Option<Instant>,
    updatedAt: Option<Instant>)

  /** The five columns declared `nullable = false` and `@NotNull` all hold a
      value: what a row must satisfy to be written. */
  predicate Storable(b: Book) {
    && b.isbn.Some?
    && b.title.Some?
    && b.subtitle.Some?
    && b.copyrightYear.Some?
    && b.status.Some?
  }

  /** The five data fields agree (id and timestamps aside). */
  predicate SameContent(a: Book, b: Book) {
    && a.isbn == b.isbn
    && a.title == b.title
    && a.subtitle == b.subtitle
    && a.copyrightYear == b.copyrightYear
    && a.status == b.status
  }

  /** The five-argument constructor; Java lets any argument be null. */
  function NewBook(isbn: Option<string>, title: Option<string>, subtitle: Option<string>,
                   copyrightYear: Option<Int32>, status: Option<Status>): (b: Book)
    ensures b.id.None? && b.createdAt.None? && b.updatedAt.None?
    ensures Storable(b) <==> isbn.Some? && title.Some? && subtitle.Some? && copyrightYear.Some? && status.Some?
    ensures b.isbn == isbn && b.title == title && b.subtitle == subtitle
    ensures b.copyrightYear == copyrightYear && b.status == status
  {
    Book(None, isbn, title, subtitle, copyrightYear, status, None, None)
  }
}

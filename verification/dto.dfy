/** The transfer object the services hand back to their callers. */
module Dto {
  import opened Wrappers
  import opened Numbers
  import opened Books

  /** `BookDto`: the entity's fields with the status rendered as text. */
  datatype BookDto = BookDto(
    id: Option<int>,
    isbn: Option<string>,
    title: Option<string>,
    subtitle: Option<string>,
    copyrightYear: Option<Int32>,
    status: Option<string>,
    createdAt: Option<Instant>,
    updatedAt: Option<Instant>)

  predicate IsStatusName(s: string) {
    s == "PENDING" || s == "REJECTED" || s == "APPROVED"
  }

  /** `new BookDto(book)` (Ebean service) and `toDto(book)` (JPA service),
      which map a book the same way. A null status would throw on `.name()`,
      so the book must carry one. */
  function ToDto(b: Book): (d: BookDto)
    requires b.status.Some?
    ensures d.id == b.id && d.isbn == b.isbn && d.title == b.title
    ensures d.subtitle == b.subtitle && d.copyrightYear == b.copyrightYear
    ensures d.createdAt == b.createdAt && d.updatedAt == b.updatedAt
    ensures d.status.Some? && IsStatusName(d.status.value)
    ensures ParseStatus(d.status.value) == b.status
  {
    NameRoundTrip(b.status.value);
    BookDto(b.id, b.isbn, b.title, b.subtitle, b.copyrightYear,
            Some(Name(b.status.value)), b.createdAt, b.updatedAt)
  }

  /** The mapping loses nothing: two books with the same transfer object are
      the same book. */
  lemma ToDtoInjective(a: Book, b: Book)
    requires a.status.Some? && b.status.Some?
    requires ToDto(a) == ToDto(b)
    ensures a == b
  {
    assert ParseStatus(ToDto(a).status.value) == a.status;
  }

  /** A list of books mapped one by one, as `stream().map(...)` does. */
  function Dtos(rows: seq<Book>): (r: seq<BookDto>)
    requires forall b :: b in rows ==> b.status.Some?
    ensures |r| == |rows|
    ensures forall i :: 0 <= i < |rows| ==> r[i] == ToDto(rows[i])
  {
    seq(|rows|, i requires 0 <= i < |rows| && rows[i] in rows => ToDto(rows[i]))
  }
}

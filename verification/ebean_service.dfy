/** The record service of the Ebean application (`app/services/BookService`).

    It parses path ids with `Long.parseLong`, builds new books with
    `toBook` and updates them with `updateBook` (a full replace). Each
    operation takes the store and returns its outcome with the store after
    it; the clock reading the store stamps rows with is a parameter.
 */
module EbeanService {
  import opened Wrappers
  import opened Numbers
  import opened Text
  import opened Books
  import opened Dto
  import opened Requests
  import opened BookStore
  import opened Listing

  const NotFoundPrefix: string := "Book not found with id: "
  const InvalidIdPrefix: string := "Invalid book ID format: "

  /** `create(request)`: `toBook`, then `save`. Succeeds exactly when the
      status names a constant and isbn, title and year are present (the
      subtitle is defaulted, so it never blocks the insert). */
  function Create(s: Store, req: CreateRequest, now: Instant): (r: Reply<BookDto>)
    requires Valid(s)
    ensures Valid(r.store)
    ensures r.result.Ok? || r.result.Failure?
    ensures r.result.Failure? ==> r.store == s
    ensures r.result.Ok? <==>
              && RequestStatus(req.status).Some?
              && req.isbn.Some? && req.title.Some? && req.copyrightYear.Some?
              && s.nextId <= MaxLong
    ensures r.result.Ok? ==> AddsOne(s, r.store, s.nextId)
    ensures r.result.Ok? ==> SameContent(r.store.rows[s.nextId], ToBook(req).value)
    ensures r.result.Ok? ==> r.result.value == ToDto(r.store.rows[s.nextId])
    ensures r.result.Ok? ==> r.result.value.id == Some(s.nextId)
  {
    match ToBook(req)
    case Ok(book) =>
      (match Insert(s, book, now)
       case Ok(saved) => Reply(Ok(ToDto(saved.book)), saved.store)
       case _ => Reply(Failure, s))
    case _ => Reply(Failure, s)
  }

  /** `getOne(id)`. Text `Long.parseLong` rejects is an invalid request; a
      well-formed id with no row is not found; both messages repeat the id
      text as given. */
  function GetOne(s: Store, id: string): (r: Outcome<BookDto>)
    requires Valid(s)
    ensures ParseLong(id).None? ==> r == InvalidRequest(InvalidIdPrefix + id)
    ensures ParseLong(id).Some? && ParseLong(id).value !in s.rows ==> r == NotFound(NotFoundPrefix + id)
    ensures ParseLong(id).Some? && ParseLong(id).value in s.rows ==>
              r == Ok(ToDto(s.rows[ParseLong(id).value]))
  {
    match ParseLong(id)
    case None => InvalidRequest(InvalidIdPrefix + id)
    case Some(n) =>
      match Find(s, n)
      case None => NotFound(NotFoundPrefix + id)
      case Some(book) => Ok(ToDto(book))
  }

  /** `getAll()`: one transfer object per stored row, in listing order; an
      empty table gives the empty list. */
  function GetAll(s: Store): (r: seq<BookDto>)
    requires Valid(s)
    ensures |r| == |s.rows|
    ensures forall k :: k in s.rows ==> ToDto(s.rows[k]) in r
    ensures forall d :: d in r ==> exists k :: k in s.rows && d == ToDto(s.rows[k])
  {
    AllDtos(s)
  }

  /** `update(request)`: load, `updateBook`, `save`. A null id makes Ebean's
      `byId` throw; a missing row is not found (the message prints the id as
      a `Long`); an unknown status or a null isbn, title or year fails; in
      every failing case the store is unchanged. */
  function Update(s: Store, req: UpdateRequest, now: Instant): (r: Reply<BookDto>)
    requires Valid(s)
    ensures Valid(r.store)
    ensures !r.result.Ok? ==> r.store == s
    ensures !r.result.InvalidRequest?
    ensures req.id.None? ==> r.result.Failure?
    ensures req.id.Some? && req.id.value !in s.rows ==>
              r.result == NotFound(NotFoundPrefix + LongToString(req.id.value))
    ensures r.result.Ok? <==>
              && req.id.Some? && req.id.value in s.rows
              && RequestStatus(req.status).Some?
              && req.isbn.Some? && req.title.Some? && req.copyrightYear.Some?
    ensures r.result.Ok? ==>
              var id := req.id.value;
              && id in r.store.rows
              && r.store.rows == s.rows[id := r.store.rows[id]]
              && r.store.rows[id] == UpdateBook(req, s.rows[id]).value.(updatedAt := Some(now))
              && r.result.value == ToDto(r.store.rows[id])
  {
    match req.id
    case None => Reply(Failure, s)
    case Some(id) =>
      match Find(s, id)
      case None => Reply(NotFound(NotFoundPrefix + LongToString(id)), s)
      case Some(book) =>
        match UpdateBook(req, book)
        case Ok(updated) =>
          (match Replace(s, updated, now)
           case Ok(saved) => Reply(Ok(ToDto(saved.book)), saved.store)
           case _ => Reply(Failure, s))
        case _ => Reply(Failure, s)
  }

  /** `delete(id)`: the same id parsing and not-found rule as `getOne`; on
      success exactly that row is removed. */
  function Delete(s: Store, id: string): (r: Reply<()>)
    requires Valid(s)
    ensures Valid(r.store)
    ensures !r.result.Ok? ==> r.store == s
    ensures ParseLong(id).None? ==> r.result == InvalidRequest(InvalidIdPrefix + id)
    ensures ParseLong(id).Some? && ParseLong(id).value !in s.rows ==> r.result == NotFound(NotFoundPrefix + id)
    ensures r.result.Ok? <==> ParseLong(id).Some? && ParseLong(id).value in s.rows
    ensures r.result.Ok? ==> r.store.rows == s.rows - {ParseLong(id).value}
  {
    match ParseLong(id)
    case None => Reply(InvalidRequest(InvalidIdPrefix + id), s)
    case Some(n) =>
      match Find(s, n)
      case None => Reply(NotFound(NotFoundPrefix + id), s)
      case Some(_) => Reply(Ok(()), Remove(s, n))
  }

  /** Ebean's `icontains` on title OR subtitle: the lower-cased query occurs
      somewhere in a lower-cased column; a null column never matches. */
  function Matches(b: Book, query: string): (m: bool)
    ensures m <==> || (b.title.Some? && Occurs(ToLower(query), ToLower(b.title.value)))
                   || (b.subtitle.Some? && Occurs(ToLower(query), ToLower(b.subtitle.value)))
  {
    || (b.title.Some? && ContainsIgnoreCase(b.title.value, query))
    || (b.subtitle.Some? && ContainsIgnoreCase(b.subtitle.value, query))
  }

  /** `search(query)`: exactly the rows whose title or subtitle contains the
      query ignoring case, in listing order. */
  function Search(s: Store, query: string): (r: seq<BookDto>)
    requires Valid(s)
    ensures forall d :: d in r <==> exists k :: k in s.rows && Matches(s.rows[k], query) && d == ToDto(s.rows[k])
    ensures (forall k :: k in s.rows ==> !Matches(s.rows[k], query)) ==> r == []
    ensures forall i, j :: 0 <= i < j < |r| ==> r[i] != r[j]
    ensures |r| == |set k | k in s.rows && Matches(s.rows[k], query)|
  {
    var keep := b => Matches(b, query);
    assert (set k | k in s.rows && keep(s.rows[k])) == (set k | k in s.rows && Matches(s.rows[k], query));
    MatchingDtos(s, keep)
  }

  /** `getBooks(page, pageSize)` as written: the first row is the Java `int`
      product `page * pageSize`, which wraps around past 2^31 - 1. A negative
      first row or a non-positive page size is outside what the query can
      express and is treated as a failure. */
  function GetBooks(s: Store, page: Int32, pageSize: Int32): (r: Outcome<seq<Book>>)
    requires Valid(s)
    ensures r.Ok? || r.Failure?
    ensures r.Ok? <==> WrapInt(page * pageSize) >= 0 && pageSize > 0
    ensures r.Ok? ==> |r.value| <= pageSize
    ensures r.Ok? ==> forall i :: 0 <= i < |r.value| ==>
              WrapInt(page * pageSize) + i < |Rows(s)| && r.value[i] == Rows(s)[WrapInt(page * pageSize) + i]
    ensures r.Ok? ==> |r.value| == (var first := WrapInt(page * pageSize);
              if first >= |Rows(s)| then 0 else if first + pageSize <= |Rows(s)| then pageSize else |Rows(s)| - first)
  {
    var first := WrapInt(page * pageSize);
    if first < 0 || pageSize <= 0 then Failure
    else Ok(Window(Rows(s), first, pageSize))
  }

  /** `getBooks` with the product computed without overflow, as the paging
      arithmetic evidently intends. */
  function GetBooksExact(s: Store, page: Int32, pageSize: Int32): (r: Outcome<seq<Book>>)
    requires Valid(s)
    ensures r.Ok? || r.Failure?
    ensures r.Ok? <==> page >= 0 && pageSize > 0
    ensures r.Ok? ==> |r.value| <= pageSize
    ensures r.Ok? ==> forall i :: 0 <= i < |r.value| ==>
              page * pageSize + i < |Rows(s)| && r.value[i] == Rows(s)[page * pageSize + i]
    ensures r.Ok? && page * pageSize + pageSize <= |Rows(s)| ==> |r.value| == pageSize
    ensures r.Ok? ==> |r.value| == (var first := page * pageSize;
              if first >= |Rows(s)| then 0 else if first + pageSize <= |Rows(s)| then pageSize else |Rows(s)| - first)
  {
    if page < 0 || pageSize <= 0 then Failure
    else Ok(Window(Rows(s), page * pageSize, pageSize))
  }

  /** The rows from `first` on, at most `max` of them. */
  function Window(rows: seq<Book>, first: nat, max: nat): (w: seq<Book>)
    ensures |w| <= max
    ensures |w| == if first >= |rows| then 0 else if first + max <= |rows| then max else |rows| - first
    ensures forall i :: 0 <= i < |w| ==> first + i < |rows| && w[i] == rows[first + i]
  {
    if first >= |rows| then []
    else if first + max <= |rows| then rows[first..first + max]
    else rows[first..]
  }

  /** Every stored row is found under the text of its id. */
  lemma GetOneFindsStoredRow(s: Store, k: int)
    requires Valid(s)
    requires k in s.rows
    ensures GetOne(s, LongToString(k)) == Ok(ToDto(s.rows[k]))
  {
    ParseLongOfLongToString(k);
  }

  /** Create, then read back under the returned id: the same transfer object. */
  lemma CreateThenGetOne(s: Store, req: CreateRequest, now: Instant)
    requires Valid(s)
    requires Create(s, req, now).result.Ok?
    ensures var r := Create(s, req, now);
            GetOne(r.store, LongToString(r.result.value.id.value)) == r.result
  {
    GetOneFindsStoredRow(Create(s, req, now).store, s.nextId);
  }

  /** Update, then read back: the new field values (write-then-read). */
  lemma UpdateThenGetOne(s: Store, req: UpdateRequest, now: Instant)
    requires Valid(s)
    requires Update(s, req, now).result.Ok?
    ensures var r := Update(s, req, now);
            GetOne(r.store, LongToString(req.id.value)) == r.result
  {
    GetOneFindsStoredRow(Update(s, req, now).store, req.id.value);
  }

  /** Deletion is final: reading the same id afterwards is not found. */
  lemma DeleteThenGetOne(s: Store, id: string)
    requires Valid(s)
    requires Delete(s, id).result.Ok?
    ensures GetOne(Delete(s, id).store, id) == NotFound(NotFoundPrefix + id)
  {
  }

  /** The service does not guard against an empty query: it matches every
      row, so the search lists the whole table. */
  lemma SearchEmptyQueryListsAll(s: Store)
    requires Valid(s)
    ensures forall k :: k in s.rows ==> ToDto(s.rows[k]) in Search(s, "")
  {
    forall k | k in s.rows ensures Matches(s.rows[k], "") {
      var t := ToLower(s.rows[k].title.value);
      assert IsPrefix(ToLower(""), t[0..]);
    }
  }

  /** Without overflow, the as-written paging and the exact one agree. */
  lemma GetBooksAgreesWithoutOverflow(s: Store, page: Int32, pageSize: Int32)
    requires Valid(s)
    requires 0 <= page * pageSize <= MaxInt
    requires pageSize > 0
    ensures GetBooks(s, page, pageSize) == GetBooksExact(s, page, pageSize)
  {
  }

  /** The overflow: page 65536 of size 65536 starts at row 2^32, which wraps
      to row 0, so a non-empty table of at most 2^32 rows answers with its
      first page instead of the empty page past its end. */
  lemma GetBooksWrapsAround(s: Store)
    requires Valid(s)
    requires 0 < |s.rows| <= 0x1_0000_0000
    ensures GetBooks(s, 65536, 65536).Ok?
    ensures |GetBooks(s, 65536, 65536).value| > 0
    ensures GetBooks(s, 65536, 65536).value[0] == Rows(s)[0]
    ensures GetBooksExact(s, 65536, 65536) == Ok([])
  {
    RowsCount(s);
    assert WrapInt(65536 * 65536) == 0;
  }
}


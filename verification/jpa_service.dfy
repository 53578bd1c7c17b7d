/** The record service of the JPA application
    (`backend/app/services/BookServiceImpl`).

    It differs from the Ebean service in three ways: path ids go to
    `em.find` as the text they arrived as, so it is the persistence provider
    that converts them to the `Long` key, and text that does not convert is
    an untyped exception rather than a bad request; a create
    copies the subtitle as given, with no `""` default; and an update merges,
    overwriting only the fields the request carries. Its not-found texts
    differ too.
 */
module JpaService {
  import opened Wrappers
  import opened Numbers
  import opened Text
  import opened SqlLike
  import opened Books
  import opened Dto
  import opened Requests
  import opened BookStore
  import opened Listing

  const GetOneNotFound: string := "Book not found"
  const NotFoundPrefix: string := "Book not found with id: "

  /** `em.find(Book.class, id)` with the path text as the key. The provider
      coerces the text to the entity's `Long` id type with `Long.parseLong`,
      so "007" and "+7" both name row 7, and text that does not convert
      throws (`Failure`). A converted key finds its row or nothing. */
  function FindKey(s: Store, id: string): (r: Outcome<Option<int>>)
    ensures r.Ok? || r.Failure?
    ensures r.Failure? <==> !(LongSyntax(id) && InLongRange(LiteralValue(id)))
    ensures r.Ok? ==> (r.value.Some? <==> LiteralValue(id) in s.rows)
    ensures r.Ok? && r.value.Some? ==> r.value.value == LiteralValue(id)
  {
    match ParseLong(id)
    case None => Failure
    case Some(n) => if n in s.rows then Ok(Some(n)) else Ok(None)
  }

  /** `create(request)`: the fields are set one by one, the subtitle as
      given; the status is upper-cased and looked up (a null or unknown
      status throws); the year is set only when present. `persist` then
      rejects a row with a null column, so a request without a subtitle
      fails here where the Ebean service would store `""`. */
  function Create(s: Store, req: CreateRequest, now: Instant): (r: Reply<BookDto>)
    requires Valid(s)
    ensures Valid(r.store)
    ensures r.result.Ok? || r.result.Failure?
    ensures r.result.Failure? ==> r.store == s
    ensures r.result.Ok? <==>
              && RequestStatus(req.status).Some?
              && req.isbn.Some? && req.title.Some? && req.subtitle.Some? && req.copyrightYear.Some?
              && s.nextId <= MaxLong
    ensures r.result.Ok? ==> AddsOne(s, r.store, s.nextId)
    ensures r.result.Ok? ==>
              var row := r.store.rows[s.nextId];
              && row.isbn == req.isbn && row.title == req.title && row.subtitle == req.subtitle
              && row.copyrightYear == req.copyrightYear
              && row.status.Some? && Name(row.status.value) == ToUpper(req.status.value)
              && r.result.value == ToDto(row)
  {
    match RequestStatus(req.status)
    case None => Reply(Failure, s)
    case Some(st) =>
      var book := NewBook(req.isbn, req.title, req.subtitle, req.copyrightYear, Some(st));
      match Insert(s, book, now)
      case Ok(saved) => Reply(Ok(ToDto(saved.book)), saved.store)
      case _ => Reply(Failure, s)
  }

  /** `getOne(id)`: the row under the converted key, or not found with a
      message that does not repeat the id. Nothing is rejected as a bad
      request: text that does not convert is the provider's exception. */
  function GetOne(s: Store, id: string): (r: Outcome<BookDto>)
    requires Valid(s)
    ensures r.Ok? || r.NotFound? || r.Failure?
    ensures r.Failure? <==> ParseLong(id).None?
    ensures r.NotFound? ==> r.message == GetOneNotFound
    ensures r.NotFound? <==> ParseLong(id).Some? && ParseLong(id).value !in s.rows
    ensures r.Ok? ==> ParseLong(id).Some? && ParseLong(id).value in s.rows
                      && r.value == ToDto(s.rows[ParseLong(id).value])
  {
    match FindKey(s, id)
    case Ok(Some(k)) => Ok(ToDto(s.rows[k]))
    case Ok(None) => NotFound(GetOneNotFound)
    case _ => Failure
  }

  /** The field-by-field merge of `update`: a field the request leaves null
      keeps the stored value; a present status is upper-cased and looked up,
      and an unknown one throws. Id and timestamps are never touched. */
  function Merge(req: UpdateRequest, book: Book): (r: Outcome<Book>)
    ensures r.Ok? || r.Failure?
    ensures r.Ok? <==> req.status.None? || RequestStatus(req.status).Some?
    ensures r.Ok? ==> r.value.id == book.id
    ensures r.Ok? ==> r.value.createdAt == book.createdAt && r.value.updatedAt == book.updatedAt
    ensures r.Ok? && req.isbn.Some? ==> r.value.isbn == req.isbn
    ensures r.Ok? && req.isbn.None? ==> r.value.isbn == book.isbn
    ensures r.Ok? && req.title.Some? ==> r.value.title == req.title
    ensures r.Ok? && req.title.None? ==> r.value.title == book.title
    ensures r.Ok? && req.subtitle.Some? ==> r.value.subtitle == req.subtitle
    ensures r.Ok? && req.subtitle.None? ==> r.value.subtitle == book.subtitle
    ensures r.Ok? && req.copyrightYear.Some? ==> r.value.copyrightYear == req.copyrightYear
    ensures r.Ok? && req.copyrightYear.None? ==> r.value.copyrightYear == book.copyrightYear
    ensures r.Ok? && req.status.Some? ==> r.value.status.Some? && Name(r.value.status.value) == ToUpper(req.status.value)
    ensures r.Ok? && req.status.None? ==> r.value.status == book.status
  {
    var status := if req.status.Some? then RequestStatus(req.status) else book.status;
    if req.status.Some? && status.None? then Failure
    else
      Ok(book.(isbn := Keep(req.isbn, book.isbn), title := Keep(req.title, book.title),
               subtitle := Keep(req.subtitle, book.subtitle),
               copyrightYear := Keep(req.copyrightYear, book.copyrightYear), status := status))
  }

  /** The request's value if it has one, the stored one otherwise. */
  function Keep<T>(given: Option<T>, stored: Option<T>): Option<T> {
    if given.Some? then given else stored
  }

  /** `update(request)`: find by the request's id (a null id makes `em.find`
      throw), merge, `merge` and `flush`. Any failure leaves the store as it
      was; a success changes that one row and nothing else. */
  function Update(s: Store, req: UpdateRequest, now: Instant): (r: Reply<BookDto>)
    requires Valid(s)
    ensures Valid(r.store)
    ensures !r.result.Ok? ==> r.store == s
    ensures !r.result.InvalidRequest?
    ensures req.id.None? ==> r.result.Failure?
    ensures req.id.Some? && req.id.value !in s.rows ==>
              r.result == NotFound(NotFoundPrefix + LongToString(req.id.value))
    ensures r.result.Ok? <==>
              && req.id.Some? && req.id.value in s.rows
              && (req.status.None? || RequestStatus(req.status).Some?)
    ensures r.result.Ok? ==>
              var id := req.id.value;
              && id in r.store.rows
              && r.store.rows == s.rows[id := r.store.rows[id]]
              && r.store.rows[id] == Merge(req, s.rows[id]).value.(updatedAt := Some(now))
              && r.store.rows[id].id == Some(id)
              && r.result.value == ToDto(r.store.rows[id])
  {
    match req.id
    case None => Reply(Failure, s)
    case Some(id) =>
      match Find(s, id)
      case None => Reply(NotFound(NotFoundPrefix + LongToString(id)), s)
      case Some(book) =>
        match Merge(req, book)
        case Ok(merged) =>
          MergeKeepsStorable(req, book);
          (match Replace(s, merged, now)
           case Ok(saved) => Reply(Ok(ToDto(saved.book)), saved.store)
           case _ => Reply(Failure, s))
        case _ => Reply(Failure, s)
  }

  /** `delete(id)`: the same key lookup as `getOne`, but the not-found
      message repeats the id text as given; on success that row alone is
      removed, and text that does not convert leaves the store as it was. */
  function Delete(s: Store, id: string): (r: Reply<()>)
    requires Valid(s)
    ensures Valid(r.store)
    ensures r.result.Ok? || r.result.NotFound? || r.result.Failure?
    ensures !r.result.Ok? ==> r.store == s
    ensures r.result.Failure? <==> ParseLong(id).None?
    ensures r.result.NotFound? ==> r.result.message == NotFoundPrefix + id
    ensures r.result.NotFound? <==> ParseLong(id).Some? && ParseLong(id).value !in s.rows
    ensures r.result.Ok? ==> ParseLong(id).Some? && ParseLong(id).value in s.rows
                             && r.store.rows == s.rows - {ParseLong(id).value}
  {
    match FindKey(s, id)
    case Ok(Some(k)) => Reply(Ok(()), Remove(s, k))
    case Ok(None) => Reply(NotFound(NotFoundPrefix + id), s)
    case _ => Reply(Failure, s)
  }

  /** The `WHERE` clause of `search`: `LOWER(column) LIKE LOWER(pattern)`
      on title OR subtitle; a null column never matches. For a query free
      of `%` and `_` this is case-insensitive substring search. */
  function JpaMatches(b: Book, query: string): (m: bool)
    ensures b.title.None? && b.subtitle.None? ==> !m
    ensures NoWildcards(query) ==>
              (m <==> || (b.title.Some? && Occurs(ToLower(query), ToLower(b.title.value)))
                      || (b.subtitle.Some? && Occurs(ToLower(query), ToLower(b.subtitle.value))))
  {
    var pattern := ToLower("%" + query + "%");
    assert NoWildcards(query) ==> forall t :: Like(ToLower(t), pattern) <==> Occurs(ToLower(query), ToLower(t)) by {
      if NoWildcards(query) {
        ToLowerAppend("%" + query, "%");
        ToLowerAppend("%", query);
        assert pattern == "%" + ToLower(query) + "%";
        forall t ensures Like(ToLower(t), pattern) <==> Occurs(ToLower(query), ToLower(t)) {
          LikeSurroundedIsContains(ToLower(t), ToLower(query));
        }
      }
    }
    || (b.title.Some? && Like(ToLower(b.title.value), pattern))
    || (b.subtitle.Some? && Like(ToLower(b.subtitle.value), pattern))
  }

  /** `search(query)`: the rows the pattern `"%" + query + "%"` selects. The
      query is not escaped, so `%` and `_` in it act as wildcards. No match
      is an empty list. */
  function Search(s: Store, query: string): (r: seq<BookDto>)
    requires Valid(s)
    ensures forall d :: d in r <==> exists k :: k in s.rows && JpaMatches(s.rows[k], query) && d == ToDto(s.rows[k])
    ensures (forall k :: k in s.rows ==> !JpaMatches(s.rows[k], query)) ==> r == []
    ensures forall i, j :: 0 <= i < j < |r| ==> r[i] != r[j]
    ensures |r| == |set k | k in s.rows && JpaMatches(s.rows[k], query)|
  {
    var keep := b => JpaMatches(b, query);
    assert (set k | k in s.rows && keep(s.rows[k])) == (set k | k in s.rows && JpaMatches(s.rows[k], query));
    MatchingDtos(s, keep)
  }

  /** The merge keeps a complete row complete: it only ever replaces a
      column with a present value. */
  lemma MergeKeepsStorable(req: UpdateRequest, book: Book)
    requires Storable(book)
    requires Merge(req, book).Ok?
    ensures Storable(Merge(req, book).value)
  {
  }

  /** A request with every field null changes nothing. */
  lemma MergeOfNothingIsIdentity(req: UpdateRequest, book: Book)
    requires req.isbn.None? && req.title.None? && req.subtitle.None?
    requires req.copyrightYear.None? && req.status.None?
    ensures Merge(req, book) == Ok(book)
  {
  }

  /** Merging the same request twice gives what merging it once gives. */
  lemma MergeIdempotent(req: UpdateRequest, book: Book)
    requires Merge(req, book).Ok?
    ensures Merge(req, Merge(req, book).value) == Merge(req, book)
  {
  }

  /** Every stored row is found under the decimal text of its id. */
  lemma GetOneFindsStoredRow(s: Store, k: int)
    requires Valid(s)
    requires k in s.rows
    ensures GetOne(s, LongToString(k)) == Ok(ToDto(s.rows[k]))
  {
    ParseLongOfLongToString(k);
  }

  /** Update, then read back under the same id: the merged row. */
  lemma UpdateThenGetOne(s: Store, req: UpdateRequest, now: Instant)
    requires Valid(s)
    requires Update(s, req, now).result.Ok?
    ensures var r := Update(s, req, now);
            GetOne(r.store, LongToString(req.id.value)) == r.result
  {
    GetOneFindsStoredRow(Update(s, req, now).store, req.id.value);
  }

  /** Deletion is final: reading the same text afterwards is not found. */
  lemma DeleteThenGetOne(s: Store, id: string)
    requires Valid(s)
    requires Delete(s, id).result.Ok?
    ensures GetOne(Delete(s, id).store, id) == NotFound(GetOneNotFound)
  {
  }

  /** The key is the converted number, not the text: a padded or signed
      spelling of an id finds the same row as its decimal form. */
  lemma SpellingsOfOneId(s: Store)
    requires Valid(s)
    requires 7 in s.rows
    ensures GetOne(s, "007") == Ok(ToDto(s.rows[7]))
    ensures GetOne(s, "+7") == GetOne(s, "007")
    ensures Delete(s, "+7").result == Ok(()) && Delete(s, "+7").store.rows == s.rows - {7}
  {
    ParseLongIsLiberal();
  }
}

/** `BookController`: each action calls the record service and turns its
    result, or the exception it throws, into an HTTP status and an envelope.

    The controller is written against the service interface, so each action
    takes the backend it runs on. The asynchronous wrapping, Play's `Result`
    and Jackson are left out; the request body is reduced to the three cases
    the action distinguishes. The typed exceptions are the outcomes
    `NotFound` and `InvalidRequest`; every other exception is `Failure`.
 */
module BookController {
  import opened Wrappers
  import opened Numbers
  import opened Text
  import opened Books
  import opened Dto
  import opened Requests
  import opened BookStore
  import opened ApiResponses
  import EbeanService
  import JpaService
  import Listing

  /** Which implementation of the service interface is injected. */
  datatype Backend = Ebean | Jpa

  datatype Operation = CreateOp | GetOneOp | GetAllOp | UpdateOp | DeleteOp | SearchOp

  /** What a success envelope carries: one book, a list, or nothing. */
  datatype Payload = Single(dto: BookDto) | List(dtos: seq<BookDto>) | NoData

  datatype Response = Response(status: int, body: ApiResponse<Payload>)

  /** A response and the store after the action. */
  datatype Handled = Handled(response: Response, store: Store)

  /** The request body: no JSON at all, JSON that `Json.fromJson` cannot
      bind (it throws), or a bound request. */
  datatype Body<+R> = NoJson | Unmappable | Json(request: R)

  const InvalidJson: string := "Invalid JSON data"
  const QueryRequired: string := "Query parameter is required"
  const Deleted: string := "Book deleted successfully"

  /** The fixed text each action answers with on an untyped failure. */
  function FailureText(op: Operation): string {
    match op
    case CreateOp => "Failed to create book"
    case GetOneOp => "Failed to get book"
    case GetAllOp => "Failed to get books"
    case UpdateOp => "Failed to update book"
    case DeleteOp => "Failed to delete book"
    case SearchOp => "Failed to search books"
  }

  /** The actions with a `catch (BookNotFoundException e)` clause. */
  predicate CatchesNotFound(op: Operation) {
    op == GetOneOp || op == UpdateOp || op == DeleteOp
  }

  /** The actions with a `catch (BookInvalidRequestException e)` clause. */
  predicate CatchesInvalidRequest(op: Operation) {
    op == CreateOp || op == GetOneOp || op == UpdateOp || op == DeleteOp
  }

  /** The `try` block's result and its `catch` clauses: 200 with a success
      envelope; 404 or 400 with the exception's message where the action
      catches that exception; 500 with the action's fixed text otherwise.
      A delete answers with the message overload, so it has no data. */
  function Answer(op: Operation, o: Outcome<Payload>): (r: Response)
    ensures r.status == 200 <==> o.Ok?
    ensures r.status == 404 <==> o.NotFound? && CatchesNotFound(op)
    ensures r.status == 400 <==> o.InvalidRequest? && CatchesInvalidRequest(op)
    ensures r.status == 500 <==>
              && !o.Ok?
              && !(o.NotFound? && CatchesNotFound(op))
              && !(o.InvalidRequest? && CatchesInvalidRequest(op))
    ensures r.body.success <==> r.status == 200
    ensures r.status == 200 ==> SuccessShaped(r.body)
    ensures r.status != 200 ==> ErrorShaped(r.body) && r.body.data.None?
    ensures r.status == 200 && op != DeleteOp ==> r.body == Success(o.value)
    ensures r.status == 200 && op == DeleteOp ==> r.body == SuccessMessage(Deleted)
    ensures r.status == 404 || r.status == 400 ==> r.body.error == Some(o.message)
    ensures r.status == 500 ==> r.body.error == Some(FailureText(op))
  {
    match o
    case Ok(p) => Response(200, if op == DeleteOp then SuccessMessage(Deleted) else Success(p))
    case NotFound(m) =>
      if CatchesNotFound(op) then Response(404, Error(m)) else Response(500, Error(FailureText(op)))
    case InvalidRequest(m) =>
      if CatchesInvalidRequest(op) then Response(400, Error(m)) else Response(500, Error(FailureText(op)))
    case Failure => Response(500, Error(FailureText(op)))
  }

  /** The service's outcome with its value placed in the envelope's payload. */
  function Lift<T>(o: Outcome<T>, f: T -> Payload): (r: Outcome<Payload>)
    ensures r.Ok? <==> o.Ok?
    ensures r.Ok? ==> r.value == f(o.value)
    ensures !o.Ok? ==> (r.NotFound? <==> o.NotFound?) && (r.InvalidRequest? <==> o.InvalidRequest?)
    ensures o.NotFound? || o.InvalidRequest? ==> r.message == o.message
  {
    match o
    case Ok(v) => Ok(f(v))
    case NotFound(m) => NotFound(m)
    case InvalidRequest(m) => InvalidRequest(m)
    case Failure => Failure
  }

  function ServiceCreate(b: Backend, s: Store, req: CreateRequest, now: Instant): (r: Reply<BookDto>)
    requires Valid(s)
    ensures Valid(r.store)
    ensures !r.result.Ok? ==> r.store == s
    ensures r.result.Ok? || r.result.Failure?
  {
    match b
    case Ebean => EbeanService.Create(s, req, now)
    case Jpa => JpaService.Create(s, req, now)
  }

  function ServiceGetOne(b: Backend, s: Store, id: string): (r: Outcome<BookDto>)
    requires Valid(s)
  {
    match b
    case Ebean => EbeanService.GetOne(s, id)
    case Jpa => JpaService.GetOne(s, id)
  }

  function ServiceGetAll(b: Backend, s: Store): (r: seq<BookDto>)
    requires Valid(s)
    ensures |r| == |s.rows|
  {
    match b
    case Ebean => EbeanService.GetAll(s)
    case Jpa => Listing.AllDtos(s)
  }

  function ServiceUpdate(b: Backend, s: Store, req: UpdateRequest, now: Instant): (r: Reply<BookDto>)
    requires Valid(s)
    ensures Valid(r.store)
    ensures !r.result.Ok? ==> r.store == s
    ensures !r.result.InvalidRequest?
  {
    match b
    case Ebean => EbeanService.Update(s, req, now)
    case Jpa => JpaService.Update(s, req, now)
  }

  function ServiceDelete(b: Backend, s: Store, id: string): (r: Reply<()>)
    requires Valid(s)
    ensures Valid(r.store)
    ensures !r.result.Ok? ==> r.store == s
  {
    match b
    case Ebean => EbeanService.Delete(s, id)
    case Jpa => JpaService.Delete(s, id)
  }

  function ServiceSearch(b: Backend, s: Store, query: string): (r: seq<BookDto>)
    requires Valid(s)
  {
    match b
    case Ebean => EbeanService.Search(s, query)
    case Jpa => JpaService.Search(s, query)
  }

  /** `POST /api/books`. No JSON: 400 before the service is called. A body
      that does not bind: 500. Otherwise the service's outcome, through the
      create action's catch clauses, which do not include not-found. */
  function Create(b: Backend, s: Store, body: Body<CreateRequest>, now: Instant): (h: Handled)
    requires Valid(s)
    ensures Valid(h.store)
    ensures h.response.status != 200 ==> h.store == s
    ensures body.NoJson? ==> h.response == Response(400, Error(InvalidJson))
    ensures body.Unmappable? ==> h.response == Response(500, Error(FailureText(CreateOp)))
    ensures body.Json? ==>
              var reply := ServiceCreate(b, s, body.request, now);
              && h.store == reply.store
              && h.response == Answer(CreateOp, Lift(reply.result, d => Single(d)))
  {
    match body
    case NoJson => Handled(Response(400, Error(InvalidJson)), s)
    case Unmappable => Handled(Response(500, Error(FailureText(CreateOp))), s)
    case Json(req) =>
      var reply := ServiceCreate(b, s, req, now);
      Handled(Answer(CreateOp, Lift(reply.result, d => Single(d))), reply.store)
  }

  /** `GET /api/books/:id`. */
  function GetOne(b: Backend, s: Store, id: string): (r: Response)
    requires Valid(s)
    ensures var o := ServiceGetOne(b, s, id);
            && (r.status == 200 <==> o.Ok?)
            && (r.status == 404 <==> o.NotFound?)
            && (r.status == 400 <==> o.InvalidRequest?)
            && (o.Ok? ==> r.body == Success(Single(o.value)))
            && (o.NotFound? || o.InvalidRequest? ==> r.body == Error(o.message))
            && (o.Failure? ==> r == Response(500, Error(FailureText(GetOneOp))))
  {
    Answer(GetOneOp, Lift(ServiceGetOne(b, s, id), d => Single(d)))
  }

  /** `GET /api/books`: the list cannot fail in this model, so always 200. */
  function GetAll(b: Backend, s: Store): (r: Response)
    requires Valid(s)
    ensures r.status == 200
    ensures r.body == Success(List(ServiceGetAll(b, s)))
  {
    Answer(GetAllOp, Ok(List(ServiceGetAll(b, s))))
  }

  /** `PATCH /api/books`: as create, with the not-found clause. */
  function Update(b: Backend, s: Store, body: Body<UpdateRequest>, now: Instant): (h: Handled)
    requires Valid(s)
    ensures Valid(h.store)
    ensures h.response.status != 200 ==> h.store == s
    ensures h.response.status != 400 || body.NoJson?
    ensures body.NoJson? ==> h.response == Response(400, Error(InvalidJson))
    ensures body.Unmappable? ==> h.response == Response(500, Error(FailureText(UpdateOp)))
    ensures body.Json? ==>
              var reply := ServiceUpdate(b, s, body.request, now);
              && h.store == reply.store
              && h.response == Answer(UpdateOp, Lift(reply.result, d => Single(d)))
  {
    match body
    case NoJson => Handled(Response(400, Error(InvalidJson)), s)
    case Unmappable => Handled(Response(500, Error(FailureText(UpdateOp))), s)
    case Json(req) =>
      var reply := ServiceUpdate(b, s, req, now);
      Handled(Answer(UpdateOp, Lift(reply.result, d => Single(d))), reply.store)
  }

  /** `DELETE /api/books/:id`. */
  function Delete(b: Backend, s: Store, id: string): (h: Handled)
    requires Valid(s)
    ensures Valid(h.store)
    ensures h.response.status != 200 ==> h.store == s
    ensures var reply := ServiceDelete(b, s, id);
            && h.store == reply.store
            && (reply.result.Ok? ==> h.response == Response(200, SuccessMessage(Deleted)))
            && (reply.result.NotFound? ==> h.response == Response(404, Error(reply.result.message)))
            && (reply.result.InvalidRequest? ==> h.response == Response(400, Error(reply.result.message)))
            && (reply.result.Failure? ==> h.response == Response(500, Error(FailureText(DeleteOp))))
  {
    var reply := ServiceDelete(b, s, id);
    Handled(Answer(DeleteOp, Lift(reply.result, _ => NoData)), reply.store)
  }

  /** `GET /api/books/search?query=...`: a missing query, or one that
      `trim()` empties, is refused before the service is called. */
  function Search(b: Backend, s: Store, query: Option<string>): (r: Response)
    requires Valid(s)
    ensures query.None? || JavaBlank(query.value) ==> r == Response(400, Error(QueryRequired))
    ensures query.Some? && !JavaBlank(query.value) ==>
              r.status == 200 && r.body == Success(List(ServiceSearch(b, s, query.value)))
  {
    if query.None? || JavaBlank(query.value) then Response(400, Error(QueryRequired))
    else Answer(SearchOp, Ok(List(ServiceSearch(b, s, query.value))))
  }

  /** An unknown or missing status on create is a server error, not a bad
      request, on either backend, and nothing is stored. */
  lemma UnknownStatusOnCreateIsServerError(b: Backend, s: Store, req: CreateRequest, now: Instant)
    requires Valid(s)
    requires RequestStatus(req.status).None?
    ensures Create(b, s, Json(req), now) == Handled(Response(500, Error(FailureText(CreateOp))), s)
  {
    match b
    case Ebean =>
    case Jpa =>
  }

  /** With a JSON body, create never answers 400: neither service throws the
      typed invalid-request exception on create. */
  lemma CreateWithJsonIsNeverBadRequest(b: Backend, s: Store, req: CreateRequest, now: Instant)
    requires Valid(s)
    ensures Create(b, s, Json(req), now).response.status in {200, 500}
  {
  }

  /** A malformed id on the Ebean backend is a bad request naming the id; on
      the JPA backend the provider's failed key conversion is an untyped
      exception, answered as a server error. */
  lemma MalformedIdOnGetOne(s: Store, id: string)
    requires Valid(s)
    requires ParseLong(id).None?
    ensures GetOne(Ebean, s, id) == Response(400, Error(EbeanService.InvalidIdPrefix + id))
    ensures GetOne(Jpa, s, id) == Response(500, Error(FailureText(GetOneOp)))
  {
  }

  /** A successful delete answers 200 with the fixed message and no data. */
  lemma DeleteAnswersWithMessage(b: Backend, s: Store, k: int)
    requires Valid(s)
    requires k in s.rows
    ensures Delete(b, s, LongToString(k)).response == Response(200, SuccessMessage(Deleted))
    ensures Delete(b, s, LongToString(k)).store.rows == s.rows - {k}
  {
    ParseLongOfLongToString(k);
  }

  /** An empty table lists as an empty array with status 200, not an error. */
  lemma EmptyTableListsNothing(b: Backend)
    ensures GetAll(b, Empty) == Response(200, Success(List([])))
  {
    EmptyIsValid();
  }
}

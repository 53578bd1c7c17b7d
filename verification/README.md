# Book-Play catalogue core, modelled in Dafny

Book-Play is a small book catalogue. A Play back end stores books (isbn,
title, subtitle, copyright year, and a status of PENDING, REJECTED or
APPROVED) and serves create, read, list, update, delete and search over
HTTP. A React client validates the book form and keeps the list in a Redux
slice. The repository carries two back-end record services behind the same
controller, and they do not behave alike:

- the Ebean service (`app/services/BookService.java`) parses path ids with
  `Long.parseLong` and updates by full replace;
- the JPA service (`backend/app/services/BookServiceImpl.java`) passes the
  id text straight to `em.find`, whose provider converts it to the `Long`
  key with `Long.parseLong` (text that does not convert is an untyped
  exception, not a bad request), updates by a null-means-keep merge, and
  searches with `LIKE`.

The model has these parts:

- **Java values.** Longs and ints with explicit ranges and 32-bit
  wrap-around, `Long.parseLong` and `Long.toString` (`numbers.dfy`).
- **Text.** ASCII case mapping, Java and JavaScript blankness, substring
  search, and an SQL `LIKE` matcher (`text.dfy`).
- **Entity, transfer object and requests.** The entity with its status enum
  (`books.dfy`), the transfer object (`dto.dfy`), and the create/update
  requests with `toBook` and `updateBook` (`requests.dfy`).
- **Store.** The table as a map from id to row, a listing order and an
  identity counter, with the invariant every operation keeps
  (`store.dfy`, `listing.dfy`).
- **The two services**, each operation a pure function from the store to
  an outcome and the next store (`ebean_service.dfy`, `jpa_service.dfy`).
- **Controller.** The response envelope (`api_response.dfy`) and the
  controller's outcome-to-HTTP table, over either backend
  (`controller.dfy`).
- **Client.** The form validator (`validation.dfy`) and the list reducers
  (`book_slice.dfy`).
- **Cross-checks.** Where the two services and the client agree, and
  concrete inputs where they do not (`consistency.dfy`).

Outcomes are `Ok(value)`, `NotFound(message)`, `InvalidRequest(message)`
(the two typed exceptions), or `Failure` (any other exception). The clock
is a parameter `now`.

Where the code and its tests or design notes disagree, the model follows
the code:

- **Delete response.** A successful delete answers
  `success("Book deleted successfully")`. Java picks the `success(String
  message)` overload, so the text is in `message` and `data` is absent. The
  controller test reads it from `data`.
- **Error text.** `ApiResponse.error` puts its text in `error`. The
  controller tests read `message`.
- **Request constraints are not enforced.** The constraints declared on the
  request classes (`@NotBlank`, `@NotNull`) are never checked:
  `Json.fromJson` does not validate, and neither service does. A blank title
  is stored (`Requests.BlankTitleStillBuilds`). A null isbn, title or year
  fails only when the store rejects the row.
- **Unknown status.** An unknown status throws `IllegalArgumentException`,
  not the typed invalid-request exception, so create answers 500
  (`BookController.UnknownStatusOnCreateIsServerError`).
- **Subtitle default.** The JPA create copies the subtitle as given, so a
  missing subtitle makes the insert fail on the non-null column. The Ebean
  service stores `""` instead (`Consistency.NullSubtitleOnCreate`).
- **Update semantics.** The Ebean update is a full replace. A null field is
  written as null, which the store then rejects
  (`Consistency.NullTitleOnUpdate`).

## Model

| member | source | states |
|---|---|---|
| Numbers.WrapInt | app/services/BookService.java:103 | the Java `int` product is the exact product reduced modulo 2^32 into the signed range, and equals it when it fits |
| Numbers.NatToDigits | app/services/BookService.java:60 | the digits of a natural number are canonical (at least one digit, no leading zero unless the number is 0) and their decimal value is the number |
| Numbers.LongToString | app/services/BookService.java:60 | the printed id starts with a sign exactly when the id is negative, and then with `-`; the rest is the canonical decimal digits of the magnitude (value equal to it, no leading zero) |
| Numbers.ParseLong | app/services/BookService.java:27-36 | a literal is accepted exactly when it is an optionally signed digit string whose value is in the 64-bit range, and then its value is the literal's value (digits read in base 10, negated after `-`) |
| Numbers.ParseLongIsLiberal | app/services/BookService.java:27-36 | leading zeros and a `+` sign are accepted ("007" and "+7" give 7, "-0" gives 0); the empty text, a lone sign and trailing letters are rejected |
| Numbers.ParseLongOfLongToString | app/services/BookService.java:27-33 | parsing the printed form of any long gives the long back |
| Numbers.LongToStringInjective | backend/app/services/BookServiceImpl.java:58 | distinct longs print differently, so an id text names at most one row |
| Text.ToUpper | app/models/request/BookCreateRequest.java:41 | upper-casing keeps the length and maps each character on its own |
| Text.ToLower | backend/app/services/BookServiceImpl.java:132 | lower-casing keeps the length and maps each character on its own |
| Text.ToLowerAppend | backend/app/services/BookServiceImpl.java:132-135 | lower-casing the concatenated pattern is concatenating the lower-cased parts |
| Text.Contains | app/services/BookService.java:88-89 | the scan answers true exactly when the query occurs at some position of the text |
| SqlLike.Like | backend/app/services/BookServiceImpl.java:132-135 | `LIKE` without wildcards in the pattern is equality: such a pattern matches exactly itself |
| SqlLike.LikeLiteralThenAny | backend/app/services/BookServiceImpl.java:135 | a wildcard-free literal followed by `%` matches exactly the texts it is a prefix of |
| SqlLike.LikeAnyMatchesAll | backend/app/services/BookServiceImpl.java:135 | a lone `%` matches every text, the empty one included |
| SqlLike.LikeAnyThen | backend/app/services/BookServiceImpl.java:135 | a leading `%` matches when the rest matches some suffix |
| SqlLike.LikeSurroundedIsContains | backend/app/services/BookServiceImpl.java:131-135 | for a query without `%` or `_`, matching `"%" + q + "%"` is substring containment |
| Books.ParseStatus | app/models/request/BookCreateRequest.java:41 | a status parses to a constant exactly when its upper-cased text is that constant's name |
| Books.NameRoundTrip | backend/app/models/Book.java:32-33 | the stored name of each status parses back to the same status |
| Books.ParseStatusIgnoresCase | app/models/request/BookUpdateRequest.java:44 | any spelling parses like its upper-case form |
| Books.NewBook | backend/app/models/Book.java:41-47 | the five-argument constructor sets each field to its argument, leaves id and timestamps unset, and the row is storable exactly when all five are present |
| Dto.ToDto | app/models/dto/BookDto.java:31-39 | every field is copied and the status becomes one of the three upper-case names, which parses back to the entity's status |
| Dto.ToDtoInjective | backend/app/services/BookServiceImpl.java:145-156 | two books with the same transfer object are the same book: the mapping loses nothing |
| Dto.Dtos | backend/app/services/BookServiceImpl.java:75-77 | mapping a list keeps its length and maps element by element in order |
| Requests.RequestStatus | app/models/request/BookCreateRequest.java:41 | a null status or one naming no constant is rejected; otherwise the constant's name is the upper-cased text |
| Requests.ToBook | app/models/request/BookCreateRequest.java:35-43 | succeeds exactly when the status parses; isbn, title and year copied, a null subtitle becomes `""`, id and timestamps unset; the failure is never the typed invalid-request one |
| Requests.UpdateBook | app/models/request/BookUpdateRequest.java:39-45 | succeeds exactly when the status parses; isbn, title and year overwritten, a null subtitle becomes `""`, id and timestamps untouched |
| Requests.UpdateBookIdempotent | app/models/request/BookUpdateRequest.java:39-45 | applying the same update twice gives the record applying it once gives |
| Requests.UpdateBookForgetsOldContent | app/models/request/BookUpdateRequest.java:39-45 | a full replace: the resulting data fields do not depend on the previous ones |
| Requests.DeclaredValidCreateIsStorable | app/models/request/BookCreateRequest.java:7-20 | a request meeting its declared constraints, with a known status, yields a row with every non-null column present |
| Requests.BlankTitleStillBuilds | app/models/request/BookCreateRequest.java:10-11 | a title of one space breaks the declared constraint and still yields a storable book |
| BookStore.EmptyIsValid | app/models/BaseEntity.java:13-15 | the empty table with the counter at 1 satisfies the table invariant |
| BookStore.Find | app/services/BookService.java:28 | the lookup yields a row exactly when the id is a key, and then that key's row |
| BookStore.Rows | app/services/BookService.java:43 | the listing has one entry per listed id, each the stored row under it, each storable |
| BookStore.DistinctCardinality | app/services/BookService.java:43 | a listing without repeated ids is as long as its set of ids |
| BookStore.RowsCount | app/services/BookService.java:42-47 | the listing holds exactly as many rows as the table |
| BookStore.RowsListEveryRow | app/services/BookService.java:42-47 | every stored row appears in the listing |
| BookStore.RowsDistinct | app/services/BookService.java:42-47 | no row is listed twice, since listed rows carry distinct ids |
| BookStore.Insert | app/models/BaseEntity.java:13-21 | an insert succeeds exactly when the row is storable and the counter is in range; it assigns the next id and both timestamps, keeps the content, adds that one key, and keeps the invariant |
| BookStore.Replace | app/services/BookService.java:57 | an overwrite succeeds exactly when the row is storable; it refreshes the modification time, changes that key only, and keeps the invariant |
| BookStore.Without | app/services/BookService.java:72 | dropping an id from the listing keeps every other id and keeps it free of repeats |
| BookStore.Remove | app/services/BookService.java:72 | removal deletes that key only, keeps the counter (ids are not reused) and the invariant |
| BookStore.Where | app/services/BookService.java:85-91 | a filter keeps the rows the condition holds for and no others, none when it holds for none, and is no longer than its input |
| BookStore.WhereCounts | app/services/BookService.java:85-91 | a filter keeps every occurrence of a row the condition holds for and none of the others: it neither drops nor duplicates rows |
| BookStore.WhereKeepsDistinct | app/services/BookService.java:85-91 | filtering a list without repeated rows gives a list without repeated rows |
| Listing.AllDtos | backend/app/services/BookServiceImpl.java:72-77 | the full listing has one transfer object per stored row, and each one comes from a stored row |
| Listing.MatchingDtos | backend/app/services/BookServiceImpl.java:131-141 | a filtered listing holds the mapped rows the condition selects and nothing else, each once, so it has one entry per selected key; empty when none is selected |
| Listing.HitsSelected | app/services/BookService.java:85-91 | filtering the listing keeps exactly the stored rows the condition holds for |
| Listing.HitsDistinct | app/services/BookService.java:85-91 | filtering the listing keeps each row once |
| Listing.HitsCount | app/services/BookService.java:85-91 | filtering the listing keeps as many rows as there are keys whose row the condition holds for |
| Listing.MatchingDtosAgree | app/services/BookService.java:85-91 | two conditions that agree on every stored row select the same list |
| Listing.WhereAgrees | app/services/BookService.java:85-91 | two conditions that agree on every element filter a list the same way |
| EbeanService.Create | app/services/BookService.java:16-20 | succeeds exactly when status, isbn, title and year are usable and ids remain; adds exactly one row, with `toBook`'s content, under the next id; every other row unchanged; failure leaves the store as it was |
| EbeanService.GetOne | app/services/BookService.java:25-37 | unparsable id text gives InvalidRequest "Invalid book ID format: " + id; an absent id gives NotFound "Book not found with id: " + id; otherwise the row's transfer object |
| EbeanService.GetAll | app/services/BookService.java:42-47 | one transfer object per stored row (none for an empty table), each from a stored row |
| EbeanService.Update | app/services/BookService.java:52-62 | a null id fails; an absent id gives NotFound with the printed id; success exactly when the row exists and the request has a known status and isbn, title and year; then only that row changes, to the full replace with a fresh modification time; any failure leaves the store unchanged |
| EbeanService.Delete | app/services/BookService.java:67-79 | the same id errors as getOne with the store unchanged; success exactly when the parsed id is stored, and then that key alone is removed |
| EbeanService.Matches | app/services/BookService.java:85-90 | a book matches exactly when its lower-cased title or lower-cased subtitle, whichever is not null, has the lower-cased query as a substring |
| EbeanService.Search | app/services/BookService.java:84-96 | the result holds the rows whose title or subtitle contains the query ignoring case and nothing else, each once, one entry per matching key; empty when none matches |
| EbeanService.GetBooks | app/services/BookService.java:101-106 | as written: the window starts at the 32-bit wrapped product `page * pageSize`; it holds the listing rows from there on, exactly `pageSize` of them when the table reaches that far, the rest of the table otherwise, none past the end |
| EbeanService.GetBooksExact | app/services/BookService.java:101-106 | corrected: the same window from the exact product: the rows from there on, exactly `pageSize` when the table reaches that far, the rest of the table otherwise, none past the end |
| EbeanService.Window | app/services/BookService.java:103-104 | the window holds the rows from `first` on, at most `max` of them, in order |
| EbeanService.GetOneFindsStoredRow | app/services/BookService.java:25-33 | every stored row is found under the text of its id |
| EbeanService.CreateThenGetOne | app/services/BookService.java:16-33 | reading back a created book under its returned id gives the same transfer object |
| EbeanService.UpdateThenGetOne | app/services/BookService.java:52-62 | reading back an updated book gives the update's result |
| EbeanService.DeleteThenGetOne | app/services/BookService.java:67-75 | after a successful delete, the same id text is not found |
| EbeanService.SearchEmptyQueryListsAll | app/services/BookService.java:84-91 | an empty query matches every row |
| EbeanService.GetBooksAgreesWithoutOverflow | app/services/BookService.java:101-106 | when the product fits in an `int`, the as-written and the corrected paging agree |
| EbeanService.GetBooksWrapsAround | app/services/BookService.java:103 | page 65536 of size 65536 wraps to row 0: the as-written paging returns the first page where the corrected one returns no rows |
| JpaService.FindKey | backend/app/services/BookServiceImpl.java:58 | the text is converted as a Java long literal: it fails exactly when the text is not a sign-and-digits literal in long range; otherwise a row is found exactly when the literal's value is a stored key, and it is that key |
| JpaService.Create | backend/app/services/BookServiceImpl.java:31-51 | succeeds exactly when the status parses and isbn, title, subtitle and year are all present; the row takes the request's fields verbatim (no subtitle default) under the next id; nothing else changes |
| JpaService.GetOne | backend/app/services/BookServiceImpl.java:54-65 | never an invalid request: an untyped failure exactly when the text does not parse as a long; NotFound "Book not found" (no id in it) exactly when it parses to a key not stored; otherwise the transfer object of the row under the parsed key |
| JpaService.Merge | backend/app/services/BookServiceImpl.java:91-98 | each field present in the request overwrites, each null one keeps the stored value; a present unknown status fails; id and timestamps untouched |
| JpaService.Update | backend/app/services/BookServiceImpl.java:82-106 | a null id fails; an absent id gives NotFound "Book not found with id: " + id; success exactly when the row exists and any given status parses; then that row alone becomes the merge with a fresh modification time, id unchanged, and the result is its transfer object |
| JpaService.Delete | backend/app/services/BookServiceImpl.java:109-124 | an untyped failure exactly when the text does not parse as a long; NotFound "Book not found with id: " + the text as given exactly when it parses to a key not stored; either way the store is unchanged; otherwise the row under the parsed key alone is removed |
| JpaService.JpaMatches | backend/app/services/BookServiceImpl.java:131-135 | a book with neither title nor subtitle never matches; for a query without `%` or `_`, `LOWER(column) LIKE LOWER('%' + query + '%')` holds exactly when the lower-cased query is a substring of the lower-cased title or subtitle |
| JpaService.Search | backend/app/services/BookServiceImpl.java:127-143 | the result holds the rows the `LIKE` condition selects and nothing else, each once, one entry per selected key; empty when none is selected |
| JpaService.MergeKeepsStorable | backend/app/services/BookServiceImpl.java:91-98 | merging into a complete row leaves it complete |
| JpaService.MergeOfNothingIsIdentity | backend/app/services/BookServiceImpl.java:91-98 | a request with every field null leaves the row as it was |
| JpaService.MergeIdempotent | backend/app/services/BookServiceImpl.java:91-98 | merging the same request twice equals merging it once |
| JpaService.GetOneFindsStoredRow | backend/app/services/BookServiceImpl.java:54-64 | every stored row is found under the decimal text of its id |
| JpaService.SpellingsOfOneId | backend/app/services/BookServiceImpl.java:54-64 | "007" and "+7" find and delete row 7, as "7" does |
| JpaService.UpdateThenGetOne | backend/app/services/BookServiceImpl.java:82-105 | reading back an updated book gives the update's result |
| JpaService.DeleteThenGetOne | backend/app/services/BookServiceImpl.java:109-119 | after a successful delete, the same text is not found |
| ApiResponses.Success | backend/app/utils/ApiResponse.java:24-26 | success flag set, message "Success", the data given, no error |
| ApiResponses.SuccessWith | backend/app/utils/ApiResponse.java:29-31 | success flag set, the given message and data, no error |
| ApiResponses.SuccessMessage | backend/app/utils/ApiResponse.java:34-36 | success flag set, the given message, no data and no error |
| ApiResponses.Error | backend/app/utils/ApiResponse.java:39-41 | success flag clear, no message, no data, the text in `error` |
| ApiResponses.ErrorWith | backend/app/utils/ApiResponse.java:44-46 | success flag clear, no message, the data kept, the text in `error` |
| ApiResponses.ShapesAreExclusive | backend/app/utils/ApiResponse.java:24-46 | a factory-built envelope is success-shaped exactly when its flag is set and error-shaped exactly when it is clear |
| ApiResponses.ErrorTextIsNotInMessage | backend/app/utils/ApiResponse.java:39-46 | both error factories leave `message` absent and put the text in `error` |
| BookController.Answer | app/controllers/BookController.java:44-56 | 200 with a success envelope exactly on success (the message overload for delete); 404 or 400 with the exception's message exactly where the action catches that exception; 500 with the action's fixed text otherwise |
| BookController.Lift | app/controllers/BookController.java:29-31 | placing the result in the payload keeps the outcome's kind and message |
| BookController.ServiceCreate | app/controllers/BookController.java:29 | either backend's create keeps the invariant, only succeeds or fails untyped, and fails without changing the store |
| BookController.ServiceGetAll | app/controllers/BookController.java:66 | either backend's listing has one entry per row |
| BookController.ServiceUpdate | app/controllers/BookController.java:87 | either backend's update keeps the invariant, never throws the typed invalid-request exception, and fails without changing the store |
| BookController.ServiceDelete | app/controllers/BookController.java:107 | either backend's delete keeps the invariant and fails without changing the store |
| BookController.Create | app/controllers/BookController.java:20-38 | no JSON: 400 "Invalid JSON data" with the store untouched; unbindable JSON: 500 "Failed to create book"; otherwise the service's outcome through the create action's catch clauses; the store changes only on a 200 |
| BookController.GetOne | app/controllers/BookController.java:44-57 | 200 with the book, 404 or 400 with the service's message, 500 "Failed to get book", each exactly for the matching service outcome |
| BookController.GetAll | app/controllers/BookController.java:63-72 | always 200 with the listing as data |
| BookController.Update | app/controllers/BookController.java:78-98 | as create, with not-found caught as 404; a 400 only for a missing JSON body; the store changes only on a 200 |
| BookController.Delete | app/controllers/BookController.java:104-117 | success is 200 with the message "Book deleted successfully" and no data; not found 404, invalid 400 with the service's message; other failures 500 "Failed to delete book" |
| BookController.Search | app/controllers/BookController.java:123-137 | a missing or `trim`-empty query is 400 "Query parameter is required" before the service runs; any other query is 200 with the service's list |
| BookController.UnknownStatusOnCreateIsServerError | app/controllers/BookController.java:28-35 | on either backend, a create with an unknown or missing status answers 500 "Failed to create book" and stores nothing |
| BookController.CreateWithJsonIsNeverBadRequest | app/controllers/BookController.java:28-35 | with a JSON body, create answers 200 or 500, never 400 |
| BookController.MalformedIdOnGetOne | app/controllers/BookController.java:44-56 | unparsable id text is 400 naming the id on the Ebean backend and 500 "Failed to get book" on the JPA backend |
| BookController.DeleteAnswersWithMessage | app/controllers/BookController.java:107-108 | deleting a stored id answers 200 with the message overload and removes that row alone, on either backend |
| BookController.EmptyTableListsNothing | app/controllers/BookController.java:66-67 | an empty table lists as 200 with an empty array, not an error |
| FormValidation.ValidateBook | frontend/src/utils/validation.ts:3-29 | each field has an entry exactly when its own check fails, with that check's message; the ISBN has one message at most, "required" when blank and the length message otherwise; the year is missing exactly when it is the empty text or the number 0 |
| FormValidation.NoErrorsIffValid | frontend/src/utils/validation.ts:3-28 | the result is empty exactly when the form meets every field condition |
| FormValidation.TitleIsJudgedAlone | frontend/src/utils/validation.ts:6-8 | editing the title changes no entry but the title's |
| FormValidation.BlankIsbnIsMissing | frontend/src/utils/validation.ts:14-18 | an ISBN of ten spaces is reported as required, not as the wrong length |
| FormValidation.IsbnLengthCountsSpaces | frontend/src/utils/validation.ts:16 | the length is taken before trimming: nine digits and a space pass |
| FormValidation.ZeroYearIsMissing | frontend/src/utils/validation.ts:20-22 | a form whose year field holds the number 0 gets only "Copyright year is required", though a number was entered |
| FormValidation.ZeroTextIsPresent | frontend/src/utils/validation.ts:20-22 | a year field holding the text "0" is truthy and passes the year check |
| BookSlice.Initial | frontend/src/store/bookSlice.ts:10-14 | the initial state has no books, is not loading and has no error |
| BookSlice.GetBooksStart | frontend/src/store/bookSlice.ts:20-23 | loading set and error cleared; books unchanged |
| BookSlice.GetBooksSuccess | frontend/src/store/bookSlice.ts:24-27 | books replaced by the payload, loading cleared, error kept |
| BookSlice.GetBooksFailure | frontend/src/store/bookSlice.ts:28-31 | loading cleared, error set to the payload, books unchanged |
| BookSlice.AddBook | frontend/src/store/bookSlice.ts:32-34 | the payload is appended: one longer, earlier books unchanged |
| BookSlice.FindIndex | frontend/src/store/bookSlice.ts:36-38 | -1 exactly when no book has the id; otherwise the first position holding it |
| BookSlice.UpdateBook | frontend/src/store/bookSlice.ts:35-42 | the first book with the payload's id is replaced, every other position unchanged, length unchanged; nothing changes without a match |
| BookSlice.Remaining | frontend/src/store/bookSlice.ts:44 | the filter keeps exactly the books with another id |
| BookSlice.DeleteBook | frontend/src/store/bookSlice.ts:43-45 | every book with the id goes, every other stays; loading and error unchanged |
| BookSlice.RemainingAppend | frontend/src/store/bookSlice.ts:44 | filtering a concatenation is concatenating the filtered parts: the order is kept |
| BookSlice.RemainingKeepsOthers | frontend/src/store/bookSlice.ts:44 | a list with no book of that id is left exactly as it was |
| BookSlice.DeleteIdempotent | frontend/src/store/bookSlice.ts:43-45 | deleting an id twice is deleting it once |
| BookSlice.AddThenDelete | frontend/src/store/bookSlice.ts:32-45 | adding a book and deleting its id leaves what deleting the id alone leaves |
| BookSlice.UpdateThenDelete | frontend/src/store/bookSlice.ts:35-45 | updating a book and deleting its id leaves what deleting the id alone leaves |
| BookSlice.UpdateIdempotent | frontend/src/store/bookSlice.ts:35-42 | updating with the same book twice is updating once |
| BookSlice.FirstFetch | frontend/src/store/bookSlice.ts:10-27 | from the initial state, a fetch that starts and succeeds leaves exactly the fetched list, not loading, no error |
| Consistency.MatchesAgree | backend/app/services/BookServiceImpl.java:131-135 | for a query without `%` or `_`, the JPA `LIKE` condition and the Ebean `icontains` condition agree on every book |
| Consistency.SearchesAgree | backend/app/services/BookServiceImpl.java:127-143 | for such a query both services' searches return the same list |
| Consistency.UnderscoreQueryDiverges | backend/app/services/BookServiceImpl.java:135 | the query `_` matches a book titled "x" in the JPA service and not in the Ebean one |
| Consistency.NullSubtitleOnCreate | backend/app/services/BookServiceImpl.java:38 | without a subtitle the Ebean create stores `""` and the JPA create fails, leaving the store unchanged |
| Consistency.FullRequestMergeIsReplace | backend/app/services/BookServiceImpl.java:91-98 | with every field present, the JPA merge and the Ebean full replace give the same row |
| Consistency.NullTitleOnUpdate | backend/app/services/BookServiceImpl.java:92 | a null title keeps the stored one in the JPA update and makes the Ebean update fail |
| Consistency.ServicesStoreShortIsbn | backend/app/services/BookServiceImpl.java:31-51 | a create request with a three-character ISBN and an empty subtitle succeeds in both services |
| Consistency.FormRefusesShortIsbn | frontend/src/utils/validation.ts:10-18 | the form for that request is refused on the subtitle and on the ISBN length, and on nothing else |
| Consistency.ClientStricterThanServices | frontend/src/utils/validation.ts:10-18 | a request with a three-character ISBN and an empty subtitle is stored by both services but refused by the form |

## Left out

- Persistence machinery: the entity manager, Ebean finders, transactions and `flush`. The store stands for them. It fails only on a missing non-null column or an exhausted identity counter.
- Store order: listing order is insertion order. The queries have no `ORDER BY`, so the database promises none.
- Asynchronous execution: `CompletableFuture`, Play's `Result`, Jackson (de)serialisation and `@JsonInclude(NON_NULL)` are plumbing, not decision logic. The request body is reduced to no JSON, unbindable JSON, or a bound request.
- Entity and DTO getters and setters: they are the datatypes' field access and update (`b.(title := t)`), which change only the named field by construction.
- `app/Bootstrap.java` seeding and `app/controllers/AbstractController.java`: startup side effect and unused helpers.
- Logging calls: they have no effect on results.
- Unicode case folding: `toUpperCase`, `toLowerCase`, `LOWER` and `icontains` are ASCII-only here, as is `Long.parseLong` (Java also accepts non-ASCII digits).
- LIKE escape characters: the matcher has no escape character. Some databases treat `\` in a pattern as one.
- JpaService.FindKey: models `em.find` with a `String` key as the provider's lenient coercion of the text by `Long.parseLong` (Hibernate's behaviour), which is a dependency whose code is not part of this model. A provider in strict JPA compliance mode rejects every `String` key with an exception, which would make every JPA get-one and delete a 500; that configuration is not modelled.
- EbeanService.Create, EbeanService.Update: the Ebean entity `app/models/Book.java` is not part of this model. It is assumed to declare the same five non-null columns (isbn, title, subtitle, copyright year, status) as the JPA entity at backend/app/models/Book.java:16-34, so both services share one notion of a storable row.
- BookController: `BookNotFoundException` is not part of this model. It is taken to be unrelated to `BookInvalidRequestException`, so on create, getAll and search it falls to the generic 500 clause.
- EbeanService.Update, JpaService.Update: a save is modelled as always refreshing the modification time, even when no column changed. The ORMs may skip such a write.
- EbeanService.GetBooks: `PagedList` is reduced to its page of rows. The total count and lazy loading are left out, and a negative first row or a non-positive page size is modelled as a failure rather than as the ORM's own handling.
- FormValidation.ValidateBook: lengths count Unicode scalar values. JavaScript's `length` counts UTF-16 code units, so characters outside the Basic Multilingual Plane differ.
- FormValidation.YearValue: the year field holds either text or a whole number. `Number(value)` of what is typed into the number input is not modelled; `NaN` and fractional numbers are left out.
- The frontend UI, network layer and hooks (`BookForm.tsx`, `BookList.tsx`, `api.ts`, `useBooks.ts`): rendering and I/O.

## Findings

| source | as written | input that shows it | evidently intended | confidence | as-written member | corrected member |
|---|---|---|---|---|---|---|
| app/services/BookService.java:103 | the first row is `page * pageSize` in Java `int` arithmetic, which wraps past 2^31 - 1 | page = 65536, pageSize = 65536: the product 2^32 wraps to 0, so a non-empty table answers with its first page instead of the empty page past its end | the window starts at the exact row number `page * pageSize` | not executed | EbeanService.GetBooks (shown by EbeanService.GetBooksWrapsAround) | EbeanService.GetBooksExact |

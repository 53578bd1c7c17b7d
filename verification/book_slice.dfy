/** The web client's list state and its reducers
    (`frontend/src/store/bookSlice.ts`). Each reducer is a function from the
    old state to the new one; Immer's in-place drafts are an implementation
    of exactly that.
 */
module BookSlice {
  import opened Wrappers

  /** The client's `Book`: every field is text, the id included. */
  datatype ClientBook = ClientBook(
    id: string,
    isbn: string,
    title: string,
    subtitle: string,
    copyrightYear: string,
    status: string)

  /** `BooksState`. */
  datatype SliceState = SliceState(books: seq<ClientBook>, loading: bool, error: Option<string>)

  /** `initialState`: no books, not loading, no error. */
  function Initial(): (r: SliceState)
    ensures r.books == [] && !r.loading && r.error.None?
  {
    SliceState([], false, None)
  }

  /** `getBooksStart`: loading, with any earlier error cleared. */
  function GetBooksStart(st: SliceState): (r: SliceState)
    ensures r.loading && r.error.None?
    ensures r.books == st.books
  {
    st.(loading := true, error := None)
  }

  /** `getBooksSuccess`: the list is replaced; an earlier error stays. */
  function GetBooksSuccess(st: SliceState, payload: seq<ClientBook>): (r: SliceState)
    ensures r.books == payload && !r.loading
    ensures r.error == st.error
  {
    st.(books := payload, loading := false)
  }

  /** `getBooksFailure`: the error is recorded; the list stays. */
  function GetBooksFailure(st: SliceState, message: string): (r: SliceState)
    ensures r.error == Some(message) && !r.loading
    ensures r.books == st.books
  {
    st.(loading := false, error := Some(message))
  }

  /** `addBook`: appended at the end, whatever its id. */
  function AddBook(st: SliceState, b: ClientBook): (r: SliceState)
    ensures |r.books| == |st.books| + 1
    ensures r.books[..|st.books|] == st.books && r.books[|st.books|] == b
    ensures r.loading == st.loading && r.error == st.error
  {
    st.(books := st.books + [b])
  }

  /** `findIndex`: the first position holding that id, or -1. */
  function FindIndex(books: seq<ClientBook>, id: string): (i: int)
    ensures -1 <= i < |books|
    ensures i == -1 <==> forall j :: 0 <= j < |books| ==> books[j].id != id
    ensures i >= 0 ==> books[i].id == id && forall j :: 0 <= j < i ==> books[j].id != id
  {
    if |books| == 0 then -1
    else if books[0].id == id then 0
    else
      var rest := FindIndex(books[1..], id);
      assert forall j :: 0 < j < |books| ==> books[j] == books[1..][j - 1];
      if rest == -1 then -1 else rest + 1
  }

  /** `updateBook`: the first book with the payload's id is replaced by the
      payload; with no such book nothing changes. */
  function UpdateBook(st: SliceState, b: ClientBook): (r: SliceState)
    ensures |r.books| == |st.books|
    ensures r.loading == st.loading && r.error == st.error
    ensures (forall j :: 0 <= j < |st.books| ==> st.books[j].id != b.id) ==> r == st
    ensures forall j :: 0 <= j < |st.books| && j != FindIndex(st.books, b.id) ==> r.books[j] == st.books[j]
    ensures FindIndex(st.books, b.id) >= 0 ==> r.books[FindIndex(st.books, b.id)] == b
  {
    var i := FindIndex(st.books, b.id);
    if i == -1 then st else st.(books := st.books[i := b])
  }

  /** `books.filter(book => book.id !== id)`. */
  function Remaining(books: seq<ClientBook>, id: string): (r: seq<ClientBook>)
    ensures |r| <= |books|
    ensures forall x :: x in r <==> x in books && x.id != id
  {
    if |books| == 0 then []
    else
      var rest := Remaining(books[1..], id);
      assert forall x :: x in books <==> x == books[0] || x in books[1..];
      if books[0].id == id then rest else [books[0]] + rest
  }

  /** `deleteBook`: every book with that id goes; the rest keep their order. */
  function DeleteBook(st: SliceState, id: string): (r: SliceState)
    ensures forall x :: x in r.books <==> x in st.books && x.id != id
    ensures r.loading == st.loading && r.error == st.error
  {
    st.(books := Remaining(st.books, id))
  }

  /** The filter keeps order: filtering a concatenation filters each part. */
  lemma {:induction false} RemainingAppend(a: seq<ClientBook>, b: seq<ClientBook>, id: string)
    ensures Remaining(a + b, id) == Remaining(a, id) + Remaining(b, id)
  {
    if |a| > 0 {
      assert (a + b)[0] == a[0] && (a + b)[1..] == a[1..] + b;
      RemainingAppend(a[1..], b, id);
      var head := if a[0].id == id then [] else [a[0]];
      assert Remaining(a + b, id) == head + Remaining(a[1..] + b, id);
      assert Remaining(a, id) == head + Remaining(a[1..], id);
    } else {
      assert a + b == b;
    }
  }

  /** Books with another id are all kept: filtering them changes nothing. */
  lemma {:induction false} RemainingKeepsOthers(books: seq<ClientBook>, id: string)
    requires forall j :: 0 <= j < |books| ==> books[j].id != id
    ensures Remaining(books, id) == books
  {
    if |books| > 0 {
      RemainingKeepsOthers(books[1..], id);
    }
  }

  /** Deleting twice is deleting once. */
  lemma DeleteIdempotent(st: SliceState, id: string)
    ensures DeleteBook(DeleteBook(st, id), id) == DeleteBook(st, id)
  {
    var r := Remaining(st.books, id);
    forall j | 0 <= j < |r| ensures r[j].id != id {
      assert r[j] in r;
    }
    RemainingKeepsOthers(r, id);
  }

  /** Adding a book and then deleting its id is deleting the id: the new
      book leaves no trace. */
  lemma AddThenDelete(st: SliceState, b: ClientBook)
    ensures DeleteBook(AddBook(st, b), b.id) == DeleteBook(st, b.id)
  {
    RemainingAppend(st.books, [b], b.id);
    assert Remaining([b], b.id) == Remaining([], b.id);
  }

  /** Updating a book and then deleting its id is deleting the id: the
      replacement carries the same id as what it replaced. */
  lemma {:induction false} UpdateThenDelete(st: SliceState, b: ClientBook)
    ensures DeleteBook(UpdateBook(st, b), b.id) == DeleteBook(st, b.id)
  {
    var i := FindIndex(st.books, b.id);
    if i >= 0 {
      var xs := st.books;
      var ys := xs[i := b];
      assert xs == xs[..i] + [xs[i]] + xs[i + 1..];
      assert ys == xs[..i] + [b] + xs[i + 1..];
      RemainingAppend(xs[..i] + [xs[i]], xs[i + 1..], b.id);
      RemainingAppend(xs[..i], [xs[i]], b.id);
      RemainingAppend(xs[..i] + [b], xs[i + 1..], b.id);
      RemainingAppend(xs[..i], [b], b.id);
      assert Remaining([xs[i]], b.id) == [] == Remaining([b], b.id);
    }
  }

  /** Updating with the same book twice is updating once. */
  lemma UpdateIdempotent(st: SliceState, b: ClientBook)
    ensures UpdateBook(UpdateBook(st, b), b) == UpdateBook(st, b)
  {
    var i := FindIndex(st.books, b.id);
    if i >= 0 {
      var ys := st.books[i := b];
      assert FindIndex(ys, b.id) == i by {
        assert ys[i].id == b.id;
        assert forall j :: 0 <= j < i ==> ys[j] == st.books[j];
      }
    }
  }

  /** A first fetch that succeeds leaves exactly the fetched list, not
      loading and with no error. */
  lemma FirstFetch(payload: seq<ClientBook>)
    ensures GetBooksSuccess(GetBooksStart(Initial()), payload) == SliceState(payload, false, None)
  {
  }
}

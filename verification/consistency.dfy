/** How the two record services, and the web client's form check, relate.

    The two backends implement the same interface but do not behave alike;
    these lemmas say where they agree and give concrete inputs where they do
    not.
 */
module Consistency {
  import opened Wrappers
  import opened Numbers
  import opened Text
  import opened SqlLike
  import opened Books
  import opened Dto
  import opened Requests
  import opened BookStore
  import opened Listing
  import opened FormValidation
  import EbeanService
  import JpaService

  /** For a query free of `%` and `_`, the `LIKE` condition of the JPA
      service and the `icontains` condition of the Ebean service select the
      same books. */
  lemma MatchesAgree(b: Book, q: string)
    requires NoWildcards(q)
    ensures JpaService.JpaMatches(b, q) == EbeanService.Matches(b, q)
  {
  }


  /** Hence the two searches return the same list for such a query. */
  lemma SearchesAgree(s: Store, q: string)
    requires Valid(s)
    requires NoWildcards(q)
    ensures JpaService.Search(s, q) == EbeanService.Search(s, q)
  {
    forall k | k in s.rows
      ensures JpaService.JpaMatches(s.rows[k], q) == EbeanService.Matches(s.rows[k], q)
    {
      MatchesAgree(s.rows[k], q);
    }
    MatchingDtosAgree(s, b => JpaService.JpaMatches(b, q), b => EbeanService.Matches(b, q));
  }

  /** With a wildcard they part: the query `_` is any one character to the
      JPA service and a literal underscore to the Ebean one. */
  lemma UnderscoreQueryDiverges()
    ensures var b := NewBook(Some("isbn"), Some("x"), Some("y"), Some(2023), Some(Pending));
            JpaService.JpaMatches(b, "_") && !EbeanService.Matches(b, "_")
  {
    var pattern := ToLower("%" + "_" + "%");
    assert pattern == "%_%";
    assert ToLower("x") == "x";
    assert Like("x", "%_%") by {
      assert "%_%"[1..] == "_%";
      assert "_%"[1..] == "%";
      assert "x"[1..] == "";
      assert "%"[1..] == "";
    }
    assert !Contains(ToLower("x"), ToLower("_")) by {
      assert !IsPrefix("_", "x");
      assert !IsPrefix("_", "x"[1..]);
    }
    assert !Contains(ToLower("y"), ToLower("_")) by {
      assert ToLower("y") == "y";
      assert !IsPrefix("_", "y");
      assert !IsPrefix("_", "y"[1..]);
    }
  }

  /** A create request without a subtitle: the Ebean service stores `""`,
      the JPA service's insert fails on the non-null column. */
  lemma NullSubtitleOnCreate(s: Store, req: CreateRequest, now: Instant)
    requires Valid(s)
    requires req.subtitle.None?
    requires RequestStatus(req.status).Some?
    requires req.isbn.Some? && req.title.Some? && req.copyrightYear.Some?
    requires s.nextId <= MaxLong
    ensures EbeanService.Create(s, req, now).result.Ok?
    ensures EbeanService.Create(s, req, now).result.value.subtitle == Some("")
    ensures JpaService.Create(s, req, now) == Reply(Failure, s)
  {
  }

  /** When the update request carries every field, the merge and the full
      replace agree; they differ only in how a null field is treated. */
  lemma FullRequestMergeIsReplace(req: UpdateRequest, book: Book)
    requires req.isbn.Some? && req.title.Some? && req.subtitle.Some?
    requires req.copyrightYear.Some? && req.status.Some?
    ensures JpaService.Merge(req, book) == UpdateBook(req, book)
  {
  }

  /** A null title in an update: the merge keeps the stored one, the full
      replace writes null and so the Ebean update fails. */
  lemma NullTitleOnUpdate(s: Store, req: UpdateRequest, now: Instant)
    requires Valid(s)
    requires req.id.Some? && req.id.value in s.rows
    requires req.title.None?
    requires RequestStatus(req.status).Some?
    ensures JpaService.Update(s, req, now).result.Ok?
    ensures JpaService.Update(s, req, now).store.rows[req.id.value].title == s.rows[req.id.value].title
    ensures EbeanService.Update(s, req, now) == Reply(Failure, s)
  {
  }

  /** The form a create request with every field set is entered through. */
  function FormOf(req: CreateRequest): BookForm
    requires req.isbn.Some? && req.title.Some? && req.subtitle.Some?
    requires req.copyrightYear.Some? && req.status.Some?
  {
    BookForm(req.isbn.value, req.title.value, req.subtitle.value, YearNumber(req.copyrightYear.value), req.status.value)
  }

  /** The create request of a book with a three-character ISBN and an empty
      subtitle. */
  const ShortIsbnRequest: CreateRequest :=
    CreateRequest(Some("123"), Some("Title"), Some(""), Some(2023), Some("PENDING"))

  /** Both services store that request. */
  lemma ServicesStoreShortIsbn(s: Store, now: Instant)
    requires Valid(s)
    requires s.nextId <= MaxLong
    ensures EbeanService.Create(s, ShortIsbnRequest, now).result.Ok?
    ensures JpaService.Create(s, ShortIsbnRequest, now).result.Ok?
  {
    assert RequestStatus(ShortIsbnRequest.status) == Some(Pending) by {
      assert ToUpper("PENDING") == Name(Pending);
    }
  }

  /** The form refuses it, on the subtitle and on the ISBN's length. */
  lemma FormRefusesShortIsbn()
    ensures ValidateBook(FormOf(ShortIsbnRequest)) == map[Subtitle := SubtitleRequired, Isbn := IsbnLength]
  {
    var f := FormOf(ShortIsbnRequest);
    assert !JsBlank(f.title) by { assert !JsWhitespace(f.title[0]); }
    assert !JsBlank(f.isbn) by { assert !JsWhitespace(f.isbn[0]); }
    assert JsBlank(f.subtitle);
  }

  /** The client demands more than either service: a three-character ISBN
      and an empty subtitle are stored by both, but the form refuses them. */
  lemma ClientStricterThanServices(s: Store, now: Instant)
    requires Valid(s)
    requires s.nextId <= MaxLong
    ensures var req := ShortIsbnRequest;
            && EbeanService.Create(s, req, now).result.Ok?
            && JpaService.Create(s, req, now).result.Ok?
            && ValidateBook(FormOf(req)) == map[Subtitle := SubtitleRequired, Isbn := IsbnLength]
  {
    ServicesStoreShortIsbn(s, now);
    FormRefusesShortIsbn();
  }

}

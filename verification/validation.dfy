/** The form check the web client runs before sending a book
    (`frontend/src/utils/validation.ts`). Every form field is text; the
    result maps each failing field to its message, and the empty map means
    the form may be sent.
 */
module FormValidation {
  import opened Text

  /** The keys of `BookFormData`. */
  datatype Field = Title | Subtitle | Isbn | CopyrightYear | Status

  /** What the year field holds at run time. It starts as the empty text;
      the number input's change handler stores `Number(value)` for any
      non-empty entry; a row loaded for editing brings the server's number.
      Only whole numbers are modelled. */
  datatype YearValue = YearText(text: string) | YearNumber(value: int)

  /** JavaScript truthiness of the year field: the empty text and the number
      0 are falsy, every other text or number is truthy. */
  predicate Truthy(v: YearValue) {
    match v
    case YearText(text) => |text| > 0
    case YearNumber(value) => value != 0
  }

  /** `BookFormData`: a book without its id, every field as entered. */
  datatype BookForm = BookForm(
    isbn: string,
    title: string,
    subtitle: string,
    copyrightYear: YearValue,
    status: string)

  const TitleRequired: string := "Title is required"
  const SubtitleRequired: string := "Subtitle is required"
  const IsbnRequired: string := "ISBN is required"
  const IsbnLength: string := "ISBN must be 10 or 13 characters"
  const YearRequired: string := "Copyright year is required"
  const StatusRequired: string := "Status is required"

  /** What a sendable form looks like, field by field: title, subtitle and
      ISBN not blank, the ISBN 10 or 13 characters long as typed (spaces
      included), year and status present. */
  predicate FormValid(b: BookForm) {
    && !JsBlank(b.title)
    && !JsBlank(b.subtitle)
    && !JsBlank(b.isbn) && (|b.isbn| == 10 || |b.isbn| == 13)
    && b.copyrightYear != YearText("") && b.copyrightYear != YearNumber(0)
    && b.status != ""
  }

  /** `validateBook(book)`. Each field is judged on its own; the ISBN gets at
      most one message, and a blank one is reported as missing, not as the
      wrong length. */
  function ValidateBook(b: BookForm): (errors: map<Field, string>)
    ensures Title in errors <==> JsBlank(b.title)
    ensures Subtitle in errors <==> JsBlank(b.subtitle)
    ensures Isbn in errors <==> JsBlank(b.isbn) || (|b.isbn| != 10 && |b.isbn| != 13)
    ensures CopyrightYear in errors <==> b.copyrightYear == YearText("") || b.copyrightYear == YearNumber(0)
    ensures Status in errors <==> b.status == ""
    ensures Title in errors ==> errors[Title] == TitleRequired
    ensures Subtitle in errors ==> errors[Subtitle] == SubtitleRequired
    ensures Isbn in errors && JsBlank(b.isbn) ==> errors[Isbn] == IsbnRequired
    ensures Isbn in errors && !JsBlank(b.isbn) ==> errors[Isbn] == IsbnLength
    ensures CopyrightYear in errors ==> errors[CopyrightYear] == YearRequired
    ensures Status in errors ==> errors[Status] == StatusRequired
  {
    var e0: map<Field, string> := map[];
    var e1 := if JsBlank(b.title) then e0[Title := TitleRequired] else e0;
    var e2 := if JsBlank(b.subtitle) then e1[Subtitle := SubtitleRequired] else e1;
    var e3 := if JsBlank(b.isbn) then e2[Isbn := IsbnRequired]
              else if |b.isbn| != 10 && |b.isbn| != 13 then e2[Isbn := IsbnLength]
              else e2;
    var e4 := if !Truthy(b.copyrightYear) then e3[CopyrightYear := YearRequired] else e3;
    if b.status == "" then e4[Status := StatusRequired] else e4
  }

  /** No messages exactly when the form is sendable. */
  lemma NoErrorsIffValid(b: BookForm)
    ensures ValidateBook(b) == map[] <==> FormValid(b)
  {
    var e := ValidateBook(b);
    if e == map[] {
      assert Title !in e && Subtitle !in e && Isbn !in e && CopyrightYear !in e && Status !in e;
    } else {
      var f :| f in e;
      match f
      case Title =>
      case Subtitle =>
      case Isbn =>
      case CopyrightYear =>
      case Status =>
    }
  }

  /** Fields are judged independently: editing the title changes the title's
      entry and no other. */
  lemma TitleIsJudgedAlone(b: BookForm, title: string)
    ensures var before := ValidateBook(b);
            var after := ValidateBook(b.(title := title));
            forall f :: f != Title ==> (f in before <==> f in after) && (f in before ==> before[f] == after[f])
  {
  }

  /** An ISBN of ten spaces is reported as missing, not as the wrong length. */
  lemma BlankIsbnIsMissing()
    ensures ValidateBook(BookForm("          ", "T", "S", YearNumber(2023), "PENDING"))
            == map[Isbn := IsbnRequired]
  {
    var b := BookForm("          ", "T", "S", YearNumber(2023), "PENDING");
    assert JsBlank(b.isbn);
    assert !JsBlank(b.title) by { assert !JsWhitespace(b.title[0]); }
    assert !JsBlank(b.subtitle) by { assert !JsWhitespace(b.subtitle[0]); }
  }

  /** The length is taken before trimming: nine digits and a trailing space
      pass as a ten-character ISBN. */
  lemma IsbnLengthCountsSpaces()
    ensures Isbn !in ValidateBook(BookForm("123456789 ", "T", "S", YearNumber(2023), "PENDING"))
  {
    var b := BookForm("123456789 ", "T", "S", YearNumber(2023), "PENDING");
    assert !JsBlank(b.isbn) by { assert !JsWhitespace(b.isbn[0]); }
  }

  /** The year check is a truthiness test, so the year 0 is reported as
      missing although a number was entered. */
  lemma ZeroYearIsMissing()
    ensures ValidateBook(BookForm("1234567890", "T", "S", YearNumber(0), "PENDING"))
            == map[CopyrightYear := YearRequired]
  {
    var b := BookForm("1234567890", "T", "S", YearNumber(0), "PENDING");
    assert !JsBlank(b.title) by { assert !JsWhitespace(b.title[0]); }
    assert !JsBlank(b.subtitle) by { assert !JsWhitespace(b.subtitle[0]); }
    assert !JsBlank(b.isbn) by { assert !JsWhitespace(b.isbn[0]); }
  }

  /** The text "0" on the other hand is truthy and passes. */
  lemma ZeroTextIsPresent(b: BookForm)
    requires b.copyrightYear == YearText("0")
    ensures CopyrightYear !in ValidateBook(b)
  {
  }
}

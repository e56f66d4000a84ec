/** The BookForm component's state logic: the blank form, loading an
    existing book into it, per-field edits, validation into an error map,
    and the payload handed to onSubmit. Rendering is not modelled. */
module BookForm {
  import opened Common
  import opened Text
  import opened Books

  /** The form's fields, by the keys they have in formData and errors. */
  datatype Field = Title | FirstName | LastName | TotalCopies | CopiesInUse
                 | Type | Isbn | Category

  /** A value an input hands to handleChange: the text inputs pass the
      string typed, the two number inputs parseInt(value) || 0. */
  datatype FieldValue = Text(text: string) | Number(number: int)

  /** formData. */
  datatype FormData = FormData(
    title: string,
    firstName: string,
    lastName: string,
    totalCopies: int,
    copiesInUse: int,
    bookType: string,
    isbn: string,
    category: string)

  /** The payload onSubmit receives: formData alone when adding, formData
      with the edited book's id when editing. */
  datatype Payload = Create(data: FormData) | Update(bookId: int, data: FormData)

  const TitleRequired := "Title is required"
  const FirstNameRequired := "Author first name is required"
  const LastNameRequired := "Author last name is required"
  const TotalNegative := "Total copies must be greater than or equal to 0"
  const InUseNegative := "Copies in use must be greater than or equal to 0"
  const InUseExceedsTotal := "Copies in use cannot be greater than total copies"

  /** The initial formData: empty strings and zero counts. */
  function EmptyForm(): (d: FormData)
    ensures d.title == d.firstName == d.lastName == d.bookType == d.isbn == d.category == ""
    ensures d.totalCopies == 0 && d.copiesInUse == 0
  {
    FormData("", "", "", 0, 0, "", "", "")
  }

  /** The value formData holds for a field. */
  function Get(d: FormData, f: Field): FieldValue
  {
    match f
    case Title => Text(d.title)
    case FirstName => Text(d.firstName)
    case LastName => Text(d.lastName)
    case TotalCopies => Number(d.totalCopies)
    case CopiesInUse => Number(d.copiesInUse)
    case Type => Text(d.bookType)
    case Isbn => Text(d.isbn)
    case Category => Text(d.category)
  }

  /** Each input passes values of its field's kind. */
  predicate Fits(f: Field, v: FieldValue)
  {
    if f == TotalCopies || f == CopiesInUse then v.Number? else v.Text?
  }

  /** `{ ...prev, [field]: value }`: the named field takes the value and no
      other field changes. */
  function WithField(d: FormData, f: Field, v: FieldValue): (r: FormData)
    requires Fits(f, v)
    ensures Get(r, f) == v
    ensures forall g :: g != f ==> Get(r, g) == Get(d, g)
  {
    match f
    case Title => d.(title := v.text)
    case FirstName => d.(firstName := v.text)
    case LastName => d.(lastName := v.text)
    case TotalCopies => d.(totalCopies := v.number)
    case CopiesInUse => d.(copiesInUse := v.number)
    case Type => d.(bookType := v.text)
    case Isbn => d.(isbn := v.text)
    case Category => d.(category := v.text)
  }

  /** `value || ''` on an optional string. */
  function OrEmpty(s: Option<string>): (r: string)
    ensures s.Some? ==> r == s.value
    ensures s.None? ==> r == ""
  {
    if s.Some? then s.value else ""
  }

  /** The effect that loads an edited book: every field copied, an absent
      type, ISBN or category becoming the empty string. */
  function FromBook(b: BookResponse): (d: FormData)
    ensures d.title == b.title && d.firstName == b.firstName && d.lastName == b.lastName
    ensures d.totalCopies == b.totalCopies && d.copiesInUse == b.copiesInUse
    ensures d.bookType == OrEmpty(b.bookType) && d.isbn == OrEmpty(b.isbn)
    ensures d.category == OrEmpty(b.category)
  {
    FormData(b.title, b.firstName, b.lastName, b.totalCopies, b.copiesInUse,
             OrEmpty(b.bookType), OrEmpty(b.isbn), OrEmpty(b.category))
  }

  /** `!value.trim()`: the field is empty once trimmed. */
  predicate Blank(s: string)
  {
    Trim(s) == ""
  }

  /** Reference definition of an acceptable form: the three names are not
      blank after trimming, and 0 <= copiesInUse <= totalCopies. */
  predicate FormValid(d: FormData)
  {
    && !Blank(d.title) && !Blank(d.firstName) && !Blank(d.lastName)
    && d.totalCopies >= 0 && 0 <= d.copiesInUse <= d.totalCopies
  }

  /** The error of a required text field: its message when blank. */
  function RequiredError(s: string, msg: string): Option<string>
  {
    if Blank(s) then Some(msg) else None
  }

  /** The error of totalCopies. */
  function TotalError(d: FormData): Option<string>
  {
    if d.totalCopies < 0 then Some(TotalNegative) else None
  }

  /** The error of copiesInUse; the later check's message wins, so exceeding
      the total is reported even when the count is also negative. */
  function InUseError(d: FormData): Option<string>
  {
    if d.copiesInUse > d.totalCopies then Some(InUseExceedsTotal)
    else if d.copiesInUse < 0 then Some(InUseNegative)
    else None
  }

  /** m with field f's error recorded, if it has one. */
  function Put(m: map<Field, string>, f: Field, e: Option<string>): map<Field, string>
  {
    if e.Some? then m[f := e.value] else m
  }

  /** The error map validation should produce for d: an entry for each field
      that has an error, and no other. */
  function ExpectedErrors(d: FormData): map<Field, string>
  {
    var m := Put(map[], Title, RequiredError(d.title, TitleRequired));
    var m := Put(m, FirstName, RequiredError(d.firstName, FirstNameRequired));
    var m := Put(m, LastName, RequiredError(d.lastName, LastNameRequired));
    var m := Put(m, TotalCopies, TotalError(d));
    Put(m, CopiesInUse, InUseError(d))
  }

  /** The error map is empty exactly when the form is acceptable. */
  lemma NoErrorsIffValid(d: FormData)
    ensures ExpectedErrors(d) == map[] <==> FormValid(d)
  {
    if !FormValid(d) {
      if Blank(d.title) { assert Title in ExpectedErrors(d); }
      else if Blank(d.firstName) { assert FirstName in ExpectedErrors(d); }
      else if Blank(d.lastName) { assert LastName in ExpectedErrors(d); }
      else if d.totalCopies < 0 { assert TotalCopies in ExpectedErrors(d); }
      else { assert CopiesInUse in ExpectedErrors(d); }
    }
  }

  /** A name field gets an error exactly when it is blank after trimming. */
  lemma NameErrors(d: FormData)
    ensures Title in ExpectedErrors(d) <==> AllJsWhite(d.title)
    ensures FirstName in ExpectedErrors(d) <==> AllJsWhite(d.firstName)
    ensures LastName in ExpectedErrors(d) <==> AllJsWhite(d.lastName)
  {
    TrimSpec(d.title);
    TrimSpec(d.firstName);
    TrimSpec(d.lastName);
  }

  /** totalCopies gets an error when negative; copiesInUse when negative or
      above totalCopies, the "greater than total" message winning when both
      hold. */
  lemma CopyCountErrors(d: FormData)
    ensures TotalCopies in ExpectedErrors(d) <==> d.totalCopies < 0
    ensures CopiesInUse in ExpectedErrors(d) <==> d.copiesInUse < 0 || d.copiesInUse > d.totalCopies
    ensures d.copiesInUse > d.totalCopies ==> ExpectedErrors(d)[CopiesInUse] == InUseExceedsTotal
    ensures d.copiesInUse < 0 && d.copiesInUse <= d.totalCopies ==> ExpectedErrors(d)[CopiesInUse] == InUseNegative
  {
  }

  /** Type, ISBN and category are never reported. */
  lemma OptionalFieldsNeverErr(d: FormData)
    ensures Type !in ExpectedErrors(d) && Isbn !in ExpectedErrors(d) && Category !in ExpectedErrors(d)
  {
  }

  /** A record the service accepts, with copies in range and no BYTE ORDER
      MARK (U+FEFF) in its names, loads into a form that passes validation. */
  lemma LoadedValidBookPasses(b: BookResponse)
    requires IsValidBook(Stored(b)) && 0 <= b.copiesInUse <= b.totalCopies
    requires '\U{FEFF}' !in b.title && '\U{FEFF}' !in b.firstName && '\U{FEFF}' !in b.lastName
    ensures FormValid(FromBook(b))
  {
    NetNonBlankIsJsNonBlank(b.title);
    NetNonBlankIsJsNonBlank(b.firstName);
    NetNonBlankIsJsNonBlank(b.lastName);
    TrimSpec(b.title);
    TrimSpec(b.firstName);
    TrimSpec(b.lastName);
  }

  /** The two sides disagree on the BYTE ORDER MARK: a title holding only
      U+FEFF passes the service's [Required], for which it is not whitespace,
      but trim strips it, so the form loaded from that record reports the
      title as missing. */
  lemma ByteOrderMarkTitleFailsForm(b: BookResponse)
    requires b.title == "\U{FEFF}"
    ensures Required(b.title)
    ensures Title in ExpectedErrors(FromBook(b)) && ExpectedErrors(FromBook(b))[Title] == TitleRequired
    ensures !FormValid(FromBook(b))
  {
    assert !IsNetWhiteSpace(b.title[0]);
    TrimSpec(b.title);
    assert AllJsWhite(b.title);
  }

  /** The client does not check lengths: a form with a 101-character title
      passes validation although the service's annotations reject such a
      title. */
  lemma FormIgnoresLengthLimits()
    ensures exists d :: FormValid(d) && |d.title| > 100
  {
    var long := seq(101, i => 'a');
    var d := FormData(long, "A", "B", 0, 0, "", "", "");
    assert !IsJsWhiteSpace(long[0]) && d.firstName[0] == 'A' && d.lastName[0] == 'B';
    assert !AllJsWhite(d.title) && !AllJsWhite(d.firstName) && !AllJsWhite(d.lastName);
    TrimSpec(d.title);
    TrimSpec(d.firstName);
    TrimSpec(d.lastName);
    assert FormValid(d);
  }

  /** Object.keys(m).length === 0 exactly when m has no entry. */
  lemma EmptyIffNoKeys(m: map<Field, string>)
    ensures |m| == 0 <==> m == map[]
  {
    if m != map[] {
      var k :| k in m;
      assert k in m.Keys;
    }
  }

  /** The BookForm component's state. */
  class BookFormState {
    /** The book prop: present when editing. */
    var book: Option<BookResponse>
    var formData: FormData
    var errors: map<Field, string>

    /** The state a new form mounts with, before any book is loaded. */
    constructor ()
      ensures book == None && formData == EmptyForm() && errors == map[]
    {
      book, formData, errors := None, EmptyForm(), map[];
    }

    /** The [book] effect: the prop changes, and a present book is loaded
        into formData; errors are kept. */
    method OnBookChanged(b: Option<BookResponse>)
      modifies this
      ensures book == b && errors == old(errors)
      ensures formData == if b.Some? then FromBook(b.value) else old(formData)
    {
      book := b;
      if b.Some? {
        formData := FromBook(b.value);
      }
    }

    /** validateForm: builds a fresh error map one check at a time, replaces
        the previous errors with it, and reports whether it is empty. */
    method ValidateForm() returns (ok: bool)
      modifies this`errors
      ensures errors == ExpectedErrors(formData)
      ensures ok <==> FormValid(formData)
    {
      var d := formData;
      var newErrors: map<Field, string> := map[];
      if Blank(d.title) {
        newErrors := newErrors[Title := TitleRequired];
      }
      assert newErrors == Put(map[], Title, RequiredError(d.title, TitleRequired));
      ghost var before := newErrors;
      if Blank(d.firstName) {
        newErrors := newErrors[FirstName := FirstNameRequired];
      }
      assert newErrors == Put(before, FirstName, RequiredError(d.firstName, FirstNameRequired));
      before := newErrors;
      if Blank(d.lastName) {
        newErrors := newErrors[LastName := LastNameRequired];
      }
      assert newErrors == Put(before, LastName, RequiredError(d.lastName, LastNameRequired));
      before := newErrors;
      if d.totalCopies < 0 {
        newErrors := newErrors[TotalCopies := TotalNegative];
      }
      assert newErrors == Put(before, TotalCopies, TotalError(d));
      before := newErrors;
      if d.copiesInUse < 0 {
        newErrors := newErrors[CopiesInUse := InUseNegative];
      }
      if d.copiesInUse > d.totalCopies {
        newErrors := newErrors[CopiesInUse := InUseExceedsTotal];
      }
      assert newErrors == Put(before, CopiesInUse, InUseError(d));
      assert newErrors == ExpectedErrors(d);
      errors := newErrors;
      ok := |newErrors| == 0;
      assert ok <==> FormValid(d) by {
        NoErrorsIffValid(d);
        EmptyIffNoKeys(newErrors);
      }
    }

    /** handleSubmit: validates; on failure onSubmit is not called (None);
        otherwise it receives formData, with the book's id when editing. */
    method HandleSubmit() returns (sent: Option<Payload>)
      modifies this`errors
      ensures errors == ExpectedErrors(formData)
      ensures sent.None? <==> !FormValid(formData)
      ensures sent.Some? && book.None? ==> sent.value == Create(formData)
      ensures sent.Some? && book.Some? ==> sent.value == Update(book.value.bookId, formData)
    {
      var ok := ValidateForm();
      if !ok {
        return None;
      }
      if book.Some? {
        sent := Some(Update(book.value.bookId, formData));
      } else {
        sent := Some(Create(formData));
      }
    }

    /** handleChange: sets the one field; if that field shows an error, only
        that error is reset to the empty string. */
    method HandleChange(f: Field, v: FieldValue)
      requires Fits(f, v)
      modifies this
      ensures book == old(book)
      ensures formData == WithField(old(formData), f, v)
      ensures errors == if f in old(errors) && old(errors)[f] != ""
                        then old(errors)[f := ""] else old(errors)
    {
      formData := WithField(formData, f, v);
      if f in errors && errors[f] != "" {
        errors := errors[f := ""];
      }
    }
  }
}

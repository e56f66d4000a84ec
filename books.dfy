/** The Book entity, its derived properties and data-annotation validity,
    the status enumeration, and the BookResponse view returned by every
    service operation. */
module Books {
  import opened Common
  import opened Text

  /** BookStatus: an availability classification used only as a search
      filter, never stored. */
  datatype BookStatus = WantToRead | Reading | Read

  /** A persisted catalogue record. `bookType` is the source's `Type`. */
  datatype Book = Book(
    bookId: int,
    title: string,
    firstName: string,
    lastName: string,
    totalCopies: int,
    copiesInUse: int,
    bookType: Option<string>,
    isbn: Option<string>,
    category: Option<string>)

  /** A freshly constructed Book: identity 0 (not yet assigned by the store),
      empty required strings, zero copies, no optional values. */
  function NewBook(): (b: Book)
    ensures b.bookId == 0 && b.totalCopies == 0 && b.copiesInUse == 0
    ensures b.title == [] && b.firstName == [] && b.lastName == []
    ensures b.bookType.None? && b.isbn.None? && b.category.None?
  {
    Book(0, "", "", "", 0, 0, None, None, None)
  }

  /** FullAuthorName: first name, one space, last name. */
  function FullAuthorName(b: Book): (r: string)
    ensures |r| == |b.firstName| + 1 + |b.lastName|
    ensures r[..|b.firstName|] == b.firstName && r[|b.firstName|] == ' '
    ensures r[|b.firstName| + 1..] == b.lastName
  {
    b.firstName + " " + b.lastName
  }

  /** AvailableCopies: copies owned minus copies in use (not clamped). */
  function AvailableCopies(b: Book): (r: int)
    ensures r + b.copiesInUse == b.totalCopies
  {
    b.totalCopies - b.copiesInUse
  }

  /** [Required] on a string: present and not whitespace only. */
  predicate Required(s: string)
  {
    !IsNullOrWhiteSpace(Some(s))
  }

  /** [StringLength(max)] on an optional string: absent, or at most max
      characters. */
  predicate WithinLength(s: Option<string>, max: nat)
  {
    s.None? || |s.value| <= max
  }

  /** The model state check run before create and update: every Required and
      StringLength annotation of the Book class holds. Nothing relates
      TotalCopies and CopiesInUse. */
  predicate IsValidBook(b: Book)
  {
    && Required(b.title) && |b.title| <= 100
    && Required(b.firstName) && |b.firstName| <= 50
    && Required(b.lastName) && |b.lastName| <= 50
    && WithinLength(b.bookType, 50)
    && WithinLength(b.isbn, 80)
    && WithinLength(b.category, 50)
  }

  /** What validity means for each annotated property: each required name
      has a character .NET does not count as whitespace, and each string is
      within its length bound. */
  lemma ValidBookFields(b: Book)
    ensures IsValidBook(b) <==>
      && (exists i :: 0 <= i < |b.title| && !IsNetWhiteSpace(b.title[i])) && |b.title| <= 100
      && (exists i :: 0 <= i < |b.firstName| && !IsNetWhiteSpace(b.firstName[i])) && |b.firstName| <= 50
      && (exists i :: 0 <= i < |b.lastName| && !IsNetWhiteSpace(b.lastName[i])) && |b.lastName| <= 50
      && (b.bookType.Some? ==> |b.bookType.value| <= 50)
      && (b.isbn.Some? ==> |b.isbn.value| <= 80)
      && (b.category.Some? ==> |b.category.value| <= 50)
  {
  }

  /** A whitespace-only title is rejected even though it is not empty. */
  lemma BlankTitleIsInvalid(b: Book)
    requires b.title != [] && AllNetWhite(b.title)
    ensures !IsValidBook(b)
  {
  }

  /** Validity does not constrain the copy counts: a valid record may have
      more copies in use than it owns, so its AvailableCopies is negative. */
  lemma ValidBookMayBeOverdrawn()
    ensures exists b :: IsValidBook(b) && AvailableCopies(b) < 0
  {
    var b := Book(0, "1984", "George", "Orwell", 1, 5, None, None, None);
    assert !IsNetWhiteSpace(b.title[0]) && !IsNetWhiteSpace(b.firstName[0])
      && !IsNetWhiteSpace(b.lastName[0]);
    assert IsValidBook(b) && AvailableCopies(b) < 0;
  }

  /** BookResponse: the record as returned by the service, with the two
      derived properties filled in. */
  datatype BookResponse = BookResponse(
    bookId: int,
    title: string,
    firstName: string,
    lastName: string,
    fullAuthorName: string,
    totalCopies: int,
    copiesInUse: int,
    availableCopies: int,
    bookType: Option<string>,
    isbn: Option<string>,
    category: Option<string>)

  /** The derived fields of a view agree with its stored fields. */
  predicate ViewConsistent(v: BookResponse)
  {
    && v.fullAuthorName == v.firstName + " " + v.lastName
    && v.availableCopies == v.totalCopies - v.copiesInUse
  }

  /** The stored record a view was made from: the view minus its derived
      fields. */
  function Stored(v: BookResponse): Book
  {
    Book(v.bookId, v.title, v.firstName, v.lastName, v.totalCopies,
         v.copiesInUse, v.bookType, v.isbn, v.category)
  }

  /** The `new BookResponse { ... }` mapping of the service: every stored
      field copied, FullAuthorName and AvailableCopies computed. */
  function ToResponse(b: Book): (v: BookResponse)
    ensures ViewConsistent(v)
    ensures Stored(v) == b
    ensures v.fullAuthorName == FullAuthorName(b)
    ensures v.availableCopies == AvailableCopies(b)
  {
    BookResponse(b.bookId, b.title, b.firstName, b.lastName, FullAuthorName(b),
                 b.totalCopies, b.copiesInUse, AvailableCopies(b),
                 b.bookType, b.isbn, b.category)
  }

  /** A consistent view is determined by its stored fields: mapping the
      record back out of it gives the same view. */
  lemma ConsistentViewRoundTrip(v: BookResponse)
    requires ViewConsistent(v)
    ensures ToResponse(Stored(v)) == v
  {
  }

  /** The mapping loses nothing: distinct records give distinct views. */
  lemma ToResponseInjective(a: Book, b: Book)
    requires ToResponse(a) == ToResponse(b)
    ensures a == b
  {
    assert a == Stored(ToResponse(a));
  }

  /** UpdateBookAsync's field-by-field assignment: the eight mutable fields
      come from the payload, the identity stays the existing record's. */
  function Overwrite(existing: Book, payload: Book): (r: Book)
    ensures r.bookId == existing.bookId
  {
    existing.(title := payload.title, firstName := payload.firstName,
              lastName := payload.lastName, totalCopies := payload.totalCopies,
              copiesInUse := payload.copiesInUse, bookType := payload.bookType,
              isbn := payload.isbn, category := payload.category)
  }

  /** Update is a full replace: the result is the payload with the existing
      identity, so nothing of the old mutable fields survives and the
      payload's own BookId is ignored. */
  lemma OverwriteIsReplace(existing: Book, payload: Book, otherId: int)
    ensures Overwrite(existing, payload) == payload.(bookId := existing.bookId)
    ensures Overwrite(existing, payload) == Overwrite(existing, payload.(bookId := otherId))
  {
  }

  /** Last write wins: a second update erases the first, and repeating an
      update changes nothing more. */
  lemma OverwriteLastWins(existing: Book, p1: Book, p2: Book)
    ensures Overwrite(Overwrite(existing, p1), p2) == Overwrite(existing, p2)
    ensures Overwrite(Overwrite(existing, p1), p1) == Overwrite(existing, p1)
  {
  }

  /** A record overwritten with a valid payload is valid, whatever it was. */
  lemma OverwriteKeepsValid(existing: Book, payload: Book)
    requires IsValidBook(payload)
    ensures IsValidBook(Overwrite(existing, payload))
  {
  }
}

# Book library catalogue — a Dafny model

This project models the core of a small library catalogue: the backend's
`BookService` (search with optional filters and paging, and get / create /
update / delete over one `Book` table), the `Book` record with its derived
properties and data-annotation validity, and two pieces of the browser
client: the book form's validator and submit logic, and the search form's
parameter normaliser.

Modules, one per source file or component:

- `Common` (common.dfy): `Option` and `Result`.
- `Text` (text.dfy): the two whitespace tests, of `string.IsNullOrWhiteSpace`
  and JavaScript's `trim`, trimming, and exact substring containment.
- `Books` (books.dfy): `Book`, `BookStatus`, `BookResponse`, the derived
  `FullAuthorName` / `AvailableCopies`, the `[Required]` / `[StringLength]`
  check, the view mapping and the update's field-by-field overwrite.
- `Search` (search.dfy): `SearchBooksAsync` as pure functions over the
  table's rows in enumeration order: the chain of `Where` clauses, the
  count, `Skip`/`Take`, and the mapping to views. A reference filter
  (`Selected`, built from `Matches`, the plain conjunction of the supplied
  filters) is proved equal to the clause chain, and the count, paging and
  status properties are proved about it.
- `Catalog` (catalog.dfy): the table as a class `BookStore` with a
  `map<int, Book>` keyed by identity, the identity column's next value and
  the enumeration order; get, create, update, delete and search are methods
  on it. The store invariant says every key is its record's own identity,
  below the next identity, and every stored record passed the annotation
  check.
- `BookForm` (book_form.dfy): the form state as a class, with
  `validateForm`, `handleSubmit`, `handleChange` and the load-from-book
  effect as methods, each proved against a specification function
  (`ExpectedErrors`, `FormValid`, `WithField`, `FromBook`).
- `SearchForm` (search_form.dfy): the search form state as a class, with
  `handleSubmit` (trim and drop empty filters), `handleReset` and the status
  select; `handleSubmit` is proved to emit the unique normalised parameter
  set asking for the same filters.

Modelling choices:

- Text containment is exact and case sensitive (ordinal `Contains`).
- The table enumerates its rows in ascending identity, which is also
  insertion order because identities only grow; search runs over that
  sequence and filtering keeps it.
- A search with a negative Skip count (`(Page - 1) * PageSize < 0`) or a
  negative page size fails with `NegativePaging`: the database refuses a
  negative OFFSET or FETCH and the controller reports the exception as HTTP
  500. From page 1 on with a non-negative page size the search always
  succeeds.
- `CreateBook` with a payload whose `BookId` is not 0 fails with
  `ExplicitIdentity` and changes nothing: Entity Framework sends a non-default
  key to the identity column, which SQL Server refuses.
- The controller's `ModelState.IsValid` gate is the precondition
  `IsValidBook` of `CreateBook` and `UpdateBook`.
- The source's `Type` property is the field `bookType` (`type` is a Dafny
  keyword).

## Model

| member | source | states |
|---|---|---|
| Text.IsNetWhiteSpace | BookLibraryProject/Services/BookService.cs:22 | .NET's `char.IsWhiteSpace`, the test behind `string.IsNullOrWhiteSpace`: the shared whitespace set plus U+0085 |
| Text.IsJsWhiteSpace | WebApp/book-library-app/src/components/SearchForm.tsx:24-27 | the characters JavaScript's `trim()` strips: the shared whitespace set plus U+FEFF |
| Text.IsNullOrWhiteSpace | BookLibraryProject/Services/BookService.cs:22-40 | definition of `string.IsNullOrWhiteSpace`: null, or .NET whitespace only (U+0085 included, U+FEFF not) |
| Text.Trim | WebApp/book-library-app/src/components/SearchForm.tsx:24-27 | definition of `trim()`: drops JavaScript whitespace (U+FEFF included, U+0085 not) from both ends; its properties are the Trim lemmas below |
| Text.NetNonBlankIsJsNonBlank | BookLibraryProject/Models/Book.cs:12-22 | a string not blank for `[Required]` and without U+FEFF is not blank for `trim()` either |
| Text.TrimStartSpec | WebApp/book-library-app/src/components/SearchForm.tsx:24-27 | trimming the front keeps a suffix, drops only whitespace, and leaves a non-whitespace first character |
| Text.TrimEndSpec | WebApp/book-library-app/src/components/SearchForm.tsx:24-27 | trimming the back keeps a prefix, drops only whitespace, and leaves a non-whitespace last character |
| Text.TrimSpec | WebApp/book-library-app/src/components/BookForm.tsx:48-58 | `trim()` leaves no whitespace at either end, and is empty exactly when the string is whitespace only |
| Text.TrimIsCore | WebApp/book-library-app/src/components/SearchForm.tsx:24-27 | the trimmed string is a contiguous part of the original with only whitespace cut on each side |
| Text.TrimOfTrimmed | WebApp/book-library-app/src/components/SearchForm.tsx:24-27 | a string without whitespace at its ends is left unchanged by `trim()` |
| Text.TrimIdempotent | WebApp/book-library-app/src/components/SearchForm.tsx:24-27 | trimming twice equals trimming once |
| Text.Contains | BookLibraryProject/Services/BookService.cs:25-27 | definition of ordinal `Contains`, by scanning start positions; meaning in ContainsSpec |
| Text.ContainsSpec | BookLibraryProject/Services/BookService.cs:25-27 | `Contains` holds exactly when the fragment occurs at some index of the string |
| Text.ContainsInConcat | BookLibraryProject/Services/BookService.cs:25-27 | a fragment found in a string is still found after text is added on either side |
| Books.NewBook | BookLibraryProject/Models/Book.cs:9-26 | a new Book has identity 0, empty required strings, zero counts and no optional values |
| Books.FullAuthorName | BookLibraryProject/Models/Book.cs:37-38 | the full name is the first name, one space, then the last name |
| Books.AvailableCopies | BookLibraryProject/Models/Book.cs:40-41 | available plus in use equals total copies, with no clamping |
| Books.Required | BookLibraryProject/Models/Book.cs:12-20 | `[Required]` on a string: not null, empty or .NET whitespace only |
| Books.WithinLength | BookLibraryProject/Models/Book.cs:13-34 | `[StringLength(max)]` on an optional string: absent, or at most max characters |
| Books.IsValidBook | BookLibraryProject/Models/Book.cs:12-35 | definition of the annotation check, one conjunct per `[Required]` / `[StringLength]`; meaning in ValidBookFields |
| Books.ValidBookFields | BookLibraryProject/Models/Book.cs:12-35 | a book is valid exactly when title, first name and last name each have a character .NET does not count as whitespace, the title has at most 100 characters and each name at most 50, and type/ISBN/category, when present, have at most 50/80/50 |
| Books.BlankTitleIsInvalid | BookLibraryProject/Models/Book.cs:12-14 | a non-empty but whitespace-only title fails `[Required]` |
| Books.ValidBookMayBeOverdrawn | BookLibraryProject/Models/Book.cs:24-41 | some valid book has more copies in use than it owns, so a negative AvailableCopies |
| Books.ToResponse | BookLibraryProject/Services/BookService.cs:96-109 | the view's derived fields agree with its stored fields, and removing them gives back the record |
| Books.ConsistentViewRoundTrip | BookLibraryProject/DTOs/BookResponse.cs:3-16 | a view whose derived fields are consistent is the view of its own stored fields |
| Books.ToResponseInjective | BookLibraryProject/Services/BookService.cs:96-109 | distinct records give distinct views |
| Books.Overwrite | BookLibraryProject/Services/BookService.cs:139-146 | the update keeps the existing record's BookId |
| Books.OverwriteIsReplace | BookLibraryProject/Services/BookService.cs:139-146 | update is a full replace: the result is the payload with the existing identity, whatever BookId the payload carries |
| Books.OverwriteLastWins | BookLibraryProject/Services/BookService.cs:139-146 | a second update erases the first; repeating an update changes nothing more |
| Books.OverwriteKeepsValid | BookLibraryProject/Controllers/BooksController.cs:74-77 | overwriting any record with a payload that passed validation gives a valid record |
| Search.DefaultRequest | BookLibraryProject/DTOs/BookSearchRequest.cs:7-13 | with no parameter given there is no filter or status, Page is 1 and PageSize is 10 |
| Search.AuthorMatches | BookLibraryProject/Services/BookService.cs:24-27 | the author lambda: the fragment occurs in "First Last", in the first name or in the last name |
| Search.IsbnMatches | BookLibraryProject/Services/BookService.cs:32 | the ISBN lambda: the ISBN is present and contains the fragment |
| Search.TitleMatches | BookLibraryProject/Services/BookService.cs:37 | the title lambda: the title contains the fragment |
| Search.CategoryMatches | BookLibraryProject/Services/BookService.cs:42 | the category lambda: the category is present and contains the fragment |
| Search.HasAvailable | BookLibraryProject/Services/BookService.cs:50 | the "want to read" lambda: TotalCopies - CopiesInUse > 0 |
| Search.PartlyInUse | BookLibraryProject/Services/BookService.cs:53 | the "reading" lambda: 0 < CopiesInUse < TotalCopies |
| Search.TextClause | BookLibraryProject/Services/BookService.cs:22-43 | a text filter adds one Where clause exactly when the fragment is not null or whitespace |
| Search.StatusClause | BookLibraryProject/Services/BookService.cs:45-58 | the status adds a clause exactly for "want to read" and "reading" |
| Search.Clauses | BookLibraryProject/Services/BookService.cs:22-58 | the Where clauses in the order the service adds them: author, ISBN, title, category, status |
| Search.Where | BookLibraryProject/Services/BookService.cs:24-53 | `Enumerable.Where` with one clause: never more rows than the input; distributes over concatenation (Search.WhereConcat) |
| Search.WhereConcat | BookLibraryProject/Services/BookService.cs:24-53 | Where on a concatenation is Where on each part, concatenated, so it keeps order |
| Search.Narrow | BookLibraryProject/Services/BookService.cs:20-58 | the narrowed query never has more rows than the table (its content: `Search.QueryIsSelected`) |
| Search.SelectedConcat | BookLibraryProject/Services/BookService.cs:20-58 | filtering keeps store order: the matches of a concatenation are the first part's matches then the second's |
| Search.SelectedMembers | BookLibraryProject/Services/BookService.cs:20-58 | a record is selected exactly when it is in the table and matches every supplied filter |
| Search.SelectedCount | BookLibraryProject/Services/BookService.cs:60 | the number of selected records is the number of table positions whose record matches |
| Search.SelectedRefines | BookLibraryProject/Services/BookService.cs:45-58 | if one request accepts exactly what another accepts and a clause holds, its selection is the other's narrowed by that clause, in order |
| Search.NarrowIsConjunction | BookLibraryProject/Services/BookService.cs:20-58 | applying Where clauses one after another keeps exactly the rows satisfying all of them at once, in order |
| Search.ClausesMeanMatches | BookLibraryProject/Services/BookService.cs:22-58 | the request's clauses all hold of a record exactly when the record satisfies every supplied filter |
| Search.QueryIsSelected | BookLibraryProject/Services/BookService.cs:20-58 | the service's query equals the reference filter: every supplied filter applied at once, store order kept |
| Search.Offset | BookLibraryProject/Services/BookService.cs:63 | definition of the Skip count `(Page - 1) * PageSize`; its sign decides success (Search.SearchBooks) |
| Search.PageOf | BookLibraryProject/Services/BookService.cs:62-64 | Skip/Take gives at most Take rows, exactly as many as remain up to Take, each the one at position Skip + i |
| Search.Views | BookLibraryProject/Services/BookService.cs:65-78 | each view is consistent and comes from the row at the same position |
| Search.SearchBooks | BookLibraryProject/Services/BookService.cs:18-88 | the search fails exactly on a negative Skip or page size; otherwise it echoes Page and PageSize and returns at most PageSize items |
| Search.SearchSucceedsOnValidPaging | BookLibraryProject/Services/BookService.cs:63 | from page 1 on with a non-negative page size the search succeeds |
| Search.SearchCountsMatches | BookLibraryProject/Services/BookService.cs:60 | TotalItems is the number of records satisfying all supplied filters, counted before paging |
| Search.TotalIgnoresPaging | BookLibraryProject/Services/BookService.cs:60-64 | TotalItems does not depend on Page or PageSize |
| Search.SearchItemsAreSlice | BookLibraryProject/Services/BookService.cs:62-79 | the items are the views of the matching records from position (Page-1)*PageSize on, in store order; each is consistent and comes from a matching stored record |
| Search.ShortPageIsLast | BookLibraryProject/Services/BookService.cs:62-64 | a page shorter than PageSize leaves no matching record after it |
| Search.ReadIsNoFilter | BookLibraryProject/Services/BookService.cs:55-56 | status "read" gives the same result as no status |
| Search.WantToReadKeepsAvailable | BookLibraryProject/Services/BookService.cs:49-51 | "want to read" keeps, in order, exactly the status-less matches with TotalCopies - CopiesInUse > 0 |
| Search.ReadingKeepsPartlyInUse | BookLibraryProject/Services/BookService.cs:52-54 | "reading" keeps, in order, exactly the status-less matches with 0 < CopiesInUse < TotalCopies |
| Search.ReadingWithinWantToRead | BookLibraryProject/Services/BookService.cs:49-54 | every "reading" result is a "want to read" result; the former is the latter narrowed further |
| Search.AuthorMatchesFullName | BookLibraryProject/Services/BookService.cs:22-28 | the author filter holds exactly when the fragment occurs in "First Last"; the first- and last-name tests add nothing |
| Search.HarperLeeExample | BookLibraryProject/Services/BookService.cs:22-28 | "Lee" and "Harper Lee" both find Harper Lee, the latter only through the concatenated name |
| Search.OrwellExample | BookLibraryProject/Services/BookService.cs:35-74 | "1984" with 15 copies, 5 in use, matches status "reading" with title "198"; its view shows 10 available and "George Orwell" |
| Catalog.Without | BookLibraryProject/Services/BookService.cs:172 | removing an identity from the enumeration keeps every other one, in ascending order |
| Catalog.BookStore.Rows | BookLibraryProject/Services/BookService.cs:20 | the rows are exactly the table's records, as many as there are keys, each under its own identity, every stored record among them, in strictly ascending identity |
| Catalog.BookStore.constructor | BookLibraryProject/Data/LibraryContext.cs:17-18 | an empty table whose identity starts at 1 |
| Catalog.BookStore.GetBookById | BookLibraryProject/Services/BookService.cs:90-110 | None exactly when the identity is absent; otherwise the consistent view of that record |
| Catalog.BookStore.CreateBook | BookLibraryProject/Services/BookService.cs:112-131 | the payload is stored under a fresh identity, appended to the enumeration, nothing else changes, and its view is returned; a payload with its own key is refused without change |
| Catalog.BookStore.UpdateBook | BookLibraryProject/Services/BookService.cs:133-164 | for an absent identity None and no change; otherwise only that record is overwritten with the payload's eight fields, keeping its identity, and its new view returned |
| Catalog.BookStore.DeleteBook | BookLibraryProject/Services/BookService.cs:166-176 | true exactly when the identity was present; only that record is removed |
| Catalog.BookStore.SearchBooks | BookLibraryProject/Services/BookService.cs:18-88 | search over the table's rows; every returned view is that of a stored record |
| Catalog.CreateThenGet | BookLibraryProject/Services/BookService.cs:90-131 | reading back a created record by its returned identity gives the created view, with the full name and available copies computed |
| Catalog.DeleteThenGet | BookLibraryProject/Services/BookService.cs:90-176 | after a delete, reading that identity gives None |
| BookForm.EmptyForm | WebApp/book-library-app/src/components/BookForm.tsx:17-26 | the initial form has empty strings and zero counts |
| BookForm.WithField | WebApp/book-library-app/src/components/BookForm.tsx:101 | the named field takes the value and no other field changes |
| BookForm.OrEmpty | WebApp/book-library-app/src/components/BookForm.tsx:38-40 | `value \|\| ''` is the value when present and the empty string when absent |
| BookForm.FromBook | WebApp/book-library-app/src/components/BookForm.tsx:30-43 | loading a book copies every field, absent type/ISBN/category becoming '' |
| BookForm.NoErrorsIffValid | WebApp/book-library-app/src/components/BookForm.tsx:45-74 | the error map is empty exactly when the names are non-blank after trimming and 0 <= copiesInUse <= totalCopies |
| BookForm.NameErrors | WebApp/book-library-app/src/components/BookForm.tsx:48-58 | title, first name and last name each get an error exactly when whitespace only |
| BookForm.CopyCountErrors | WebApp/book-library-app/src/components/BookForm.tsx:60-70 | totalCopies errs exactly when negative; copiesInUse exactly when negative or above totalCopies, the "greater than total" message winning when both hold |
| BookForm.OptionalFieldsNeverErr | WebApp/book-library-app/src/components/BookForm.tsx:45-74 | type, ISBN and category never get an error |
| BookForm.LoadedValidBookPasses | WebApp/book-library-app/src/components/BookForm.tsx:30-70 | a record the service accepts, with copies in range and no U+FEFF in its names, loads into a form that validates |
| BookForm.ByteOrderMarkTitleFailsForm | WebApp/book-library-app/src/components/BookForm.tsx:48-50 | a record whose title is only U+FEFF passes the service's `[Required]`, yet the form loaded from it reports "Title is required" and does not validate |
| BookForm.FormIgnoresLengthLimits | WebApp/book-library-app/src/components/BookForm.tsx:45-74 | a form with a 101-character title validates although the service rejects it |
| BookForm.BookFormState.constructor | WebApp/book-library-app/src/components/BookForm.tsx:17-28 | the form mounts with no book, the empty form and no errors |
| BookForm.BookFormState.OnBookChanged | WebApp/book-library-app/src/components/BookForm.tsx:30-43 | a present book is loaded into the form; otherwise the form is kept |
| BookForm.BookFormState.ValidateForm | WebApp/book-library-app/src/components/BookForm.tsx:45-74 | the errors are replaced by the expected error map, and the result is true exactly when the form is acceptable |
| BookForm.BookFormState.HandleSubmit | WebApp/book-library-app/src/components/BookForm.tsx:76-98 | nothing is submitted when validation fails; otherwise formData in add mode, formData with the book's id in edit mode |
| BookForm.BookFormState.HandleChange | WebApp/book-library-app/src/components/BookForm.tsx:100-107 | only the named field changes; if it showed an error only that error is reset to '' |
| SearchForm.NoParams | WebApp/book-library-app/src/components/SearchForm.tsx:23 | `{}` has no property set |
| SearchForm.BlankFields | WebApp/book-library-app/src/components/SearchForm.tsx:11-17 | the blank fields are four empty strings and no status |
| SearchForm.NormalisedUnique | WebApp/book-library-app/src/components/SearchForm.tsx:19-31 | at most one normalised parameter set asks for given filters |
| SearchForm.NormalTextMeaning | WebApp/book-library-app/src/components/SearchForm.tsx:24-27 | an emitted text filter is present exactly when the trimmed field is non-empty, and then is the trimmed value |
| SearchForm.NormalTextApplies | WebApp/book-library-app/src/components/SearchForm.tsx:24-27 | an emitted text filter that does not start with U+0085 is not null or whitespace for .NET, so the service applies it |
| SearchForm.NextLineFilterIsIgnored | WebApp/book-library-app/src/components/SearchForm.tsx:24-27 | a field holding only U+0085 survives `trim()` and is emitted, yet the service treats it as whitespace and applies no filter |
| SearchForm.NormaliseIdempotent | WebApp/book-library-app/src/components/SearchForm.tsx:19-31 | submitting already normalised parameters emits them unchanged |
| SearchForm.DisplayedValue | WebApp/book-library-app/src/components/SearchForm.tsx:107 | definition of `status \|\| ''`: the "All status" option when no status is set; SelectRoundTrip relates it to StatusFromSelect |
| SearchForm.StatusFromSelect | WebApp/book-library-app/src/components/SearchForm.tsx:108-111 | the select gives no status exactly for the "All status" option |
| SearchForm.SelectRoundTrip | WebApp/book-library-app/src/components/SearchForm.tsx:107-111 | the displayed value and the selected status convert into each other |
| SearchForm.FromFirstPage | WebApp/book-library-app/src/App.tsx:21-23 | the search is sent with page 1 and otherwise unchanged |
| SearchForm.SearchFormState.constructor | WebApp/book-library-app/src/components/SearchForm.tsx:11-17 | the form mounts with the blank fields |
| SearchForm.SearchFormState.OnStatusChange | WebApp/book-library-app/src/components/SearchForm.tsx:108-111 | choosing an option changes only the status |
| SearchForm.SearchFormState.HandleSubmit | WebApp/book-library-app/src/components/SearchForm.tsx:19-31 | the emitted parameters are normalised, with no page or page size, and ask for the same filters and status as the form |
| SearchForm.SearchFormState.EmittedText | WebApp/book-library-app/src/components/SearchForm.tsx:24-27 | one field's emitted value is normal and has the same trimmed text as the form's |
| SearchForm.SearchFormState.HandleReset | WebApp/book-library-app/src/components/SearchForm.tsx:33-42 | the fields are blanked and `{}` is emitted |
| SearchForm.SubmitSearch | WebApp/book-library-app/src/components/SearchForm.tsx:19-31 | a submitted search is sent from page 1 with no page size; its text filters are trimmed and non-empty, and ask for the same filters and status as the form |

## Left out

- Entity Framework and SQL Server (LibraryContext.cs, the migration,
  Program.cs): persistence, seed data, dependency injection and CORS are
  not modelled; the table is a map plus an identity counter and an
  enumeration order.
- Database collation: containment is exact and case sensitive; a
  case-insensitive collation would match more.
- The controller (BooksController.cs): the mapping to 200/201/204/400/404/500
  is not modelled; only the `ModelState.IsValid` gate is, as a precondition.
- `async`/`await` and `SaveChangesAsync`: operations are synchronous.
- Store faults other than a negative OFFSET/FETCH and an explicit identity
  (connectivity, constraint violations) are not modelled.
- Search.SearchBooks: with PageSize = 0 the model returns an empty page. SQL Server requires a FETCH count greater than zero, so the real search likely fails there as it does for a negative count. Whether the provider's translation of `Take(0)` ever sends a zero FETCH is not known, so the model does not make this case a fault.
- Search.SearchBooks: the table's enumeration order without ORDER BY is taken to be ascending identity; the database does not promise it.
- Client networking and state (api.ts, useBooks.ts): query-string building,
  `fetch`, JSON encoding of payloads and loading/error state are not
  modelled, so neither is the conversion of the form's payload into the
  service's `Book` (an emptied optional field arrives as '' rather than
  null).
- The string values of the client's status enumeration and their binding
  to the service's `BookStatus`: src/types/enums.ts is not part of this
  model; statuses are the three datatype values on both sides.
- BookForm.BookFormState.HandleChange: requires that each input passes a value of its field's kind (text for text inputs, a number for the two count inputs), as every call site does; JavaScript itself would store any value.
- BookForm.BookFormState.HandleSubmit: the try/catch around onSubmit, the
  `loading` prop and `onCancel` are not modelled.
- UI rendering and routing (App.tsx, BookCard.tsx, the JSX of both forms),
  including the pager and the fact that a page change drops the filters.
- Pagination metadata (`totalPages`, `hasNextPage`, `hasPreviousPage`):
  `PagedResult` is not part of this model beyond its four visible fields.
- Machine integers and string length units: C# `int` overflow in
  `(Page - 1) * PageSize` and `TotalCopies - CopiesInUse`, and UTF-16 code
  unit lengths, are not modelled; integers are unbounded and lengths count
  characters.
- Whitespace: the two sides use different sets. .NET counts U+0085 (NEXT LINE) but not U+FEFF; JavaScript's `trim` strips U+FEFF but not U+0085. The model keeps both sets, so the cross-side lemmas need a hypothesis about those characters.
- BookForm.LoadedValidBookPasses: requires the names to hold no U+FEFF, because a title of only U+FEFF passes the service but fails the form (BookForm.ByteOrderMarkTitleFailsForm).
- SearchForm.NormalTextApplies: requires the emitted value not to start with U+0085, because a filter of only U+0085 is emitted by the form yet ignored by the service (SearchForm.NextLineFilterIsIgnored).

/** The SearchForm component's state logic: the blank search fields, the
    status select, the normalisation done on submit (trim, drop empties)
    and reset; plus App's handleSearch, which sends the emitted parameters
    from page 1. Rendering is not modelled. */
module SearchForm {
  import opened Common
  import opened Text
  import opened Books

  /** The client's BookSearchRequest: every property optional. */
  datatype SearchParams = SearchParams(
    author: Option<string>,
    isbn: Option<string>,
    status: Option<BookStatus>,
    title: Option<string>,
    category: Option<string>,
    page: Option<int>,
    pageSize: Option<int>)

  /** `{}`: no property set. */
  function NoParams(): (p: SearchParams)
    ensures p.author.None? && p.isbn.None? && p.status.None? && p.title.None?
    ensures p.category.None? && p.page.None? && p.pageSize.None?
  {
    SearchParams(None, None, None, None, None, None, None)
  }

  /** The fields as the form mounts and as reset leaves them: four empty
      strings and no status. */
  function BlankFields(): (p: SearchParams)
    ensures p.author == p.isbn == p.title == p.category == Some("")
    ensures p.status.None? && p.page.None? && p.pageSize.None?
  {
    SearchParams(Some(""), Some(""), None, Some(""), Some(""), None, None)
  }

  /** The trimmed text of an optional field, absent counting as empty. */
  function Trimmed(s: Option<string>): string
  {
    if s.Some? then Trim(s.value) else ""
  }

  /** A present text value is already trimmed and not empty. */
  predicate NormalText(s: Option<string>)
  {
    s.Some? ==> s.value != "" && IsTrimmed(s.value)
  }

  /** What handleSubmit can emit: text values trimmed and non-empty, no
      page or page size. */
  predicate Normalised(p: SearchParams)
  {
    && NormalText(p.author) && NormalText(p.isbn)
    && NormalText(p.title) && NormalText(p.category)
    && p.page.None? && p.pageSize.None?
  }

  /** a and b ask for the same filters once trimmed. */
  predicate SameFilters(a: SearchParams, b: SearchParams)
  {
    && Trimmed(a.author) == Trimmed(b.author)
    && Trimmed(a.isbn) == Trimmed(b.isbn)
    && Trimmed(a.title) == Trimmed(b.title)
    && Trimmed(a.category) == Trimmed(b.category)
    && a.status == b.status
  }

  lemma {:induction false} NormalTextUnique(s: Option<string>, a: Option<string>, b: Option<string>)
    requires NormalText(a) && NormalText(b)
    requires Trimmed(s) == Trimmed(a) && Trimmed(s) == Trimmed(b)
    ensures a == b
  {
    if a.Some? { TrimOfTrimmed(a.value); }
    if b.Some? { TrimOfTrimmed(b.value); }
  }

  /** At most one normalised parameter set asks for the filters of p. */
  lemma NormalisedUnique(p: SearchParams, a: SearchParams, b: SearchParams)
    requires Normalised(a) && Normalised(b) && SameFilters(p, a) && SameFilters(p, b)
    ensures a == b
  {
    NormalTextUnique(p.author, a.author, b.author);
    NormalTextUnique(p.isbn, a.isbn, b.isbn);
    NormalTextUnique(p.title, a.title, b.title);
    NormalTextUnique(p.category, a.category, b.category);
  }

  /** For one field of a normalised result: it is present exactly when the
      form's trimmed value is non-empty, and then holds that trimmed value. */
  lemma {:induction false} NormalTextMeaning(s: Option<string>, e: Option<string>)
    requires NormalText(e) && Trimmed(s) == Trimmed(e)
    ensures e.Some? <==> Trimmed(s) != ""
    ensures e.Some? ==> e.value == Trimmed(s)
  {
    if e.Some? { TrimOfTrimmed(e.value); }
  }

  /** A normalised text value that does not start with NEXT LINE (U+0085)
      passes the service's not-null-or-whitespace test, so the service
      applies the filter the form emitted. */
  lemma NormalTextApplies(e: Option<string>)
    requires NormalText(e) && e.Some? && e.value[0] != '\U{85}'
    ensures !IsNullOrWhiteSpace(e)
  {
    assert !IsNetWhiteSpace(e.value[0]);
  }

  /** The two sides disagree on NEXT LINE: trim keeps a field holding only
      U+0085, so the form emits it, and the service, for which it is
      whitespace, ignores the filter. */
  lemma NextLineFilterIsIgnored()
    ensures var e := Some("\U{85}");
            Trimmed(e) == "\U{85}" && NormalText(e) && IsNullOrWhiteSpace(e)
  {
    TrimOfTrimmed("\U{85}");
  }

  /** Normalising is idempotent: submitting a form that already holds
      normalised parameters emits exactly those parameters. */
  lemma NormaliseIdempotent(p: SearchParams, e: SearchParams)
    requires Normalised(p) && Normalised(e) && SameFilters(p, e)
    ensures e == p
  {
    NormalisedUnique(p, p, e);
  }

  /** The select's value for a status: `status || ''`. */
  datatype SelectValue = AllStatus | StatusValue(status: BookStatus)

  function DisplayedValue(st: Option<BookStatus>): SelectValue
  {
    if st.Some? then StatusValue(st.value) else AllStatus
  }

  /** The select's onChange: the empty "All status" option is no status. */
  function StatusFromSelect(v: SelectValue): (st: Option<BookStatus>)
    ensures st.None? <==> v == AllStatus
  {
    match v
    case AllStatus => None
    case StatusValue(s) => Some(s)
  }

  /** Choosing an option and showing the state again round-trip. */
  lemma SelectRoundTrip(v: SelectValue, st: Option<BookStatus>)
    ensures DisplayedValue(StatusFromSelect(v)) == v
    ensures StatusFromSelect(DisplayedValue(st)) == st
  {
  }

  /** App's handleSearch: the emitted parameters with page forced to 1. */
  function FromFirstPage(p: SearchParams): (r: SearchParams)
    ensures r.page == Some(1)
    ensures r.(page := p.page) == p
  {
    p.(page := Some(1))
  }

  /** The SearchForm component's state. */
  class SearchFormState {
    var searchParams: SearchParams

    constructor ()
      ensures searchParams == BlankFields()
    {
      searchParams := BlankFields();
    }

    /** The status select's onChange. */
    method OnStatusChange(v: SelectValue)
      modifies this
      ensures searchParams == old(searchParams).(status := StatusFromSelect(v))
    {
      searchParams := searchParams.(status := StatusFromSelect(v));
    }

    /** handleSubmit: builds the emitted parameters field by field, keeping
        each text value only when its trimmed form is non-empty. */
    method HandleSubmit() returns (emitted: SearchParams)
      ensures Normalised(emitted)
      ensures SameFilters(searchParams, emitted)
    {
      var p := searchParams;
      emitted := NoParams();
      if p.author.Some? && Trim(p.author.value) != "" {
        emitted := emitted.(author := Some(Trim(p.author.value)));
      }
      if p.isbn.Some? && Trim(p.isbn.value) != "" {
        emitted := emitted.(isbn := Some(Trim(p.isbn.value)));
      }
      if p.title.Some? && Trim(p.title.value) != "" {
        emitted := emitted.(title := Some(Trim(p.title.value)));
      }
      if p.category.Some? && Trim(p.category.value) != "" {
        emitted := emitted.(category := Some(Trim(p.category.value)));
      }
      if p.status.Some? {
        emitted := emitted.(status := p.status);
      }
      EmittedText(p.author, emitted.author);
      EmittedText(p.isbn, emitted.isbn);
      EmittedText(p.title, emitted.title);
      EmittedText(p.category, emitted.category);
    }

    /** One text field of handleSubmit is normal and asks for the same
        filter. */
    static lemma EmittedText(s: Option<string>, e: Option<string>)
      requires e == if s.Some? && Trim(s.value) != "" then Some(Trim(s.value)) else None
      ensures NormalText(e) && Trimmed(s) == Trimmed(e)
    {
      if e.Some? {
        TrimSpec(s.value);
        TrimIdempotent(s.value);
      }
    }

    /** handleReset: all four text fields cleared, no status, and `{}`
        emitted. */
    method HandleReset() returns (emitted: SearchParams)
      modifies this
      ensures searchParams == BlankFields()
      ensures emitted == NoParams()
    {
      searchParams := BlankFields();
      emitted := NoParams();
    }
  }

  /** Submitting the form and then the caller's page reset: the search is
      sent from page 1 with the form's filters, trimmed, and no page size. */
  method SubmitSearch(form: SearchFormState) returns (sent: SearchParams)
    ensures sent.page == Some(1) && sent.pageSize.None?
    ensures Normalised(sent.(page := None))
    ensures SameFilters(form.searchParams, sent)
  {
    var emitted := form.HandleSubmit();
    sent := FromFirstPage(emitted);
  }
}

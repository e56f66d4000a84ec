/** BookService.SearchBooksAsync: optional text and status filters narrowed
    one Where clause at a time over the store's rows (in the store's
    iteration order, no ordering applied), the match count, the page cut by
    Skip/Take and the mapping to BookResponse views. */
module Search {
  import opened Common
  import opened Text
  import opened Books

  /** BookSearchRequest as bound from the query string. */
  datatype SearchRequest = SearchRequest(
    author: Option<string>,
    isbn: Option<string>,
    status: Option<BookStatus>,
    title: Option<string>,
    category: Option<string>,
    page: int,
    pageSize: int)

  /** A request with no parameter given: no filter, first page of ten. */
  function DefaultRequest(): (r: SearchRequest)
    ensures r.author.None? && r.isbn.None? && r.status.None?
    ensures r.title.None? && r.category.None?
    ensures r.page == 1 && r.pageSize == 10
  {
    SearchRequest(None, None, None, None, None, 1, 10)
  }

  /** PagedResult<BookResponse>: one page of views, the number of records
      matching the filters, and the request's page and page size echoed. */
  datatype PagedResult = PagedResult(
    items: seq<BookResponse>,
    totalItems: int,
    page: int,
    pageSize: int)

  /** The database refuses a negative OFFSET or FETCH count; the controller
      turns the exception into HTTP 500. */
  datatype SearchFault = NegativePaging

  // ---------------------------------------------------------------------
  // The individual filter predicates

  /** The author fragment occurs in "First Last", in the first name or in
      the last name. */
  predicate AuthorMatches(b: Book, a: string)
  {
    Contains(b.firstName + " " + b.lastName, a) || Contains(b.firstName, a)
    || Contains(b.lastName, a)
  }

  /** A record without an ISBN never matches an ISBN fragment. */
  predicate IsbnMatches(b: Book, f: string)
  {
    b.isbn != None && Contains(b.isbn.value, f)
  }

  predicate TitleMatches(b: Book, f: string)
  {
    Contains(b.title, f)
  }

  /** A record without a category never matches a category fragment. */
  predicate CategoryMatches(b: Book, f: string)
  {
    b.category != None && Contains(b.category.value, f)
  }

  /** The "want to read" test: some copy is not in use. */
  predicate HasAvailable(b: Book)
  {
    (b.totalCopies - b.copiesInUse) > 0
  }

  /** The "reading" test: some but not all copies are in use. */
  predicate PartlyInUse(b: Book)
  {
    b.copiesInUse > 0 && b.copiesInUse < b.totalCopies
  }

  /** Reference definition of a match: every filter the request supplies
      holds of the record. A text filter is supplied when it is not null or
      whitespace; "read" imposes nothing. */
  predicate Matches(req: SearchRequest, b: Book)
  {
    && (IsNullOrWhiteSpace(req.author) || AuthorMatches(b, req.author.value))
    && (IsNullOrWhiteSpace(req.isbn) || IsbnMatches(b, req.isbn.value))
    && (IsNullOrWhiteSpace(req.title) || TitleMatches(b, req.title.value))
    && (IsNullOrWhiteSpace(req.category) || CategoryMatches(b, req.category.value))
    && (req.status == Some(WantToRead) ==> HasAvailable(b))
    && (req.status == Some(Reading) ==> PartlyInUse(b))
  }

  // ---------------------------------------------------------------------
  // The query as the service builds it: a chain of Where clauses

  /** One `query.Where(...)` clause. */
  datatype Clause =
    | AuthorClause(author: string)
    | IsbnClause(isbn: string)
    | TitleClause(title: string)
    | CategoryClause(category: string)
    | AvailableClause
    | ReadingClause

  predicate Holds(c: Clause, b: Book)
  {
    match c
    case AuthorClause(a) => AuthorMatches(b, a)
    case IsbnClause(f) => IsbnMatches(b, f)
    case TitleClause(f) => TitleMatches(b, f)
    case CategoryClause(f) => CategoryMatches(b, f)
    case AvailableClause => HasAvailable(b)
    case ReadingClause => PartlyInUse(b)
  }

  /** The clause a text filter adds: one when the fragment is not null or
      whitespace, none otherwise. */
  function TextClause(s: Option<string>, make: string -> Clause): (cs: seq<Clause>)
    ensures |cs| <= 1
    ensures cs != [] <==> !IsNullOrWhiteSpace(s)
  {
    if IsNullOrWhiteSpace(s) then [] else [make(s.value)]
  }

  /** The clause the status switch adds; "read" breaks out with none. */
  function StatusClause(st: Option<BookStatus>): (cs: seq<Clause>)
    ensures cs != [] <==> st == Some(WantToRead) || st == Some(Reading)
  {
    match st
    case None => []
    case Some(WantToRead) => [AvailableClause]
    case Some(Reading) => [ReadingClause]
    case Some(Read) => []
  }

  /** The Where clauses of a request, in the order the service adds them. */
  function Clauses(req: SearchRequest): seq<Clause>
  {
    TextClause(req.author, a => AuthorClause(a))
    + TextClause(req.isbn, f => IsbnClause(f))
    + TextClause(req.title, f => TitleClause(f))
    + TextClause(req.category, f => CategoryClause(f))
    + StatusClause(req.status)
  }

  /** The record as a one-element run if it satisfies the clause, else none. */
  function Keep(c: Clause, b: Book): seq<Book>
  {
    if Holds(c, b) then [b] else []
  }

  /** Enumerable.Where: the records satisfying the clause, in their order. */
  function Where(q: seq<Book>, c: Clause): (r: seq<Book>)
    ensures |r| <= |q|
  {
    if q == [] then [] else Keep(c, q[0]) + Where(q[1..], c)
  }

  /** `query = query.Where(...)` for each clause in turn. */
  function Narrow(q: seq<Book>, cs: seq<Clause>): (r: seq<Book>)
    ensures |r| <= |q|
    decreases |cs|
  {
    if cs == [] then q else Narrow(Where(q, cs[0]), cs[1..])
  }

  // ---------------------------------------------------------------------
  // Reference filter and its properties

  /** The records of q that match the request, in q's order. */
  function Selected(q: seq<Book>, req: SearchRequest): seq<Book>
  {
    if q == [] then []
    else (if Matches(req, q[0]) then [q[0]] else []) + Selected(q[1..], req)
  }

  /** Filtering preserves order: the matches of a concatenation are the
      matches of the first part followed by those of the second. */
  lemma {:induction false} SelectedConcat(a: seq<Book>, b: seq<Book>, req: SearchRequest)
    ensures Selected(a + b, req) == Selected(a, req) + Selected(b, req)
  {
    if a != [] {
      assert (a + b)[1..] == a[1..] + b;
      SelectedConcat(a[1..], b, req);
    } else {
      assert a + b == b;
    }
  }

  /** A record is selected exactly when it is in the store and matches. */
  lemma {:induction false} SelectedMembers(q: seq<Book>, req: SearchRequest, x: Book)
    ensures x in Selected(q, req) <==> x in q && Matches(req, x)
  {
    if q != [] {
      SelectedMembers(q[1..], req, x);
      assert x in q <==> x == q[0] || x in q[1..];
    }
  }

  /** The store positions whose record matches the request. */
  function MatchingPositions(q: seq<Book>, req: SearchRequest): set<int>
  {
    set i | 0 <= i < |q| && Matches(req, q[i])
  }

  /** The number of selected records is the number of matching positions of
      the store, duplicates included. */
  lemma {:induction false} SelectedCount(q: seq<Book>, req: SearchRequest)
    ensures |Selected(q, req)| == |MatchingPositions(q, req)|
    decreases |q|
  {
    if q == [] {
      assert MatchingPositions(q, req) == {};
    } else {
      var init, last := q[..|q| - 1], q[|q| - 1];
      assert q == init + [last];
      SelectedConcat(init, [last], req);
      assert Selected([last], req) == if Matches(req, last) then [last] else [] by {
        assert [last][1..] == [];
      }
      SelectedCount(init, req);
      var tail := if Matches(req, last) then {|init|} else {};
      var pi, pq := MatchingPositions(init, req), MatchingPositions(q, req);
      forall i | i in pq ensures i in pi + tail {
        if i < |init| { assert q[i] == init[i]; }
      }
      forall i | i in pi + tail ensures i in pq {
        if i < |init| { assert q[i] == init[i]; }
      }
      assert pq == pi + tail;
      assert |init| !in pi;
    }
  }

  /** When r1 accepts exactly the records r2 accepts that also satisfy c,
      r1's selection is r2's narrowed by c, order included. */
  lemma {:induction false} SelectedRefines(q: seq<Book>, r1: SearchRequest, r2: SearchRequest, c: Clause)
    requires forall b :: Matches(r1, b) <==> Matches(r2, b) && Holds(c, b)
    ensures Selected(q, r1) == Where(Selected(q, r2), c)
  {
    if q != [] {
      SelectedRefines(q[1..], r1, r2, c);
      var head := if Matches(r2, q[0]) then [q[0]] else [];
      WhereConcat(head, Selected(q[1..], r2), c);
      assert Where(head, c) == if Matches(r1, q[0]) then [q[0]] else [] by {
        if head != [] { assert head[1..] == []; }
      }
    }
  }

  lemma {:induction false} WhereConcat(a: seq<Book>, b: seq<Book>, c: Clause)
    ensures Where(a + b, c) == Where(a, c) + Where(b, c)
  {
    if a != [] {
      assert (a + b)[1..] == a[1..] + b;
      WhereConcat(a[1..], b, c);
    } else {
      assert a + b == b;
    }
  }

  // ---------------------------------------------------------------------
  // The Where chain computes the reference filter

  /** Every clause in cs holds of b. */
  predicate AllHold(cs: seq<Clause>, b: Book)
  {
    forall i :: 0 <= i < |cs| ==> Holds(cs[i], b)
  }

  /** The records satisfying all clauses at once, in q's order. */
  function KeepAll(q: seq<Book>, cs: seq<Clause>): seq<Book>
  {
    if q == [] then []
    else (if AllHold(cs, q[0]) then [q[0]] else []) + KeepAll(q[1..], cs)
  }

  lemma {:induction false} KeepAllAfterWhere(q: seq<Book>, c: Clause, cs: seq<Clause>)
    ensures KeepAll(Where(q, c), cs) == KeepAll(q, [c] + cs)
  {
    if q != [] {
      KeepAllAfterWhere(q[1..], c, cs);
      var head := if Holds(c, q[0]) then [q[0]] else [];
      KeepAllConcat(head, Where(q[1..], c), cs);
      assert AllHold([c] + cs, q[0]) <==> Holds(c, q[0]) && AllHold(cs, q[0]) by {
        if Holds(c, q[0]) && AllHold(cs, q[0]) {
          forall i | 0 <= i < |[c] + cs| ensures Holds(([c] + cs)[i], q[0]) {
            if i > 0 { assert ([c] + cs)[i] == cs[i - 1]; }
          }
        }
        if AllHold([c] + cs, q[0]) {
          assert ([c] + cs)[0] == c;
          forall i | 0 <= i < |cs| ensures Holds(cs[i], q[0]) {
            assert ([c] + cs)[i + 1] == cs[i];
          }
        }
      }
      assert KeepAll(head, cs) == if Holds(c, q[0]) && AllHold(cs, q[0]) then [q[0]] else [] by {
        if head != [] { assert head[1..] == []; }
      }
    }
  }

  lemma {:induction false} KeepAllConcat(a: seq<Book>, b: seq<Book>, cs: seq<Clause>)
    ensures KeepAll(a + b, cs) == KeepAll(a, cs) + KeepAll(b, cs)
  {
    if a != [] {
      assert (a + b)[1..] == a[1..] + b;
      KeepAllConcat(a[1..], b, cs);
    } else {
      assert a + b == b;
    }
  }

  lemma {:induction false} KeepNone(q: seq<Book>)
    ensures KeepAll(q, []) == q
  {
    if q != [] { KeepNone(q[1..]); }
  }

  /** Applying Where clauses one after another keeps the records that satisfy
      all of them together. */
  lemma {:induction false} NarrowIsConjunction(q: seq<Book>, cs: seq<Clause>)
    ensures Narrow(q, cs) == KeepAll(q, cs)
    decreases |cs|
  {
    if cs == [] {
      KeepNone(q);
    } else {
      NarrowIsConjunction(Where(q, cs[0]), cs[1..]);
      KeepAllAfterWhere(q, cs[0], cs[1..]);
      assert [cs[0]] + cs[1..] == cs;
    }
  }

  lemma AllHoldConcat(a: seq<Clause>, c: seq<Clause>, b: Book)
    ensures AllHold(a + c, b) <==> AllHold(a, b) && AllHold(c, b)
  {
    if AllHold(a, b) && AllHold(c, b) {
      forall i | |a| <= i < |a + c| ensures Holds((a + c)[i], b) {
        assert (a + c)[i] == c[i - |a|];
      }
    }
    if AllHold(a + c, b) {
      forall i | 0 <= i < |a| ensures Holds(a[i], b) {
        assert (a + c)[i] == a[i];
      }
      forall i | 0 <= i < |c| ensures Holds(c[i], b) {
        assert (a + c)[i + |a|] == c[i];
      }
    }
  }

  /** The request's clauses all hold of b exactly when b matches the
      request. */
  lemma ClausesMeanMatches(req: SearchRequest, b: Book)
    ensures AllHold(Clauses(req), b) <==> Matches(req, b)
  {
    var ca := TextClause(req.author, a => AuthorClause(a));
    var ci := TextClause(req.isbn, f => IsbnClause(f));
    var ct := TextClause(req.title, f => TitleClause(f));
    var cc := TextClause(req.category, f => CategoryClause(f));
    var cst := StatusClause(req.status);
    AllHoldConcat(ca, ci, b);
    AllHoldConcat(ca + ci, ct, b);
    AllHoldConcat(ca + ci + ct, cc, b);
    AllHoldConcat(ca + ci + ct + cc, cst, b);
    assert AllHold(ca, b) <==> IsNullOrWhiteSpace(req.author) || AuthorMatches(b, req.author.value) by {
      if ca != [] { assert ca[0] == AuthorClause(req.author.value); }
    }
    assert AllHold(ci, b) <==> IsNullOrWhiteSpace(req.isbn) || IsbnMatches(b, req.isbn.value) by {
      if ci != [] { assert ci[0] == IsbnClause(req.isbn.value); }
    }
    assert AllHold(ct, b) <==> IsNullOrWhiteSpace(req.title) || TitleMatches(b, req.title.value) by {
      if ct != [] { assert ct[0] == TitleClause(req.title.value); }
    }
    assert AllHold(cc, b) <==> IsNullOrWhiteSpace(req.category) || CategoryMatches(b, req.category.value) by {
      if cc != [] { assert cc[0] == CategoryClause(req.category.value); }
    }
    assert AllHold(cst, b) <==> ((req.status == Some(WantToRead) ==> HasAvailable(b))
                               && (req.status == Some(Reading) ==> PartlyInUse(b))) by {
      if cst != [] { assert cst[0] == if req.status == Some(WantToRead) then AvailableClause else ReadingClause; }
    }
  }

  lemma {:induction false} KeepAllIsSelected(q: seq<Book>, req: SearchRequest)
    ensures KeepAll(q, Clauses(req)) == Selected(q, req)
  {
    if q != [] {
      ClausesMeanMatches(req, q[0]);
      KeepAllIsSelected(q[1..], req);
    }
  }

  /** The service's query and the reference filter agree: every record of
      the narrowed query satisfies all supplied filters at once, and every
      record that does is in it, in store order. */
  lemma QueryIsSelected(store: seq<Book>, req: SearchRequest)
    ensures Narrow(store, Clauses(req)) == Selected(store, req)
  {
    NarrowIsConjunction(store, Clauses(req));
    KeepAllIsSelected(store, req);
  }

  // ---------------------------------------------------------------------
  // Paging and the response

  /** The Skip count, (Page - 1) * PageSize. */
  function Offset(req: SearchRequest): int
  {
    (req.page - 1) * req.pageSize
  }

  /** Skip(skip).Take(take): the contiguous run of at most `take` records
      starting at position `skip`. */
  function PageOf(q: seq<Book>, skip: nat, take: nat): (r: seq<Book>)
    ensures |r| <= take
    ensures |r| == if skip >= |q| then 0 else if take <= |q| - skip then take else |q| - skip
    ensures forall i :: 0 <= i < |r| ==> r[i] == q[skip + i]
  {
    var start := if skip <= |q| then skip else |q|;
    var end := if take <= |q| - start then start + take else |q|;
    q[start..end]
  }

  /** `.Select(b => new BookResponse { ... })`. */
  function Views(q: seq<Book>): (r: seq<BookResponse>)
    ensures |r| == |q|
    ensures forall i :: 0 <= i < |r| ==> Stored(r[i]) == q[i] && ViewConsistent(r[i])
  {
    seq(|q|, i requires 0 <= i < |q| => ToResponse(q[i]))
  }

  /** SearchBooksAsync over the store's rows. */
  function SearchBooks(req: SearchRequest, store: seq<Book>): (r: Result<PagedResult, SearchFault>)
    ensures r.Failure? <==> Offset(req) < 0 || req.pageSize < 0
    ensures r.Success? ==> r.value.page == req.page && r.value.pageSize == req.pageSize
    ensures r.Success? ==> |r.value.items| <= req.pageSize
  {
    var query := Narrow(store, Clauses(req));
    var totalItems := |query|;
    var skip := Offset(req);
    if skip < 0 || req.pageSize < 0 then Failure(NegativePaging)
    else Success(PagedResult(Views(PageOf(query, skip, req.pageSize)), totalItems, req.page, req.pageSize))
  }

  /** Any request from page 1 on with a non-negative page size succeeds. */
  lemma SearchSucceedsOnValidPaging(req: SearchRequest, store: seq<Book>)
    requires req.page >= 1 && req.pageSize >= 0
    ensures SearchBooks(req, store).Success?
  {
    var skipped: nat := req.page - 1;
    var size: nat := req.pageSize;
    assert Offset(req) == skipped * size;
  }

  /** TotalItems counts the store positions matching every supplied filter. */
  lemma SearchCountsMatches(req: SearchRequest, store: seq<Book>)
    requires SearchBooks(req, store).Success?
    ensures SearchBooks(req, store).value.totalItems == |Selected(store, req)|
    ensures SearchBooks(req, store).value.totalItems == |MatchingPositions(store, req)|
  {
    QueryIsSelected(store, req);
    SelectedCount(store, req);
  }

  /** TotalItems does not depend on which page is asked for. */
  lemma TotalIgnoresPaging(req: SearchRequest, store: seq<Book>, page: int, pageSize: int)
    ensures var r1, r2 := SearchBooks(req, store), SearchBooks(req.(page := page, pageSize := pageSize), store);
            r1.Success? && r2.Success? ==> r2.value.totalItems == r1.value.totalItems
  {
  }

  /** The items are the views of the matching records from position Offset
      on, in store order; each view is consistent and comes from a store
      record that matches the request. */
  lemma SearchItemsAreSlice(req: SearchRequest, store: seq<Book>)
    requires SearchBooks(req, store).Success?
    ensures var items := SearchBooks(req, store).value.items;
            var sel := Selected(store, req);
            Offset(req) + |items| <= |sel| || items == []
    ensures var items := SearchBooks(req, store).value.items;
            var sel := Selected(store, req);
            forall i :: 0 <= i < |items| ==>
              Stored(items[i]) == sel[Offset(req) + i] && ViewConsistent(items[i])
              && Stored(items[i]) in store && Matches(req, Stored(items[i]))
  {
    QueryIsSelected(store, req);
    var sel := Selected(store, req);
    forall x | x in sel ensures x in store && Matches(req, x) {
      SelectedMembers(store, req, x);
    }
  }

  /** A page shorter than PageSize is the last one: no matching record lies
      beyond it. */
  lemma ShortPageIsLast(req: SearchRequest, store: seq<Book>)
    requires SearchBooks(req, store).Success?
    requires |SearchBooks(req, store).value.items| < req.pageSize
    ensures Offset(req) + |SearchBooks(req, store).value.items|
         >= SearchBooks(req, store).value.totalItems
  {
  }

  /** Status "read" filters nothing: the result equals the one without a
      status. */
  lemma ReadIsNoFilter(req: SearchRequest, store: seq<Book>)
    ensures SearchBooks(req.(status := Some(Read)), store)
         == SearchBooks(req.(status := None), store)
  {
    assert Clauses(req.(status := Some(Read))) == Clauses(req.(status := None));
  }

  /** Status "want to read" keeps, in order, exactly the records of the
      status-less search that have a copy available. */
  lemma WantToReadKeepsAvailable(req: SearchRequest, store: seq<Book>)
    ensures Selected(store, req.(status := Some(WantToRead)))
         == Where(Selected(store, req.(status := None)), AvailableClause)
  {
    SelectedRefines(store, req.(status := Some(WantToRead)), req.(status := None), AvailableClause);
  }

  /** Status "reading" keeps, in order, exactly the records of the
      status-less search with some but not all copies in use. */
  lemma ReadingKeepsPartlyInUse(req: SearchRequest, store: seq<Book>)
    ensures Selected(store, req.(status := Some(Reading)))
         == Where(Selected(store, req.(status := None)), ReadingClause)
  {
    SelectedRefines(store, req.(status := Some(Reading)), req.(status := None), ReadingClause);
  }

  /** Every "reading" result is also a "want to read" result: the reading
      selection is the want-to-read selection narrowed further. */
  lemma ReadingWithinWantToRead(req: SearchRequest, store: seq<Book>)
    ensures Selected(store, req.(status := Some(Reading)))
         == Where(Selected(store, req.(status := Some(WantToRead))), ReadingClause)
    ensures forall x :: (x in Selected(store, req.(status := Some(Reading)))
           ==> x in Selected(store, req.(status := Some(WantToRead))))
  {
    var rr, rw := req.(status := Some(Reading)), req.(status := Some(WantToRead));
    SelectedRefines(store, rr, rw, ReadingClause);
    forall x | x in Selected(store, rr) ensures x in Selected(store, rw) {
      SelectedMembers(store, rr, x);
      SelectedMembers(store, rw, x);
    }
  }

  /** The author filter is the full-name test alone: a fragment found in the
      first or last name is also found in "First Last". */
  lemma AuthorMatchesFullName(b: Book, a: string)
    ensures AuthorMatches(b, a) <==> Contains(FullAuthorName(b), a)
  {
    ContainsInConcat(b.firstName, " " + b.lastName, a);
    ContainsInConcat(b.lastName, b.firstName + " ", a);
    assert b.firstName + " " + b.lastName == b.firstName + (" " + b.lastName);
  }

  /** "Lee" and "Harper Lee" both find Harper Lee; "Harper Lee" only through
      the concatenated name. */
  lemma HarperLeeExample(b: Book)
    requires b.firstName == "Harper" && b.lastName == "Lee"
    ensures AuthorMatches(b, "Lee")
    ensures AuthorMatches(b, "Harper Lee")
    ensures !Contains(b.firstName, "Harper Lee") && !Contains(b.lastName, "Harper Lee")
  {
    assert OccursAt(b.lastName, "Lee", 0);
    assert OccursAt(b.firstName + " " + b.lastName, "Harper Lee", 0);
    ContainsSpec(b.firstName, "Harper Lee");
    ContainsSpec(b.lastName, "Harper Lee");
  }

  /** George Orwell's "1984" with 15 copies, 5 in use, is found by status
      "reading" together with the title fragment "198", and its view shows
      ten available copies under the full name "George Orwell". */
  lemma OrwellExample(b: Book)
    requires b.title == "1984" && b.firstName == "George" && b.lastName == "Orwell"
    requires b.totalCopies == 15 && b.copiesInUse == 5
    ensures Matches(DefaultRequest().(status := Some(Reading), title := Some("198")), b)
    ensures ToResponse(b).availableCopies == 10
    ensures ToResponse(b).fullAuthorName == "George Orwell"
  {
    assert OccursAt(b.title, "198", 0);
    assert !IsNetWhiteSpace('1');
  }
}

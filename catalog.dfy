/** The catalogue store behind BookService: the Books table as a map from
    identity to record, the identity column's next value, and the order in
    which the table enumerates its rows (ascending identity, which is
    insertion order since identities only grow). Get, create, update and
    delete change it in place; search runs the Search pipeline over its rows. */
module Catalog {
  import opened Common
  import opened Books
  import Search

  /** A fault raised by the store while saving, reported as HTTP 500. */
  datatype StoreFault =
    /** The payload carries a key of its own: the identity column refuses an
        explicit value. */
    ExplicitIdentity

  /** s is strictly ascending. */
  predicate Ascending(s: seq<int>)
  {
    forall i, j :: 0 <= i < j < |s| ==> s[i] < s[j]
  }

  /** s without the element x, others kept in order. */
  function Without(s: seq<int>, x: int): (r: seq<int>)
    ensures forall y :: y in r <==> y in s && y != x
    ensures Ascending(s) ==> Ascending(r)
  {
    if s == [] then []
    else if s[0] == x then Without(s[1..], x)
    else
      var rest := Without(s[1..], x);
      assert Ascending(s) ==> forall y :: y in rest ==> s[0] < y by {
        if Ascending(s) {
          forall y | y in rest ensures s[0] < y {
            var k :| 0 <= k < |s[1..]| && s[1..][k] == y;
            assert s[k + 1] == y;
          }
        }
      }
      var r := [s[0]] + rest;
      assert Ascending(s) ==> Ascending(r) by {
        if Ascending(s) {
          forall i, j | 0 <= i < j < |r| ensures r[i] < r[j] {
            assert r[j] == rest[j - 1] && r[j] in rest;
            if i > 0 { assert r[i] == rest[i - 1]; }
          }
        }
      }
      r
  }

  /** The records with the given identities, in that order. */
  function Project(m: map<int, Book>, ids: seq<int>): (r: seq<Book>)
    requires forall i :: 0 <= i < |ids| ==> ids[i] in m
    ensures |r| == |ids|
    ensures forall i :: 0 <= i < |r| ==> r[i] == m[ids[i]]
  {
    if ids == [] then [] else [m[ids[0]]] + Project(m, ids[1..])
  }

  /** Projecting a keyed table along an ascending list of all its keys
      yields every record, only records, in ascending identity. */
  lemma ProjectFacts(m: map<int, Book>, ids: seq<int>)
    requires forall i :: 0 <= i < |ids| ==> ids[i] in m
    requires forall id :: id in m ==> id in ids
    requires forall id :: id in m ==> m[id].bookId == id
    requires Ascending(ids)
    ensures forall x :: x in Project(m, ids) ==> x.bookId in m && m[x.bookId] == x
    ensures forall id :: id in m ==> m[id] in Project(m, ids)
    ensures forall i, j :: 0 <= i < j < |Project(m, ids)| ==>
              Project(m, ids)[i].bookId < Project(m, ids)[j].bookId
  {
    var r := Project(m, ids);
    forall x | x in r ensures x.bookId in m && m[x.bookId] == x {
      var i :| 0 <= i < |r| && r[i] == x;
      assert x == m[ids[i]];
    }
    forall id | id in m ensures m[id] in r {
      var i :| 0 <= i < |ids| && ids[i] == id;
      assert r[i] == m[id];
    }
    forall i, j | 0 <= i < j < |r| ensures r[i].bookId < r[j].bookId {
      assert r[i] == m[ids[i]] && r[j] == m[ids[j]];
    }
  }

  class BookStore {
    var books: map<int, Book>
    var order: seq<int>
    var nextId: int

    /** Keys are the records' own identities, all below the next identity;
        every record passed the annotation check that guards writes; the
        enumeration order lists each key once, ascending. */
    ghost predicate Valid()
      reads this
    {
      && nextId >= 1
      && (forall id :: id in books ==> books[id].bookId == id && 1 <= id < nextId)
      && (forall id :: id in books ==> IsValidBook(books[id]))
      && Ascending(order)
      && (forall i :: 0 <= i < |order| ==> order[i] in books)
      && (forall id :: id in books ==> id in order)
    }

    /** The table's rows in enumeration order. */
    ghost function Rows(): (r: seq<Book>)
      reads this
      requires Valid()
      ensures |r| == |books|
      ensures forall x :: x in r ==> x.bookId in books && books[x.bookId] == x
      ensures forall id :: id in books ==> books[id] in r
      ensures forall i, j :: 0 <= i < j < |r| ==> r[i].bookId < r[j].bookId
    {
      RowsCoverKeys();
      ProjectFacts(books, order);
      Project(books, order)
    }

    lemma RowsCoverKeys()
      requires Valid()
      ensures |order| == |books|
    {
      var keys := set i | 0 <= i < |order| :: order[i];
      forall id | id in books ensures id in keys {
        var i :| 0 <= i < |order| && order[i] == id;
      }
      assert keys == books.Keys;
      DistinctCount(order);
    }

    static lemma {:induction false} DistinctCount(s: seq<int>)
      requires Ascending(s)
      ensures |set i | 0 <= i < |s| :: s[i]| == |s|
    {
      if s != [] {
        var init := s[..|s| - 1];
        DistinctCount(init);
        assert (set i | 0 <= i < |s| :: s[i])
            == (set i | 0 <= i < |init| :: init[i]) + {s[|s| - 1]};
        assert s[|s| - 1] !in (set i | 0 <= i < |init| :: init[i]);
      }
    }

    /** An empty table whose identity column starts at 1. */
    constructor ()
      ensures Valid()
      ensures books == map[] && order == [] && nextId == 1
    {
      books, order, nextId := map[], [], 1;
    }

    /** GetBookByIdAsync: the record's view, or None when no record has that
        identity. */
    method GetBookById(id: int) returns (r: Option<BookResponse>)
      requires Valid()
      ensures r.None? <==> id !in books
      ensures r.Some? ==> r.value.bookId == id && ViewConsistent(r.value)
                          && Stored(r.value) == books[id]
    {
      if id !in books {
        return None;
      }
      var book := books[id];
      r := Some(ToResponse(book));
    }

    /** CreateBookAsync: the payload is stored under the next identity and
        its view returned; nothing else changes. A payload carrying its own
        key is refused and the table is left as it was. */
    method CreateBook(b: Book) returns (r: Result<BookResponse, StoreFault>)
      requires Valid() && IsValidBook(b)
      modifies this
      ensures Valid()
      ensures b.bookId != 0 ==>
        r == Failure(ExplicitIdentity)
        && books == old(books) && order == old(order) && nextId == old(nextId)
      ensures b.bookId == 0 ==>
        var id := old(nextId);
        && id !in old(books)
        && books == old(books)[id := b.(bookId := id)]
        && order == old(order) + [id]
        && nextId == id + 1
        && r == Success(ToResponse(books[id]))
    {
      if b.bookId != 0 {
        return Failure(ExplicitIdentity);
      }
      var id := nextId;
      var stored := b.(bookId := id);
      books := books[id := stored];
      order := order + [id];
      nextId := nextId + 1;
      r := Success(ToResponse(stored));
    }

    /** UpdateBookAsync: for an absent identity None and no change; otherwise
        the eight mutable fields are assigned one by one from the payload,
        the identity is kept, and the new view returned. */
    method UpdateBook(id: int, b: Book) returns (r: Option<BookResponse>)
      requires Valid() && IsValidBook(b)
      modifies this
      ensures Valid() && order == old(order) && nextId == old(nextId)
      ensures id !in old(books) ==> r.None? && books == old(books)
      ensures id in old(books) ==>
        && books == old(books)[id := Overwrite(old(books)[id], b)]
        && r == Some(ToResponse(books[id]))
    {
      if id !in books {
        return None;
      }
      var existing := books[id];
      existing := existing.(title := b.title);
      existing := existing.(firstName := b.firstName);
      existing := existing.(lastName := b.lastName);
      existing := existing.(totalCopies := b.totalCopies);
      existing := existing.(copiesInUse := b.copiesInUse);
      existing := existing.(bookType := b.bookType);
      existing := existing.(isbn := b.isbn);
      existing := existing.(category := b.category);
      books := books[id := existing];
      r := Some(ToResponse(existing));
    }

    /** DeleteBookAsync: false and no change for an absent identity;
        otherwise that one record is removed and true returned. */
    method DeleteBook(id: int) returns (deleted: bool)
      requires Valid()
      modifies this
      ensures Valid() && nextId == old(nextId)
      ensures deleted <==> id in old(books)
      ensures books == old(books) - {id}
      ensures order == Without(old(order), id)
    {
      if id !in books {
        assert Without(order, id) == order by { WithoutAbsent(order, id); }
        return false;
      }
      var rest, kept := books - {id}, Without(order, id);
      forall i | 0 <= i < |kept| ensures kept[i] in rest {
        assert kept[i] in kept;
      }
      forall k | k in rest ensures k in kept && rest[k] == books[k] {
        assert k in order;
      }
      books, order := rest, kept;
      deleted := true;
    }

    static lemma {:induction false} WithoutAbsent(s: seq<int>, x: int)
      requires x !in s
      ensures Without(s, x) == s
    {
      if s != [] { WithoutAbsent(s[1..], x); }
    }

    /** SearchBooksAsync over the table's rows; every returned view is that
        of a stored record. */
    method SearchBooks(req: Search.SearchRequest) returns (r: Result<Search.PagedResult, Search.SearchFault>)
      requires Valid()
      ensures r == Search.SearchBooks(req, Rows())
      ensures r.Success? ==> forall v :: v in r.value.items ==>
                v.bookId in books && Stored(v) == books[v.bookId] && ViewConsistent(v)
    {
      var rows := Project(books, order);
      r := Search.SearchBooks(req, rows);
      if r.Success? {
        Search.SearchItemsAreSlice(req, rows);
      }
    }
  }

  /** Creating a valid record and reading it back by the returned identity
      gives the created view, with both derived fields computed. */
  method CreateThenGet(store: BookStore, b: Book) returns (created: BookResponse, fetched: Option<BookResponse>)
    requires store.Valid() && IsValidBook(b) && b.bookId == 0
    modifies store
    ensures store.Valid()
    ensures fetched == Some(created)
    ensures created.fullAuthorName == b.firstName + " " + b.lastName
    ensures created.availableCopies == b.totalCopies - b.copiesInUse
  {
    var r := store.CreateBook(b);
    created := r.value;
    fetched := store.GetBookById(created.bookId);
    ConsistentViewRoundTrip(fetched.value);
    ConsistentViewRoundTrip(created);
  }

  /** After a delete, reading the same identity finds nothing. */
  method DeleteThenGet(store: BookStore, id: int) returns (deleted: bool, fetched: Option<BookResponse>)
    requires store.Valid()
    modifies store
    ensures store.Valid()
    ensures deleted <==> id in old(store.books)
    ensures fetched == None
  {
    deleted := store.DeleteBook(id);
    fetched := store.GetBookById(id);
  }
}

/**
 The catalog: books keyed by ISBN, and the read-only lookups over it (by
 ISBN, by author, by title fragment, reviews of a book), together with the
 Promise-returning variants of those lookups.
 */
module Catalog {
  import opened Outcomes
  import opened Text

  /** A review as stored: the text from the `review` query parameter, or
      `None` when the parameter was missing (the handler stores `undefined`). */
  type Review = Option<string>

  datatype Book = Book(title: string, author: string, reviews: map<string, Review>)

  /** One element of an author or title search result. */
  datatype Entry = Entry(isbn: string, title: string, author: string, reviews: map<string, Review>)

  function EntryOf(isbn: string, b: Book): Entry
  {
    Entry(isbn, b.title, b.author, b.reviews)
  }

  /** Every listed key is a key of the catalog. */
  predicate Listed(books: map<string, Book>, keys: seq<string>)
  {
    forall i :: 0 <= i < |keys| ==> keys[i] in books
  }

  /** `keys` is what `Object.keys(books)` returns: every key of the catalog,
      each exactly once, in the catalog's iteration order. */
  predicate KeyOrder(books: map<string, Book>, keys: seq<string>)
  {
    && Listed(books, keys)
    && (forall k :: k in books ==> k in keys)
    && Distinct(keys)
  }

  predicate Distinct(keys: seq<string>)
  {
    forall i, j :: 0 <= i < j < |keys| ==> keys[i] != keys[j]
  }

  /** `GET /`: the whole catalog. */
  function ListAll(books: map<string, Book>): (r: map<string, Book>)
    ensures r == books
  {
    books
  }

  /** `GET /isbn/:isbn`. */
  function GetByIsbn(books: map<string, Book>, isbn: string): (r: Result<Book>)
    ensures r.Ok? <==> isbn in books
    ensures r.Ok? ==> r.value == books[isbn]
    ensures r.Err? ==> r.error == NotFound(BookNotFound)
  {
    if isbn in books then Ok(books[isbn]) else Err(NotFound(BookNotFound))
  }

  /** `GET /review/:isbn`. */
  function GetReviews(books: map<string, Book>, isbn: string): (r: Result<map<string, Review>>)
    ensures r.Ok? <==> isbn in books
    ensures r.Ok? ==> r.value == books[isbn].reviews
    ensures r.Err? ==> r.error == NotFound(BookNotFound)
  {
    if isbn in books then Ok(books[isbn].reviews) else Err(NotFound(BookNotFound))
  }

  /** The two searches: exact author and title fragment, both ignoring case. */
  datatype Query = AuthorIs(author: string) | TitleHas(fragment: string)

  predicate Matches(q: Query, b: Book)
  {
    match q
    case AuthorIs(a) => Lower(b.author) == Lower(a)
    case TitleHas(f) => Includes(Lower(b.title), Lower(f))
  }

  /** The search result: one entry per matching key, in key order. It is
      what the `forEach` over `Object.keys(books)` accumulates. */
  function Select(books: map<string, Book>, keys: seq<string>, q: Query): (r: seq<Entry>)
    requires Listed(books, keys)
    ensures |r| <= |keys|
    ensures forall i :: 0 <= i < |r| ==>
              r[i].isbn in books && Matches(q, books[r[i].isbn]) && r[i] == EntryOf(r[i].isbn, books[r[i].isbn])
    decreases |keys|
  {
    if keys == [] then []
    else
      var init := keys[..|keys| - 1];
      var k := keys[|keys| - 1];
      assert Listed(books, init);
      var found := Select(books, init, q);
      if Matches(q, books[k]) then found + [EntryOf(k, books[k])] else found
  }

  /** The ISBNs of a search result, in order. */
  function Isbns(entries: seq<Entry>): (r: seq<string>)
    ensures |r| == |entries|
  {
    seq(|entries|, i requires 0 <= i < |entries| => entries[i].isbn)
  }

  /** `a` is `b` with some elements deleted, order kept. */
  ghost predicate Subsequence<T>(a: seq<T>, b: seq<T>)
    decreases |b|
  {
    || a == []
    || (b != [] &&
        ((a != [] && a[|a| - 1] == b[|b| - 1] && Subsequence(a[..|a| - 1], b[..|b| - 1]))
         || Subsequence(a, b[..|b| - 1])))
  }

  /** An entry is in the result exactly when it is the entry of a listed
      key whose book matches the query. */
  lemma {:induction false} SelectExactly(books: map<string, Book>, keys: seq<string>, q: Query, e: Entry)
    requires Listed(books, keys)
    ensures e in Select(books, keys, q) <==>
              e.isbn in keys && e.isbn in books && Matches(q, books[e.isbn]) && e == EntryOf(e.isbn, books[e.isbn])
    decreases |keys|
  {
    if keys != [] {
      var init := keys[..|keys| - 1];
      var k := keys[|keys| - 1];
      assert keys == init + [k];
      assert Listed(books, init);
      SelectExactly(books, init, q, e);
    }
  }

  /** The result follows catalog key order. */
  lemma {:induction false} SelectKeepsOrder(books: map<string, Book>, keys: seq<string>, q: Query)
    requires Listed(books, keys)
    ensures Subsequence(Isbns(Select(books, keys, q)), keys)
    decreases |keys|
  {
    if keys != [] {
      var init := keys[..|keys| - 1];
      var k := keys[|keys| - 1];
      assert Listed(books, init);
      var found := Select(books, init, q);
      SelectKeepsOrder(books, init, q);
      if Matches(q, books[k]) {
        var r := found + [EntryOf(k, books[k])];
        assert Isbns(r)[..|r| - 1] == Isbns(found);
      }
    }
  }

  /** Over distinct keys the result holds at most one entry per book. */
  lemma {:induction false} SelectOnePerBook(books: map<string, Book>, keys: seq<string>, q: Query)
    requires Listed(books, keys) && Distinct(keys)
    ensures forall i, j :: 0 <= i < j < |Select(books, keys, q)| ==>
              Select(books, keys, q)[i].isbn != Select(books, keys, q)[j].isbn
    decreases |keys|
  {
    if keys != [] {
      var init := keys[..|keys| - 1];
      var k := keys[|keys| - 1];
      assert Listed(books, init) && Distinct(init);
      var found := Select(books, init, q);
      SelectOnePerBook(books, init, q);
      if Matches(q, books[k]) {
        forall i | 0 <= i < |found| ensures found[i].isbn != k {
          var e := found[i];
          SelectExactly(books, init, q, e);
          var p :| 0 <= p < |init| && init[p] == e.isbn;
        }
      }
    }
  }

  /** Two queries that differ only in letter case. */
  predicate SameIgnoringCase(q: Query, q': Query)
  {
    match q
    case AuthorIs(a) => q'.AuthorIs? && Lower(a) == Lower(q'.author)
    case TitleHas(f) => q'.TitleHas? && Lower(f) == Lower(q'.fragment)
  }

  /** The search gives the same result for queries that differ only in case. */
  lemma {:induction false} SelectIgnoresCase(books: map<string, Book>, keys: seq<string>, q: Query, q': Query)
    requires Listed(books, keys)
    requires SameIgnoringCase(q, q')
    ensures Select(books, keys, q) == Select(books, keys, q')
    decreases |keys|
  {
    if keys != [] {
      var init := keys[..|keys| - 1];
      assert Listed(books, init);
      SelectIgnoresCase(books, init, q, q');
    }
  }

  /** A non-empty result is answered as it is, an empty one as `NotFound`. */
  function Found(entries: seq<Entry>, miss: string): (r: Result<seq<Entry>>)
    ensures r.Ok? <==> entries != []
    ensures r.Ok? ==> r.value == entries
    ensures r.Err? ==> r.error == NotFound(miss)
  {
    if |entries| > 0 then Ok(entries) else Err(NotFound(miss))
  }

  /** `GET /author/:author`. */
  function AuthorResponse(books: map<string, Book>, keys: seq<string>, author: string): (r: Result<seq<Entry>>)
    requires Listed(books, keys)
    ensures r.Err? ==> r.error == NotFound(NoBooksByAuthor)
    ensures r.Ok? ==> r.value != []
    ensures r.Ok? ==> forall i :: 0 <= i < |r.value| ==>
              r.value[i].isbn in books && Lower(books[r.value[i].isbn].author) == Lower(author)
  {
    Found(Select(books, keys, AuthorIs(author)), NoBooksByAuthor)
  }

  /** `GET /title/:title`. */
  function TitleResponse(books: map<string, Book>, keys: seq<string>, title: string): (r: Result<seq<Entry>>)
    requires Listed(books, keys)
    ensures r.Err? ==> r.error == NotFound(NoBooksWithTitle)
    ensures r.Ok? ==> r.value != []
    ensures r.Ok? ==> forall i :: 0 <= i < |r.value| ==>
              r.value[i].isbn in books && OccursIn(Lower(title), Lower(books[r.value[i].isbn].title))
  {
    Found(Select(books, keys, TitleHas(title)), NoBooksWithTitle)
  }

  /** The author search answers with the entries of exactly the books whose
      author equals the query ignoring case, and `NotFound` when there are none. */
  lemma AuthorLookup(books: map<string, Book>, keys: seq<string>, author: string)
    requires KeyOrder(books, keys)
    ensures AuthorResponse(books, keys, author).Ok? <==>
              exists k :: k in books && Lower(books[k].author) == Lower(author)
    ensures AuthorResponse(books, keys, author).Err? ==>
              AuthorResponse(books, keys, author).error == NotFound(NoBooksByAuthor)
    ensures forall k :: k in books ==>
              (Lower(books[k].author) == Lower(author) <==>
               AuthorResponse(books, keys, author).Ok? && EntryOf(k, books[k]) in AuthorResponse(books, keys, author).value)
  {
    var found := Select(books, keys, AuthorIs(author));
    forall k | k in books
      ensures Lower(books[k].author) == Lower(author) <==> EntryOf(k, books[k]) in found
    {
      SelectExactly(books, keys, AuthorIs(author), EntryOf(k, books[k]));
    }
    if found != [] {
      SelectExactly(books, keys, AuthorIs(author), found[0]);
    }
  }

  /** The title search answers with the entries of exactly the books whose
      lowered title contains the lowered query, and `NotFound` when there are none. */
  lemma TitleLookup(books: map<string, Book>, keys: seq<string>, title: string)
    requires KeyOrder(books, keys)
    ensures TitleResponse(books, keys, title).Ok? <==>
              exists k :: k in books && OccursIn(Lower(title), Lower(books[k].title))
    ensures TitleResponse(books, keys, title).Err? ==>
              TitleResponse(books, keys, title).error == NotFound(NoBooksWithTitle)
    ensures forall k :: k in books ==>
              (OccursIn(Lower(title), Lower(books[k].title)) <==>
               TitleResponse(books, keys, title).Ok? && EntryOf(k, books[k]) in TitleResponse(books, keys, title).value)
  {
    var found := Select(books, keys, TitleHas(title));
    forall k | k in books
      ensures OccursIn(Lower(title), Lower(books[k].title)) <==> EntryOf(k, books[k]) in found
    {
      SelectExactly(books, keys, TitleHas(title), EntryOf(k, books[k]));
    }
    if found != [] {
      SelectExactly(books, keys, TitleHas(title), found[0]);
    }
  }

  /** `getByAuthor("AUTHOR")` and `getByAuthor("author")` agree, and so do
      title searches that differ only in case. */
  lemma LookupsIgnoreCase(books: map<string, Book>, keys: seq<string>, a: string, a': string)
    requires Listed(books, keys)
    requires Lower(a) == Lower(a')
    ensures AuthorResponse(books, keys, a) == AuthorResponse(books, keys, a')
    ensures TitleResponse(books, keys, a) == TitleResponse(books, keys, a')
    ensures AuthorResponse(books, keys, Lower(a)) == AuthorResponse(books, keys, a)
    ensures TitleResponse(books, keys, Lower(a)) == TitleResponse(books, keys, a)
  {
    SelectIgnoresCase(books, keys, AuthorIs(a), AuthorIs(a'));
    SelectIgnoresCase(books, keys, TitleHas(a), TitleHas(a'));
    LowerIdempotent(a);
    SelectIgnoresCase(books, keys, AuthorIs(Lower(a)), AuthorIs(a));
    SelectIgnoresCase(books, keys, TitleHas(Lower(a)), TitleHas(a));
  }

  // ---- Promise and async variants ----

  /** How a Promise settles: resolved with a value, or rejected with a reason
      (a string, or an `Error` whose message the route reads). */
  datatype Settled<+T> = Resolved(value: T) | Rejected(reason: string)

  /** The `/async/...` routes: a resolved value is sent as it is, a rejection
      as `404` with the reason as message. */
  function Awaited<T>(p: Settled<T>): (r: Result<T>)
    ensures r.Ok? <==> p.Resolved?
    ensures r.Ok? ==> r.value == p.value
    ensures r.Err? ==> r.error == NotFound(p.reason)
  {
    match p
    case Resolved(v) => Ok(v)
    case Rejected(m) => Err(NotFound(m))
  }

  /** `getAllBooks()`: always resolves with the catalog. */
  function GetAllBooks(books: map<string, Book>): (p: Settled<map<string, Book>>)
    ensures p.Resolved? && p.value == books
  {
    Resolved(books)
  }

  /** `getBookByISBN(isbn)`. */
  function GetBookByISBN(books: map<string, Book>, isbn: string): (p: Settled<Book>)
    ensures p.Resolved? <==> isbn in books
    ensures Awaited(p) == GetByIsbn(books, isbn)
  {
    if isbn in books then Resolved(books[isbn]) else Rejected(BookNotFound)
  }

  /** `getBooksByAuthor(author)`. */
  function GetBooksByAuthor(books: map<string, Book>, keys: seq<string>, author: string): (p: Settled<seq<Entry>>)
    requires Listed(books, keys)
    ensures p.Rejected? ==> p.reason == NoBooksByAuthor
    ensures Awaited(p) == AuthorResponse(books, keys, author)
  {
    var found := Select(books, keys, AuthorIs(author));
    if |found| > 0 then Resolved(found) else Rejected(NoBooksByAuthor)
  }

  /** `getBooksByTitle(title)`: returns the list, or throws an `Error`. */
  function GetBooksByTitle(books: map<string, Book>, keys: seq<string>, title: string): (p: Settled<seq<Entry>>)
    requires Listed(books, keys)
    ensures p.Rejected? ==> p.reason == NoBooksWithTitle
    ensures Awaited(p) == TitleResponse(books, keys, title)
  {
    var found := Select(books, keys, TitleHas(title));
    if |found| > 0 then Resolved(found) else Rejected(NoBooksWithTitle)
  }

  /** Each asynchronous route answers exactly as its synchronous counterpart,
      and `/async` never reaches its `catch`. */
  lemma AsyncRoutesAgree(books: map<string, Book>, keys: seq<string>, isbn: string, author: string, title: string)
    requires Listed(books, keys)
    ensures Awaited(GetAllBooks(books)) == Ok(ListAll(books))
    ensures Awaited(GetBookByISBN(books, isbn)) == GetByIsbn(books, isbn)
    ensures Awaited(GetBooksByAuthor(books, keys, author)) == AuthorResponse(books, keys, author)
    ensures Awaited(GetBooksByTitle(books, keys, title)) == TitleResponse(books, keys, title)
  {
  }

  /** The catalog of the worked example: ISBN "1" is "Book One" by Alice. */
  lemma ExampleCatalog()
    ensures
      var b := Book("Book One", "Alice", map[]);
      var books := map["1" := b];
      && GetByIsbn(books, "1") == Ok(b)
      && GetByIsbn(books, "99") == Err(NotFound(BookNotFound))
      && AuthorResponse(books, ["1"], "alice") == Ok([Entry("1", "Book One", "Alice", map[])])
      && TitleResponse(books, ["1"], "ONE") == Ok([Entry("1", "Book One", "Alice", map[])])
  {
    var b := Book("Book One", "Alice", map[]);
    var books := map["1" := b];
    assert Lower("Alice") == "alice";
    assert Lower("alice") == "alice";
    assert Lower("Book One") == "book one";
    assert Lower("ONE") == "one";
    assert OccursAt("one", "book one", 5);
    assert ["1"][..0] == [];
    assert Select(books, [], AuthorIs("alice")) == [];
    assert Matches(AuthorIs("alice"), b);
    assert Select(books, ["1"], AuthorIs("alice")) == [EntryOf("1", b)];
    assert Matches(TitleHas("ONE"), b);
    assert Select(books, ["1"], TitleHas("ONE")) == [EntryOf("1", b)];
  }
}

/**
 The shared state of the service: the user list and the catalog that the
 route handlers read and change in place, with `keys` standing for the
 order in which `Object.keys(books)` lists the catalog.
 */
module BookStore {
  import opened Outcomes
  import opened Catalog
  import Registry
  import Reviews

  class Store {
    var users: seq<Registry.User>
    var books: map<string, Book>
    var keys: seq<string>

    /** The catalog's key order is the one `Object.keys` reports, and no
        two users share a name. */
    ghost predicate Valid()
      reads this
    {
      KeyOrder(books, keys) && Registry.UniqueNames(users)
    }

    /** The service at start-up: the seed catalog and no users. */
    constructor (seed: map<string, Book>, order: seq<string>)
      requires KeyOrder(seed, order)
      ensures Valid()
      ensures users == [] && books == seed && keys == order
    {
      users := [];
      books := seed;
      keys := order;
    }

    /** `POST /register`. */
    method Register(username: Option<string>, password: Option<string>) returns (r: Result<string>)
      requires Valid()
      modifies this
      ensures Valid()
      ensures (r, users) == Registry.Register(old(users), username, password)
      ensures books == old(books) && keys == old(keys)
    {
      Registry.RegisterKeepsNamesUnique(users, username, password);
      if Truthy(username) && Truthy(password) {
        if Registry.IsValid(users, username.value) {
          users := users + [Registry.User(username.value, password.value)];
          return Ok(UserRegistered);
        } else {
          return Err(Conflict(UserExists));
        }
      }
      return Err(BadRequest(UnableToRegister));
    }

    /** The `forEach` over `Object.keys(books)` that the author and title
        routes share: it pushes the entry of every matching book. */
    method Collect(q: Query) returns (found: seq<Entry>)
      requires Valid()
      ensures found == Select(books, keys, q)
    {
      found := [];
      var i := 0;
      while i < |keys|
        invariant 0 <= i <= |keys|
        invariant Listed(books, keys[..i])
        invariant found == Select(books, keys[..i], q)
      {
        var key := keys[i];
        assert keys[..i + 1][..i] == keys[..i];
        if Matches(q, books[key]) {
          found := found + [EntryOf(key, books[key])];
        }
        i := i + 1;
      }
      assert keys[..i] == keys;
    }

    /** `GET /author/:author`. */
    method FindByAuthor(author: string) returns (r: Result<seq<Entry>>)
      requires Valid()
      ensures r == AuthorResponse(books, keys, author)
    {
      var found := Collect(AuthorIs(author));
      if |found| > 0 {
        r := Ok(found);
      } else {
        r := Err(NotFound(NoBooksByAuthor));
      }
    }

    /** `GET /title/:title`. */
    method FindByTitle(title: string) returns (r: Result<seq<Entry>>)
      requires Valid()
      ensures r == TitleResponse(books, keys, title)
    {
      var found := Collect(TitleHas(title));
      if |found| > 0 {
        r := Ok(found);
      } else {
        r := Err(NotFound(NoBooksWithTitle));
      }
    }

    /** `PUT /auth/review/:isbn`: `user` is the session's username. */
    method AddReview(isbn: string, user: Option<string>, review: Review) returns (r: Result<string>)
      requires Valid()
      modifies this
      ensures Valid()
      ensures (r, books) == Reviews.AddReview(old(books), isbn, user, review)
      ensures users == old(users) && keys == old(keys)
    {
      Reviews.MutationsKeepKeyOrder(books, keys, isbn, user, review);
      if user.None? {
        return Err(Unauthenticated);
      }
      if isbn in books {
        var book := books[isbn];
        books := books[isbn := book.(reviews := book.reviews[user.value := review])];
        return Ok(ReviewSaved);
      } else {
        return Err(NotFound(BookNotFound));
      }
    }

    /** `DELETE /auth/review/:isbn`: `user` is the session's username. */
    method DeleteReview(isbn: string, user: Option<string>) returns (r: Result<string>)
      requires Valid()
      modifies this
      ensures Valid()
      ensures (r, books) == Reviews.DeleteReview(old(books), isbn, user)
      ensures users == old(users) && keys == old(keys)
    {
      Reviews.MutationsKeepKeyOrder(books, keys, isbn, user, None);
      if user.None? {
        return Err(Unauthenticated);
      }
      if isbn in books {
        var book := books[isbn];
        if user.value in book.reviews && Truthy(book.reviews[user.value]) {
          books := books[isbn := book.(reviews := book.reviews - {user.value})];
          return Ok(ReviewDeleted);
        } else {
          return Err(NotFound(ReviewNotFound));
        }
      } else {
        return Err(NotFound(BookNotFound));
      }
    }
  }

  /** A session from registration to a review's deletion, using only the
      contracts above. */
  method ReviewSession(seed: map<string, Book>, order: seq<string>, isbn: string)
    requires KeyOrder(seed, order) && isbn in seed && "alice" !in seed[isbn].reviews
  {
    var store := new Store(seed, order);
    var registered := store.Register(Some("alice"), Some("secret"));
    assert registered == Ok(UserRegistered);
    var again := store.Register(Some("alice"), Some("other"));
    assert again == Err(Conflict(UserExists));
    assert |store.users| == 1;

    var login := Registry.Login(store.users, Some("alice"), Some("secret"));
    assert Registry.User("alice", "secret") in store.users;
    assert login.Ok? && login.value.username == "alice";
    var wrong := Registry.Login(store.users, Some("alice"), Some("guess"));
    assert wrong == Err(InvalidCredentials(InvalidLogin));
    var identity := Some(login.value.username);

    var put := store.AddReview(isbn, identity, Some("Great"));
    put := store.AddReview(isbn, identity, Some("Great read"));
    assert put == Ok(ReviewSaved);
    assert GetReviews(store.books, isbn).value["alice"] == Some("Great read");

    var deleted := store.DeleteReview(isbn, identity);
    assert deleted == Ok(ReviewDeleted);
    assert "alice" !in store.books[isbn].reviews;
    deleted := store.DeleteReview(isbn, identity);
    assert deleted == Err(NotFound(ReviewNotFound));

    var anonymous := store.AddReview(isbn, None, Some("spam"));
    assert anonymous == Err(Unauthenticated);
  }
}

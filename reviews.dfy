/**
 The two review mutations, as functions from the catalog before a request
 to the answer and the catalog after it. Both take the reviewer from the
 session: `None` when no login is bound to it.
 */
module Reviews {
  import opened Outcomes
  import opened Catalog

  /** The catalog with the reviews of book `isbn` replaced. */
  function WithReviews(books: map<string, Book>, isbn: string, reviews: map<string, Review>): map<string, Book>
    requires isbn in books
  {
    books[isbn := books[isbn].(reviews := reviews)]
  }

  /** `PUT /auth/review/:isbn?review=...`: insert or overwrite the user's review. */
  function AddReview(books: map<string, Book>, isbn: string, user: Option<string>, review: Review): (r: (Result<string>, map<string, Book>))
    ensures r.0.Ok? <==> user.Some? && isbn in books
    ensures r.0.Err? ==> r.1 == books
    ensures r.1.Keys == books.Keys
    ensures forall k :: k in books && k != isbn ==> r.1[k] == books[k]
    ensures r.0.Ok? ==> user.value in r.1[isbn].reviews && r.1[isbn].reviews[user.value] == review
  {
    if user.None? then (Err(Unauthenticated), books)
    else if isbn in books then
      (Ok(ReviewSaved), WithReviews(books, isbn, books[isbn].reviews[user.value := review]))
    else (Err(NotFound(BookNotFound)), books)
  }

  /** `DELETE /auth/review/:isbn`: remove the user's review when it is truthy. */
  function DeleteReview(books: map<string, Book>, isbn: string, user: Option<string>): (r: (Result<string>, map<string, Book>))
    ensures r.0.Ok? <==>
              user.Some? && isbn in books && user.value in books[isbn].reviews && Truthy(books[isbn].reviews[user.value])
    ensures r.0.Err? ==> r.1 == books
    ensures r.1.Keys == books.Keys
    ensures forall k :: k in books && k != isbn ==> r.1[k] == books[k]
    ensures r.0.Ok? ==> user.value !in r.1[isbn].reviews
  {
    if user.None? then (Err(Unauthenticated), books)
    else if isbn !in books then (Err(NotFound(BookNotFound)), books)
    else if user.value in books[isbn].reviews && Truthy(books[isbn].reviews[user.value]) then
      (Ok(ReviewDeleted), WithReviews(books, isbn, books[isbn].reviews - {user.value}))
    else (Err(NotFound(ReviewNotFound)), books)
  }

  /** Without a bound identity neither mutation does anything. */
  lemma MutationsNeedIdentity(books: map<string, Book>, isbn: string, review: Review)
    ensures AddReview(books, isbn, None, review) == (Err(Unauthenticated), books)
    ensures DeleteReview(books, isbn, None) == (Err(Unauthenticated), books)
  {
  }

  /** Adding on a known ISBN sets the user's entry; every other reviewer's
      entry, the title, the author and every other book stay as they were. */
  lemma AddReviewSets(books: map<string, Book>, isbn: string, user: string, review: Review)
    requires isbn in books
    ensures var (r, after) := AddReview(books, isbn, Some(user), review);
            && r == Ok(ReviewSaved)
            && after.Keys == books.Keys
            && after[isbn].title == books[isbn].title
            && after[isbn].author == books[isbn].author
            && after[isbn].reviews.Keys == books[isbn].reviews.Keys + {user}
            && after[isbn].reviews[user] == review
            && (forall w :: w in books[isbn].reviews && w != user ==>
                  after[isbn].reviews[w] == books[isbn].reviews[w])
            && (forall k :: k in books && k != isbn ==> after[k] == books[k])
  {
  }

  /** Adding twice for the same user and book keeps one entry, holding the
      latest text: the second call overwrites the first. */
  lemma AddReviewOverwrites(books: map<string, Book>, isbn: string, user: string, first: Review, second: Review)
    ensures AddReview(AddReview(books, isbn, Some(user), first).1, isbn, Some(user), second)
            == AddReview(books, isbn, Some(user), second)
  {
    if isbn in books {
      var once := AddReview(books, isbn, Some(user), first).1;
      var twice := AddReview(once, isbn, Some(user), second).1;
      var direct := AddReview(books, isbn, Some(user), second).1;
      assert twice[isbn].reviews == direct[isbn].reviews;
      assert twice == direct;
    }
  }

  /** Deleting a truthy review removes exactly that key and nothing else. */
  lemma DeleteReviewRemoves(books: map<string, Book>, isbn: string, user: string)
    requires isbn in books && user in books[isbn].reviews && Truthy(books[isbn].reviews[user])
    ensures var (r, after) := DeleteReview(books, isbn, Some(user));
            && r == Ok(ReviewDeleted)
            && after.Keys == books.Keys
            && after[isbn].title == books[isbn].title
            && after[isbn].author == books[isbn].author
            && after[isbn].reviews.Keys == books[isbn].reviews.Keys - {user}
            && (forall w :: w in after[isbn].reviews ==> after[isbn].reviews[w] == books[isbn].reviews[w])
            && (forall k :: k in books && k != isbn ==> after[k] == books[k])
  {
  }

  /** A missing review, or one that is falsy (the empty string, or the
      `undefined` stored when the text was omitted), is "not found" and
      nothing changes. */
  lemma DeleteReviewNotFound(books: map<string, Book>, isbn: string, user: string)
    requires isbn in books
    requires user !in books[isbn].reviews || !Truthy(books[isbn].reviews[user])
    ensures DeleteReview(books, isbn, Some(user)) == (Err(NotFound(ReviewNotFound)), books)
  {
  }

  /** Every lookup and mutation on an ISBN outside the catalog is "Book not
      found", and the mutations leave the catalog as it was. */
  lemma UnknownIsbnNotFound(books: map<string, Book>, isbn: string, user: string, review: Review)
    requires isbn !in books
    ensures GetByIsbn(books, isbn) == Err(NotFound(BookNotFound))
    ensures GetReviews(books, isbn) == Err(NotFound(BookNotFound))
    ensures AddReview(books, isbn, Some(user), review) == (Err(NotFound(BookNotFound)), books)
    ensures DeleteReview(books, isbn, Some(user)) == (Err(NotFound(BookNotFound)), books)
  {
  }

  /** A review just added is what the reviews lookup shows for that user. */
  lemma AddThenGetReviews(books: map<string, Book>, isbn: string, user: string, review: Review)
    requires isbn in books
    ensures GetReviews(AddReview(books, isbn, Some(user), review).1, isbn)
            == Ok(books[isbn].reviews[user := review])
  {
  }

  /** Adding a truthy review where the user had none and then deleting it
      restores the catalog; a second delete is "not found". */
  lemma AddThenDelete(books: map<string, Book>, isbn: string, user: string, review: Review)
    requires isbn in books && user !in books[isbn].reviews && Truthy(review)
    ensures var added := AddReview(books, isbn, Some(user), review).1;
            var deleted := DeleteReview(added, isbn, Some(user));
            && deleted == (Ok(ReviewDeleted), books)
            && DeleteReview(deleted.1, isbn, Some(user)) == (Err(NotFound(ReviewNotFound)), books)
  {
    var added := AddReview(books, isbn, Some(user), review).1;
    var deleted := DeleteReview(added, isbn, Some(user)).1;
    assert deleted[isbn].reviews == books[isbn].reviews;
    assert deleted[isbn] == books[isbn];
    assert deleted == books;
  }

  /** Neither mutation adds or removes a book, so `Object.keys` order stays valid. */
  lemma MutationsKeepKeyOrder(books: map<string, Book>, keys: seq<string>, isbn: string, user: Option<string>, review: Review)
    requires KeyOrder(books, keys)
    ensures KeyOrder(AddReview(books, isbn, user, review).1, keys)
    ensures KeyOrder(DeleteReview(books, isbn, user).1, keys)
  {
  }
}

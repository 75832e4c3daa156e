# Bookstore reviews service: a Dafny model of its store and handlers

The service keeps two pieces of shared, in-memory state. The first is a
list of registered users, each a username and a plaintext password. The
second is a catalog that maps an ISBN to a book: a title, an author, and a
map from reviewer username to review text. Express route handlers read and
change this state:

- registration appends a user after checking that both fields are present and the name is free;
- login checks that both fields are present, then looks for an exact username/password match, then binds a token and the username to the session;
- the catalog lookups list the whole catalog and work by ISBN, by author (exact and case-insensitive), by title (case-insensitive substring) and by reviews of a book; the listing and the ISBN, author and title lookups also have a Promise/async form, the reviews lookup does not;
- two handlers insert, overwrite or delete `reviews[username]` of a book, where the username comes from the session.

The model has six modules:

- `Outcomes`: the answer of a handler as `Result<T>` (`Ok` payload, or an `Error` carrying the message the handler sends). `Option` stands for values that may be `undefined`. `Truthy` is JavaScript truthiness for a string-or-`undefined`.
- `Text`: `toLowerCase` (on ASCII letters) and `includes` (substring search).
- `Catalog`: books, search entries, the lookups as functions, the shared search filter `Select` with its lemmas, and the Promise variants.
- `Registry`: users, `isValid`, `authenticatedUser`, registration and login, as functions on the user list, with their lemmas.
- `Reviews`: the add-review and delete-review handlers as functions from the old catalog to the answer and the new catalog, with their lemmas.
- `BookStore`: the class `Store`. It holds the fields `users`, `books` and `keys`, where `keys` is the order `Object.keys(books)` reports. Its methods are the state-changing handlers and the search loop. Each one is proved against the functions above and keeps the invariant `Valid()`: the key order matches the catalog and usernames are unique. A client method, `ReviewSession`, walks through registration, login, two review writes and two deletes using only these contracts.

The delete handler tests the stored review for truthiness, not for
presence. The model follows that code: an empty text, or the `undefined`
stored by a write without a `review` parameter, counts as "Review not found
for this user", and the entry stays in place.

The session is explicit. Login returns the `Authorization` value it would
bind: a token plus the username. The review handlers take the session's
username as `Option<string>`. The source reads
`req.session.authorization.username` without checking it, so when no login
is bound it throws. The model answers `Unauthenticated` in that case and
changes nothing.

## Model

| member | source | states |
|---|---|---|
| `Registry.Filter` | final_project/router/auth_users.js:10-12 | `users.filter(keep)` holds exactly the records of `users` that `keep` accepts, each as many times as in `users`, and is no longer than `users` |
| `Registry.IsValid` | final_project/router/auth_users.js:8-20 | true if and only if no registered user has this username |
| `Registry.AuthenticatedUser` | final_project/router/auth_users.js:22-34 | true if and only if a record with exactly this username and this password is registered |
| `Registry.AuthenticatedIsTaken` | final_project/router/auth_users.js:22-34 | a user who can authenticate has a name for which `isValid` is false |
| `Registry.Login` | final_project/router/auth_users.js:37-61 | a missing or empty field gives "Error logging in" whatever the users are. Otherwise login succeeds if and only if the exact record is registered, and fails with "Invalid Login. Check username and password". On success it binds the username and a token whose claim is the password, signed with secret "access", valid 3600 s |
| `Registry.LoginNeedsOwnPassword` | final_project/router/auth_users.js:47-59 | with unique names, a registered user logs in exactly with the password of their own record |
| `Registry.Register` | final_project/router/general.js:8-26 | registration succeeds if and only if both fields are truthy and no record has the name. The list grows by one on success and not at all otherwise; the old records stay in front unchanged, and on success the new last record is `{username, password}`. The cases are spelled out in `RegisterAppends`, `RegisterTakenConflicts` and `RegisterMissingFieldRefused` |
| `Registry.RegisterAppends` | final_project/router/general.js:14-19 | present fields and a free name give success. The list grows by one: the old records come first and are unchanged, then `{username, password}` |
| `Registry.RegisterTakenConflicts` | final_project/router/general.js:16-22 | a taken name gives "User already exists!" and leaves the list unchanged |
| `Registry.RegisterMissingFieldRefused` | final_project/router/general.js:14-25 | a missing or empty username or password gives "Unable to register user." and leaves the list unchanged |
| `Registry.RegisterKeepsNamesUnique` | final_project/router/general.js:16-18 | if usernames are pairwise distinct before a registration, they are still distinct after it |
| `Registry.RegisterTwice` | final_project/router/general.js:8-26 | registering one name twice: the first call succeeds, the second conflicts, and the list has grown by exactly one |
| `Registry.RegisterThenLogin` | final_project/router/general.js:18 | after a successful registration, the same credentials log in and the session is bound to that username |
| `BookStore.Store.Register` | final_project/router/general.js:8-26 | the handler's answer and new user list are those of `Registry.Register`, the catalog is untouched, and the unique-name invariant is kept |
| `BookStore.Store.constructor` | final_project/router/auth_users.js:6 | the store starts with no users and the seed catalog with its key order |
| `Catalog.GetByIsbn` | final_project/router/general.js:34-43 | returns the stored book exactly when the ISBN is a key, and otherwise "Book not found" |
| `Catalog.GetReviews` | final_project/router/general.js:100-109 | returns that book's reviews map exactly when the ISBN is a key, and otherwise "Book not found" |
| `Catalog.Select` | final_project/router/general.js:51-63 | the accumulated search result: no longer than the key list, and every entry is the entry (key, title, author, reviews) of a catalog book matching the query. Completeness, order and uniqueness are `SelectExactly`, `SelectKeepsOrder` and `SelectOnePerBook` |
| `Catalog.SelectExactly` | final_project/router/general.js:51-63 | an entry is in the search result if and only if it carries the key, title, author and reviews of a listed book that matches the query |
| `Catalog.SelectKeepsOrder` | final_project/router/general.js:51-63 | the ISBNs of the result are a subsequence of the catalog's key order |
| `Catalog.SelectOnePerBook` | final_project/router/general.js:54-62 | over distinct keys, no two result entries share an ISBN |
| `Catalog.SelectIgnoresCase` | final_project/router/general.js:55 | queries of the same kind whose lowered text is equal give the same result |
| `BookStore.Store.Collect` | final_project/router/general.js:51-63 | the loop over `Object.keys(books)` produces exactly `Select` over the key order |
| `BookStore.Store.FindByAuthor` | final_project/router/general.js:46-70 | the author route answers with the non-empty search result, or "No books found by this author" |
| `BookStore.Store.FindByTitle` | final_project/router/general.js:73-97 | the title route answers with the non-empty search result, or "No books found with this title" |
| `Catalog.AuthorResponse` | final_project/router/general.js:46-70 | a success carries a non-empty list of books whose lowered author equals the lowered query; a failure is "No books found by this author". The if-and-only-if is `AuthorLookup` |
| `Catalog.TitleResponse` | final_project/router/general.js:73-97 | a success carries a non-empty list of books whose lowered title contains the lowered query; a failure is "No books found with this title". The if-and-only-if is `TitleLookup` |
| `Catalog.AuthorLookup` | final_project/router/general.js:51-69 | the author route succeeds if and only if some book's lowered author equals the lowered query. A book's entry is in the answer if and only if its author matches. An empty result is "No books found by this author" |
| `Catalog.TitleLookup` | final_project/router/general.js:78-96 | the title route succeeds if and only if the lowered query occurs in some book's lowered title. A book's entry is in the answer if and only if that holds. An empty result is "No books found with this title" |
| `Catalog.LookupsIgnoreCase` | final_project/router/general.js:55 | author and title routes answer the same for queries that differ only in letter case, and lowering the query first changes nothing |
| `Catalog.ListAll` | final_project/router/general.js:29-31 | `GET /` answers with the whole catalog, nothing added or dropped |
| `Catalog.Awaited` | final_project/router/general.js:140-147 | a route over a Promise answers `Ok` exactly when it resolved, with the resolved value; a rejection becomes a `NotFound` whose message is the rejection reason |
| `Catalog.GetAllBooks` | final_project/router/general.js:114-126 | `getAllBooks()` always resolves, with the whole catalog |
| `Catalog.GetBookByISBN` | final_project/router/general.js:129-147 | `getBookByISBN` resolves exactly when the ISBN is a key, and its route answers as `GET /isbn/:isbn` does |
| `Catalog.GetBooksByAuthor` | final_project/router/general.js:150-181 | `getBooksByAuthor` rejects only with "No books found by this author", and its route answers as `GET /author/:author` does |
| `Catalog.GetBooksByTitle` | final_project/router/general.js:184-214 | `getBooksByTitle` throws only "No books found with this title", and its route answers as `GET /title/:title` does |
| `Catalog.AsyncRoutesAgree` | final_project/router/general.js:114-214 | `/async` always resolves with the whole catalog. The Promise/async ISBN, author and title routes give the same payloads and failure messages as the synchronous routes |
| `Catalog.ExampleCatalog` | final_project/router/general.js:34-97 | over the catalog {"1": "Book One" by Alice}: ISBN "1" is found, "99" is not, author "alice" and title "ONE" each give the single entry for "1" |
| `Text.Lower` | final_project/router/general.js:55 | lowering keeps the length; every character that is not an ASCII capital is kept as it is, and each ASCII capital becomes its own lower-case letter (so no capital remains) |
| `Text.LowerIdempotent` | final_project/router/general.js:55 | lowering twice is lowering once |
| `Text.Includes` | final_project/router/general.js:82 | `s.includes(f)` is true if and only if `f` occurs in `s` at some offset |
| `Text.EmptyFragmentMatches` | final_project/router/general.js:82 | the empty fragment is contained in every title |
| `Reviews.MutationsNeedIdentity` | final_project/router/auth_users.js:67 | with no identity bound to the session, adding and deleting answer `Unauthenticated` and change nothing |
| `Reviews.AddReviewSets` | final_project/router/auth_users.js:70-73 | on a known ISBN, adding sets `reviews[user]` to the given text and adds no other reviewer. Other reviewers' entries, the title, the author and every other book are unchanged |
| `Reviews.AddReviewOverwrites` | final_project/router/auth_users.js:72 | adding twice for one user and book is the same as adding the latest text once |
| `Reviews.AddThenGetReviews` | final_project/router/auth_users.js:72 | after adding, the reviews lookup shows the old reviews with the user's entry set |
| `Reviews.AddReview` | final_project/router/auth_users.js:64-77 | adding succeeds if and only if an identity is bound and the ISBN is a key. Then the user's entry holds the given text; a failure leaves the catalog unchanged; no book is added or removed and every other book is unchanged. Details in `AddReviewSets` and `AddReviewOverwrites` |
| `BookStore.Store.AddReview` | final_project/router/auth_users.js:64-77 | the handler's answer and new catalog are those of `Reviews.AddReview`, users and key order are untouched, and the invariant is kept |
| `Reviews.DeleteReviewRemoves` | final_project/router/auth_users.js:85-90 | on a known ISBN with a truthy review by the user, deleting removes exactly that key. The other reviewers' texts, the title, the author and every other book are unchanged |
| `Reviews.DeleteReviewNotFound` | final_project/router/auth_users.js:87-93 | on a known ISBN, a missing or falsy review (empty text, or `undefined`) gives "Review not found for this user" and changes nothing |
| `Reviews.AddThenDelete` | final_project/router/auth_users.js:70-93 | adding a truthy review where the user had none, then deleting it, restores the catalog. A second delete gives "Review not found for this user" |
| `Reviews.UnknownIsbnNotFound` | final_project/router/auth_users.js:70-96 | for an ISBN outside the catalog, the ISBN lookup, the reviews lookup, adding and deleting all give "Book not found", and the catalog is unchanged |
| `Reviews.MutationsKeepKeyOrder` | final_project/router/auth_users.js:64-97 | neither review handler adds or removes a book, so the `Object.keys` order stays valid |
| `Reviews.DeleteReview` | final_project/router/auth_users.js:80-97 | deleting succeeds if and only if an identity is bound, the ISBN is a key and the user's stored review is truthy. Then the user's entry is gone; a failure leaves the catalog unchanged; no book is added or removed and every other book is unchanged. Details in `DeleteReviewRemoves` and `DeleteReviewNotFound` |
| `BookStore.Store.DeleteReview` | final_project/router/auth_users.js:80-97 | the handler's answer and new catalog are those of `Reviews.DeleteReview`, users and key order are untouched, and the invariant is kept |

## Left out

- HTTP plumbing: routing, `req`/`res`, status codes (404, 208, 500) and `JSON.stringify` are not modelled. Each handler's answer is the payload or the error message it sends, except that a successful login answers with the `Authorization` it binds (its text "User successfully logged in" is the constant `LoggedIn`).
- Serialization: besides the 4-space formatting, `JSON.stringify` drops reviews whose value is `undefined`. After a review write without a `review` parameter, the source's `GET /review/:isbn` does not list the user, while `GetReviews` returns the stored map with the user's entry `None`.
- Token issuance: `jwt.sign` is modelled as the claims it signs (the password, secret "access", 3600 s lifetime). The signature, the issued-at time and expiry checking are not modelled.
- Session storage: the session is not ambient state. Login returns the `Authorization` it would store, and the review handlers receive the session's username as an `Option`. The source throws when no login is bound; the model answers `Unauthenticated` instead.
- `booksdb.js` is not part of this model. The seed catalog and its key order are constructor parameters. JavaScript's rule for `Object.keys` (integer-like keys ascending, then insertion order) is not computed; the order is taken as given.
- Request values that are not strings (numbers, objects, a `review` parameter given twice, which arrives as an array) are not modelled. Every field is a string or `undefined`.
- Keys that JavaScript objects inherit (`books["constructor"]`, a `__proto__` username) are not modelled. A lookup sees only the catalog's own keys.
- Aliasing: the search entries and the reviews lookup share the book's live `reviews` object in the source. The model returns value copies, so a later review write does not show through an answer already produced.
- Unicode case mapping: `toLowerCase` is modelled on ASCII letters only.
- Concurrency: the registration uniqueness race and last-writer-wins review writes have no counterpart in a sequential model.
- The unused `axios` import and the unreachable `catch` of `/async` (its Promise always resolves) are not modelled.

/**
 Outcome values of the bookstore's handlers. Every route handler either
 answers with a payload or with one of the error messages it sends; the
 model returns that answer as a `Result` instead of writing it to a response.
 */
module Outcomes {

  /** A value that may be missing: a request field, a query parameter or the
      session binding. `None` stands for JavaScript's `undefined`. */
  datatype Option<+T> = None | Some(value: T)

  /** The failures the handlers report, each with the message they send. */
  datatype Error =
    | BadRequest(message: string)
    | Conflict(message: string)
    | NotFound(message: string)
    | InvalidCredentials(message: string)
    | Unauthenticated

  datatype Result<+T> = Ok(value: T) | Err(error: Error)

  /** JavaScript truthiness of a value that is either a string or `undefined`:
      only a present, non-empty string is truthy. */
  predicate Truthy(v: Option<string>)
  {
    v.Some? && v.value != ""
  }

  // Messages sent by the registration handler.
  const UserRegistered := "User successfully registered. Now you can login"
  const UserExists := "User already exists!"
  const UnableToRegister := "Unable to register user."

  // Messages sent by the login handler.
  const LoggedIn := "User successfully logged in"
  const LoginFailed := "Error logging in"
  const InvalidLogin := "Invalid Login. Check username and password"

  // Messages sent by the catalog lookups.
  const BookNotFound := "Book not found"
  const NoBooksByAuthor := "No books found by this author"
  const NoBooksWithTitle := "No books found with this title"

  // Messages sent by the review handlers.
  const ReviewSaved := "Review successfully added/updated"
  const ReviewDeleted := "Review successfully deleted"
  const ReviewNotFound := "Review not found for this user"
}

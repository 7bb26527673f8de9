/**
 * Request methods, status codes and the error kinds the API answers with. `Invalid` is the serializer
 * validation error (HTTP 400); `NotFound` covers both the custom
 * "no such user" exception and the framework's 404 lookups; `DuplicateNotError`
 * is the custom exception raised for an already registered (username, email)
 * pair, whose status code is 200.
 */
module Http {

  /** The request methods the views distinguish. */
  datatype Method = Get | Post | Patch | Delete

  /** Which request field a length or format error is about. */
  datatype Field = UsernameField | EmailField | CodeField

  /** Why a request was rejected with a validation error. */
  datatype Reason =
    | ReservedUsername
    | InvalidUsernameChars
    | TooLong(field: Field)
    | InvalidEmail
    | UsernameTaken
    | EmailTaken
    | BadCode
    | YearOutOfRange
    | ScoreOutOfRange
    | DuplicateReview
    | InvalidRoleChoice

  datatype ApiError = Invalid(reason: Reason) | NotFound | DuplicateNotError

  const HttpNoContent := 204
  const HttpNotFound := 404
}

/** The named failures of the request handlers and the HTTP status each one
    is answered with. */
module Errors {

  datatype Error =
    // 400: a required request field is absent or falsy
    | MissingField(field: string)
    // a `get_or_404` lookup failed; see `Status`
    | NotFound
    // 401
    | TokenRejected
    | InvalidCredentials
    | AccountDisabled
    // 403
    | Forbidden
    // 400: lending rules
    | OutOfStock
    | LoanLimitReached
    | HasOverdueLoans
    | AlreadyReturned
    | NotBorrowed
    | AlreadyRenewed
    // 400: reservation rules
    | StillAvailable
    | DuplicatePending
    | NotPending
    | Expired
    // 400: catalogue, review, user and category rules
    | DuplicateIsbn
    | HasBorrowRecords
    | HasReviews
    | InvalidRating
    | UsernameTaken
    | EmailTaken
    | CannotDeleteSelf
    | HasUnreturnedBooks
    | WrongPassword
    | CategoryNameTaken
    | HasSubcategories
    | HasBooks
    // 500: an exception caught by the handler's `except Exception`
    | InternalError

  datatype Result<+T> = Ok(value: T) | Err(error: Error)

  /** The status code a handler answers a failure with. Every handler wraps
      its body in `try ... except Exception`, and the `NotFound` abort raised
      by `get_or_404` is such an exception, so a missing record is reported
      with 500, not 404. */
  function Status(e: Error): (code: int)
    ensures code in {400, 401, 403, 500}
    ensures code == 500 <==> e == NotFound || e == InternalError
  {
    match e
    case NotFound => 500
    case InternalError => 500
    case TokenRejected => 401
    case InvalidCredentials => 401
    case AccountDisabled => 401
    case Forbidden => 403
    case _ => 400
  }
}

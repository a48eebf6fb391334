/**
 * The request guards of middleware/auth.js. Each guard either hands the
 * request on (`next()`) or answers it with a status and a JSON failure body.
 */
module AuthGuards {

  /** One entry of express-validator's error list: the request field and its message. */
  datatype FieldError = FieldError(path: string, msg: string)

  /** What a guard does with a request. */
  datatype GuardResult =
    | Next
    | Reject(status: nat, message: string, errors: seq<FieldError>)

  const AuthRequiredMessage := "Authentication required. Please log in."
  const AlreadyLoggedInMessage := "You are already logged in."
  const ValidationFailedMessage := "Validation failed"

  /** `requireAuth`: lets only authenticated requests through. */
  function RequireAuth(authenticated: bool): (r: GuardResult)
    ensures r.Next? <==> authenticated
    ensures !authenticated ==> r == Reject(401, AuthRequiredMessage, [])
  {
    if authenticated then Next else Reject(401, AuthRequiredMessage, [])
  }

  /** `requireNoAuth`: lets only anonymous requests through (login and registration). */
  function RequireNoAuth(authenticated: bool): (r: GuardResult)
    ensures r.Next? <==> !authenticated
    ensures authenticated ==> r == Reject(400, AlreadyLoggedInMessage, [])
  {
    if !authenticated then Next else Reject(400, AlreadyLoggedInMessage, [])
  }

  /** `handleValidationErrors`: passes iff the validation chain recorded no error. */
  function HandleValidationErrors(errors: seq<FieldError>): (r: GuardResult)
    ensures r.Next? <==> errors == []
    ensures errors != [] ==> r == Reject(400, ValidationFailedMessage, errors)
  {
    if errors != [] then Reject(400, ValidationFailedMessage, errors) else Next
  }

  /** For every request exactly one of the two session guards passes. */
  lemma ExactlyOneSessionGuardPasses(authenticated: bool)
    ensures RequireAuth(authenticated).Next? != RequireNoAuth(authenticated).Next?
  {
  }
}

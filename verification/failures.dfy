/**
 * The closed set of failures an operation can end in: the two domain
 * exceptions, Bean Validation's `ConstraintViolationException`,
 * `IllegalArgumentException`, and everything else.
 */
module Failures {
  import opened Wrappers
  import opened Text

  datatype Failure =
    | UserNotFound(message: string)
    | DuplicateEmail(message: string)
      /** The messages of the violated constraints, in the order the violation set yields them. */
    | ConstraintViolation(messages: seq<string>)
    | IllegalArgument(message: string)
      /** Any other throwable: a storage error, a `NullPointerException`, ... */
    | Unexpected(message: string)

  /** Java's string concatenation of a nullable `String`. */
  function Show(o: Option<string>): string {
    match o
    case None => "null"
    case Some(s) => s
  }

  const NotFoundPrefix := "User not found with id: "
  const DuplicatePrefix := "Email already exists: "

  /** The message of the `UserNotFoundException` for `id`. */
  function NotFoundMessage(id: int): (m: string)
    ensures IsPrefix(NotFoundPrefix, m) && ParseLong(m[|NotFoundPrefix|..]) == Some(id)
  {
    DecimalRoundTrip(id);
    NotFoundPrefix + DecimalString(id)
  }

  /** The message of the `DuplicateEmailException` for `email`. */
  function DuplicateMessage(email: Option<string>): (m: string)
    ensures IsPrefix(DuplicatePrefix, m) && m[|DuplicatePrefix|..] == Show(email)
  {
    DuplicatePrefix + Show(email)
  }
}

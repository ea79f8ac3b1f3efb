/** Small shared datatypes: an optional value, and the response a view hands back. */
module Wrappers {

  /** A value that may be absent (Python's None). */
  datatype Option<+T> = None | Some(value: T)

  /** Why a submitted form was rejected by a validation rule. */
  datatype Reason =
    | AnswerInvalidCharacters
    | AnswerTooShort
    | UsernameInvalidCharacters
    | PasswordsDoNotMatch
    | PasswordTooShort

  /**
   * What a request handler or storage operation ends in, in place of the
   * flash message, redirect or rendered template.
   */
  datatype Outcome =
    | Ok
    | ChallengePassed(username: string)  // the reset form is rendered for this user
    | ValidationError(reason: Reason)
    | NotFound                           // a referenced user or question does not exist
    | Rejected                           // booking in the past, or a wrong recovery answer
    | IntegrityError                     // unique constraint violated by an insert
}

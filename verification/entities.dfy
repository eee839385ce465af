/** The records the two services exchange with the store and with their callers,
    and the tagged outcome that replaces the services' exceptions. */
module Entities {

  /** An absent-or-present value; stands for a Java reference that may be null,
      and for the empty/present `Optional` the repositories return. */
  datatype Option<+T> = None | Some(value: T)

  /** One tag per exception class the services throw. */
  datatype Error =
    | RegistrationFailed  // blank username or short password
    | DuplicateUsername   // username already taken
    | LoginFailed         // unknown username or wrong password
    | MessageBlankText    // missing or blank message text
    | MessageTooLong      // message text over the length limit
    | UserNotFound        // poster is not a known account
    | MessageNotFound     // update aimed at a missing message

  /** The outcome of a service call that may throw. */
  datatype Result<+T> = Ok(value: T) | Err(error: Error)

  /** A persisted account row. */
  datatype Account = Account(accountId: int, username: string, password: string)

  /** A persisted message row; the timestamp is opaque to the services. */
  datatype Message = Message(messageId: int, postedBy: int, messageText: string, timePostedEpoch: int)

  /** The account a caller submits for registration; either field may be null. */
  datatype AccountForm = AccountForm(username: Option<string>, password: Option<string>)

  /** The message a caller submits for creation; poster and text may be null. */
  datatype MessageForm = MessageForm(postedBy: Option<int>, messageText: Option<string>, timePostedEpoch: int)
}

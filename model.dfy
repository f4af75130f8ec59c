/**
 * The two persisted entities, `Account` and `Message`, and the request
 * payloads the services validate before anything is stored.
 */
module Model {

  /** A Java reference that may be `null`. */
  datatype Option<T> = None | Some(value: T)

  /** A row of table `account(account_id, username, password)`. */
  datatype Account = Account(accountId: int, username: string, password: string)

  /** A row of table `message(message_id, posted_by, message_text, time_posted_epoch)`. */
  datatype Message = Message(messageId: int, postedBy: int, text: string, timePostedEpoch: int)

  /** An account as it arrives for registration: its id is not yet assigned
      and either field may be `null`. */
  datatype AccountForm = AccountForm(username: Option<string>, password: Option<string>)

  /** A message as it arrives for creation: its id is not yet assigned and the
      text may be `null`. */
  datatype MessageForm = MessageForm(postedBy: int, text: Option<string>, timePostedEpoch: int)
}

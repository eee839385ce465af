/** The persistence collaborator both services share: the account table and
    the message table, and the reply of a service call that may change them. */
module Store {
  import opened Entities
  import AccountRepository
  import MessageRepository

  datatype Db = Db(accounts: AccountRepository.AccountTable, messages: MessageRepository.MessageTable)

  /** What a mutating service call returns: its outcome and the store afterwards. */
  datatype Reply<+T> = Reply(result: Result<T>, db: Db)

  /** A fresh database: both tables empty, both identity counters at 1. */
  function Empty(): (db: Db)
    ensures AccountRepository.Valid(db.accounts) && MessageRepository.Valid(db.messages)
    ensures db.accounts.rows == [] && db.messages.rows == []
  {
    Db(AccountRepository.AccountTable([], 1), MessageRepository.MessageTable([], 1))
  }
}

/** The store invariant the two services keep between them: both tables keep
    their keys unique and below their counters, usernames stay unique, every
    stored account passed the registration checks, and every stored message
    passed the text checks and names a stored account as its poster. Accounts
    are never removed here, so the poster reference checked at creation stays
    valid through later updates and deletes. */
module Integrity {
  import opened Entities
  import opened Store
  import AccountRepository
  import MessageRepository
  import AccountService
  import MessageService

  ghost predicate Consistent(db: Db) {
    && AccountRepository.Valid(db.accounts)
    && MessageRepository.Valid(db.messages)
    && (forall i :: 0 <= i < |db.accounts.rows| ==>
          && AccountService.UsernameAccepted(Some(db.accounts.rows[i].username))
          && AccountService.PasswordAccepted(Some(db.accounts.rows[i].password)))
    && (forall i :: 0 <= i < |db.messages.rows| ==>
          && MessageService.TextAccepted(db.messages.rows[i].messageText)
          && AccountRepository.HasAccountId(db.accounts.rows, db.messages.rows[i].postedBy))
  }

  lemma EmptyIsConsistent()
    ensures Consistent(Empty())
  {
  }

  /** Registration keeps the store consistent. */
  lemma RegisterPreservesConsistency(db: Db, form: AccountForm)
    requires Consistent(db)
    ensures Consistent(AccountService.RegisterAccount(db, form).db)
  {
    var r := AccountService.RegisterAccount(db, form);
    if r.result.Ok? {
      var rows, rows' := db.accounts.rows, r.db.accounts.rows;
      assert rows' == rows + [r.result.value];
      assert AccountRepository.Valid(r.db.accounts);
      forall i | 0 <= i < |db.messages.rows|
        ensures AccountRepository.HasAccountId(rows', db.messages.rows[i].postedBy)
      {
        AccountRepository.AppendKeepsAccountId(rows, r.result.value, db.messages.rows[i].postedBy);
      }
      forall i | 0 <= i < |rows'|
        ensures AccountService.UsernameAccepted(Some(rows'[i].username))
        ensures AccountService.PasswordAccepted(Some(rows'[i].password))
      {
        if i < |rows| {
          assert rows'[i] == rows[i];
        }
      }
    }
  }

  /** Message creation keeps the store consistent. */
  lemma CreatePreservesConsistency(db: Db, form: MessageForm)
    requires Consistent(db)
    ensures Consistent(MessageService.CreateMessage(db, form).db)
  {
    var r := MessageService.CreateMessage(db, form);
    if r.result.Ok? {
      var rows, rows' := db.messages.rows, r.db.messages.rows;
      assert rows' == rows + [r.result.value];
      assert MessageRepository.Valid(r.db.messages);
      forall i | 0 <= i < |rows'|
        ensures MessageService.TextAccepted(rows'[i].messageText)
        ensures AccountRepository.HasAccountId(r.db.accounts.rows, rows'[i].postedBy)
      {
        if i < |rows| {
          assert rows'[i] == rows[i];
        }
      }
    }
  }

  /** A text update keeps the store consistent: ids and posters are untouched
      and the new text passed the same checks. */
  lemma UpdatePreservesConsistency(db: Db, messageId: int, text: Option<string>)
    requires Consistent(db)
    ensures Consistent(MessageService.UpdateMessage(db, messageId, text).db)
  {
    var r := MessageService.UpdateMessage(db, messageId, text);
    if r.result.Ok? {
      MessageRepository.UpdateKeepsTableValid(db.messages, messageId, text.value);
      var rows, rows' := db.messages.rows, r.db.messages.rows;
      forall i | 0 <= i < |rows'|
        ensures MessageService.TextAccepted(rows'[i].messageText)
        ensures AccountRepository.HasAccountId(r.db.accounts.rows, rows'[i].postedBy)
      {
        assert rows'[i].postedBy == rows[i].postedBy;
      }
    }
  }

  /** Deletion keeps the store consistent. */
  lemma DeletePreservesConsistency(db: Db, messageId: int)
    requires Consistent(db)
    ensures Consistent(MessageService.DeleteMessage(db, messageId).1)
  {
    var db' := MessageService.DeleteMessage(db, messageId).1;
    MessageRepository.DeleteKeepsUniqueIds(db.messages.rows, messageId);
    forall i | 0 <= i < |db'.messages.rows|
      ensures MessageService.TextAccepted(db'.messages.rows[i].messageText)
      ensures AccountRepository.HasAccountId(db'.accounts.rows, db'.messages.rows[i].postedBy)
      ensures db'.messages.rows[i].messageId < db'.messages.nextId
    {
      assert db'.messages.rows[i] in db.messages.rows;
    }
  }

  /** In a consistent store, an id that is no account has no messages: the
      unchecked read path then returns the empty list. */
  lemma UnknownAccountHasNoMessages(db: Db, accountId: int)
    requires Consistent(db)
    requires !AccountRepository.HasAccountId(db.accounts.rows, accountId)
    ensures MessageService.GetMessagesByUser(db, accountId) == []
  {
    assert forall i :: 0 <= i < |db.messages.rows| ==> db.messages.rows[i].postedBy != accountId;
  }

  /** Login never succeeds for a username that fails the registration checks,
      since only registered accounts are stored. */
  lemma LoginNeedsRegisteredShape(db: Db, username: Option<string>, password: Option<string>)
    requires Consistent(db)
    requires AccountService.Login(db, username, password).Ok?
    ensures AccountService.UsernameAccepted(username) && AccountService.PasswordAccepted(password)
  {
    var a := AccountService.Login(db, username, password).value;
    assert a in db.accounts.rows;
  }
}

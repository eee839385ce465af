/** The walk-through of the service layer on a fresh store: register "ann",
    post "hi" as her, edit it to "hi there", and read it back. Each step is
    proved separately from the store the previous step leaves. */
module Scenario {
  import opened Entities
  import opened Store
  import JavaText
  import AccountRepository
  import MessageRepository
  import AccountService
  import MessageService

  const Ann := Account(1, "ann", "secret")
  const Hi := Message(1, 1, "hi", 1000)
  const HiThere := Message(1, 1, "hi there", 1000)

  /** The store after each step. */
  const Registered := Db(AccountRepository.AccountTable([Ann], 2), MessageRepository.MessageTable([], 1))
  const Posted := Db(Registered.accounts, MessageRepository.MessageTable([Hi], 2))
  const Edited := Db(Registered.accounts, MessageRepository.MessageTable([HiThere], 2))

  lemma RegisterStep()
    ensures AccountService.RegisterAccount(Empty(), AccountForm(Some("ann"), Some("secret"))) == Reply(Ok(Ann), Registered)
  {
    assert !JavaText.IsWhitespace("ann"[0]);
  }

  lemma PostStep()
    ensures MessageService.CreateMessage(Registered, MessageForm(Some(1), Some("hi"), 1000)) == Reply(Ok(Hi), Posted)
  {
    MessageService.VisibleTextChecked("hi", 0);
    assert Registered.accounts.rows[0].accountId == 1;
  }

  lemma EditStep()
    ensures MessageService.UpdateMessage(Posted, 1, Some("hi there")) == Reply(Ok(1), Edited)
  {
    MessageService.VisibleTextChecked("hi there", 0);
    assert Posted.messages.rows[0].messageId == 1;
    var rows := MessageService.UpdateMessage(Posted, 1, Some("hi there")).db.messages.rows;
    assert rows[0] == HiThere;
    assert rows == [HiThere];
  }

  lemma ReadStep()
    ensures MessageService.GetMessageById(Edited, 1) == Some(HiThere)
    ensures AccountService.Login(Edited, Some("ann"), Some("secret")) == Ok(Ann)
  {
  }

  /** The whole walk-through: account 1, message 1, one row updated, and the
      edited text read back with the original poster and timestamp. */
  lemma RegisterPostEditRead()
    ensures var r1 := AccountService.RegisterAccount(Empty(), AccountForm(Some("ann"), Some("secret")));
            && r1.result == Ok(Account(1, "ann", "secret"))
            && var r2 := MessageService.CreateMessage(r1.db, MessageForm(Some(1), Some("hi"), 1000));
               && r2.result == Ok(Message(1, 1, "hi", 1000))
               && var r3 := MessageService.UpdateMessage(r2.db, 1, Some("hi there"));
                  && r3.result == Ok(1)
                  && MessageService.GetMessageById(r3.db, 1) == Some(Message(1, 1, "hi there", 1000))
                  && AccountService.Login(r3.db, Some("ann"), Some("secret")) == Ok(Account(1, "ann", "secret"))
  {
    RegisterStep();
    PostStep();
    EditStep();
    ReadStep();
  }
}

/** Message creation, reads, text update and deletion. Creation and update
    share the text checks (blank after trimming, then longer than 255 measured
    on the untrimmed text), which run before any store access; creation then
    checks the poster exists. The read and delete paths signal a missing
    message with an absent or false result, never with an error. */
module MessageService {
  import opened Entities
  import opened JavaText
  import AccountRepository
  import MessageRepository
  import opened Store

  const MaxTextLength := 255

  /** The text checks both creation and update apply, in order: null or blank
      after trimming, then too long. Text passes exactly when it is present,
      not blank after trimming, and at most 255 characters long before trimming;
      present, non-blank text over 255 characters is too long. */
  function CheckText(text: Option<string>): (r: Option<Error>)
    ensures r == None <==> text.Some? && !IsBlankAfterTrim(text.value) && |text.value| <= MaxTextLength
    ensures r == Some(MessageBlankText) <==> text.None? || IsBlankAfterTrim(text.value)
    ensures r == Some(MessageTooLong) <==>
              text.Some? && !IsBlankAfterTrim(text.value) && |text.value| > MaxTextLength
  {
    if text.None? || IsBlankAfterTrim(text.value) then Some(MessageBlankText)
    else if |text.value| > MaxTextLength then Some(MessageTooLong)
    else None
  }

  /** Text that CheckText accepts. */
  predicate TextAccepted(text: string) {
    CheckText(Some(text)).None?
  }

  /** `createMessage`. It succeeds exactly when the text passes and the poster
      is a stored account; then it inserts one message carrying the submitted
      poster, text and timestamp under a fresh id and changes nothing else. A
      rejection leaves the store as it was; a text failure is reported before
      the poster is looked at. */
  function CreateMessage(db: Db, form: MessageForm): (r: Reply<Message>)
    ensures r.result.Ok? <==>
              CheckText(form.messageText).None? && form.postedBy.Some?
              && AccountRepository.HasAccountId(db.accounts.rows, form.postedBy.value)
    ensures r.result.Err? ==> r.db == db
    ensures r.result.Err? ==>
              r.result.error == if CheckText(form.messageText).Some? then CheckText(form.messageText).value else UserNotFound
    ensures r.result.Ok? ==>
              && r.result.value.postedBy == form.postedBy.value
              && r.result.value.messageText == form.messageText.value
              && r.result.value.timePostedEpoch == form.timePostedEpoch
              && r.db.messages.rows == db.messages.rows + [r.result.value]
              && r.db.accounts == db.accounts
    ensures r.result.Ok? && MessageRepository.Valid(db.messages) ==>
              && !MessageRepository.ExistsById(db.messages.rows, r.result.value.messageId)
              && MessageRepository.Valid(r.db.messages)
  {
    match CheckText(form.messageText)
    case Some(e) => Reply(Err(e), db)
    case None =>
      if form.postedBy.None? || AccountRepository.FindAccountByAccountId(db.accounts.rows, form.postedBy.value).None? then
        Reply(Err(UserNotFound), db)
      else
        var (message, messages) :=
          MessageRepository.Save(db.messages, form.postedBy.value, form.messageText.value, form.timePostedEpoch);
        Reply(Ok(message), db.(messages := messages))
  }

  /** `getAllMessages`: every stored message, in storage order. */
  function GetAllMessages(db: Db): seq<Message> {
    db.messages.rows
  }

  /** `getMessageById`: the stored message with that id, or absent (not an error). */
  function GetMessageById(db: Db, messageId: int): (r: Option<Message>)
    ensures r.None? <==> !MessageRepository.ExistsById(db.messages.rows, messageId)
    ensures r.Some? ==> r.value in GetAllMessages(db) && r.value.messageId == messageId
  {
    MessageRepository.FindById(db.messages.rows, messageId)
  }

  /** `getMessagesByUser`: the stored messages with that poster, possibly none.
      There is no check that the account exists, and no error. */
  function GetMessagesByUser(db: Db, accountId: int): (r: seq<Message>)
    ensures forall m :: m in r <==> m in GetAllMessages(db) && m.postedBy == accountId
    ensures r == [] <==> forall i :: 0 <= i < |db.messages.rows| ==> db.messages.rows[i].postedBy != accountId
  {
    MessageRepository.FindByPostedBy(db.messages.rows, accountId)
  }

  /** `updateMessage`. Invalid text is reported before the store is touched,
      even for a missing id; valid text for a missing id is a not-found error;
      otherwise exactly the rows with that id take the new text, keeping id,
      poster and timestamp, and the matched-row count (1 under the primary-key
      constraint) is returned. A rejection leaves the store as it was. */
  function UpdateMessage(db: Db, messageId: int, text: Option<string>): (r: Reply<int>)
    ensures CheckText(text).Some? ==> r == Reply(Err(CheckText(text).value), db)
    ensures (CheckText(text).None? && !MessageRepository.ExistsById(db.messages.rows, messageId))
              ==> r == Reply(Err(MessageNotFound), db)
    ensures r.result.Ok? <==> CheckText(text).None? && MessageRepository.ExistsById(db.messages.rows, messageId)
    ensures r.result.Ok? ==>
              && r.result.value >= 1
              && r.db.accounts == db.accounts
              && r.db.messages.nextId == db.messages.nextId
              && |r.db.messages.rows| == |db.messages.rows|
              && forall i :: 0 <= i < |db.messages.rows| ==>
                   var before := db.messages.rows[i];
                   r.db.messages.rows[i]
                     == if before.messageId == messageId then before.(messageText := text.value) else before
    ensures r.result.Ok? && MessageRepository.UniqueIds(db.messages.rows) ==> r.result.value == 1
  {
    match CheckText(text)
    case Some(e) => Reply(Err(e), db)
    case None =>
      var (rows, updated) := MessageRepository.UpdateMessageText(db.messages.rows, messageId, text.value);
      if updated == 0 then Reply(Err(MessageNotFound), db)
      else Reply(Ok(updated), db.(messages := db.messages.(rows := rows)))
  }

  /** `deleteMessage`: false, with the store unchanged, for a missing id;
      otherwise true, and that id is gone while every other message stays. */
  function DeleteMessage(db: Db, messageId: int): (r: (bool, Db))
    ensures r.0 <==> MessageRepository.ExistsById(db.messages.rows, messageId)
    ensures !r.0 ==> r.1 == db
    ensures !MessageRepository.ExistsById(r.1.messages.rows, messageId)
    ensures forall m :: m in r.1.messages.rows <==> m in db.messages.rows && m.messageId != messageId
    ensures r.1.accounts == db.accounts && r.1.messages.nextId == db.messages.nextId
  {
    if !MessageRepository.ExistsById(db.messages.rows, messageId) then (false, db)
    else (true, db.(messages := db.messages.(rows := MessageRepository.DeleteById(db.messages.rows, messageId))))
  }

  /** Every message the full listing returns can be fetched by its own id and
      comes back unchanged, given the primary-key constraint. */
  lemma AllMessagesFetchable(db: Db)
    requires MessageRepository.UniqueIds(db.messages.rows)
    ensures forall i :: 0 <= i < |GetAllMessages(db)| ==>
              GetMessageById(db, GetAllMessages(db)[i].messageId) == Some(GetAllMessages(db)[i])
  {
    forall i | 0 <= i < |db.messages.rows|
      ensures GetMessageById(db, db.messages.rows[i].messageId) == Some(db.messages.rows[i])
    {
      MessageRepository.FindStoredId(db.messages.rows, i);
    }
  }

  /** Text of at most 255 characters with one visible character (neither
      trimmable nor white space) passes the checks; longer text with one is
      too long, however much of it trimming would remove. */
  lemma VisibleTextChecked(text: string, i: int)
    requires 0 <= i < |text| && !IsTrimmable(text[i]) && !IsWhitespace(text[i])
    ensures CheckText(Some(text)) == if |text| <= MaxTextLength then None else Some(MessageTooLong)
  {
    VisibleIsNotBlankAfterTrim(text, i);
  }

  /** The length limit is inclusive and measured before trimming: 255 letters
      pass, 256 do not, and neither do 255 letters followed by a space,
      although trimming brings those back to 255. */
  lemma LengthBoundary()
    ensures CheckText(Some(seq(255, _ => 'a'))) == None
    ensures CheckText(Some(seq(256, _ => 'a'))) == Some(MessageTooLong)
    ensures CheckText(Some(seq(255, _ => 'a') + " ")) == Some(MessageTooLong)
    ensures Trim(seq(255, _ => 'a') + " ") == seq(255, _ => 'a')
  {
    var a255, a256 := seq(255, _ => 'a'), seq(256, _ => 'a');
    var spaced := a255 + " ";
    assert a255[0] == 'a' && a256[0] == 'a' && spaced[0] == 'a';
    VisibleTextChecked(a255, 0);
    VisibleTextChecked(a256, 0);
    VisibleTextChecked(spaced, 0);
    var lo, hi := TrimIsInfix(spaced);
    assert spaced[254] == 'a' && spaced[255] == ' ';
    assert lo == 0 && hi == 255;
    assert spaced[..255] == a255;
  }

  /** An update fetched back: under the primary-key constraint, after a
      successful update the message under that id has the new text and its
      old poster and timestamp. */
  lemma UpdateThenGet(db: Db, messageId: int, text: Option<string>)
    requires MessageRepository.UniqueIds(db.messages.rows)
    requires UpdateMessage(db, messageId, text).result.Ok?
    ensures var before := GetMessageById(db, messageId).value;
            GetMessageById(UpdateMessage(db, messageId, text).db, messageId)
              == Some(before.(messageText := text.value))
  {
    MessageRepository.FindByIdAfterUpdate(db.messages.rows, messageId, text.value);
  }

  /** A delete fetched back: the id is absent afterwards, and a second delete
      of it reports false and changes nothing. */
  lemma DeleteThenGetAndDeleteAgain(db: Db, messageId: int)
    ensures var db' := DeleteMessage(db, messageId).1;
            && GetMessageById(db', messageId) == None
            && DeleteMessage(db', messageId) == (false, db')
  {
  }

  /** A created message lands at the end of its poster's list; every other
      poster's list is as before. */
  lemma {:induction false} CreateThenListByUser(db: Db, form: MessageForm, accountId: int)
    requires CreateMessage(db, form).result.Ok?
    ensures var m := CreateMessage(db, form).result.value;
            GetMessagesByUser(CreateMessage(db, form).db, accountId)
              == GetMessagesByUser(db, accountId) + (if m.postedBy == accountId then [m] else [])
  {
    MessageRepository.FindByPostedByAppend(db.messages.rows, CreateMessage(db, form).result.value, accountId);
  }
}

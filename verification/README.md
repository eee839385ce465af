# Social-media backend service layer, modelled in Dafny

This project models the service layer of a small social-media backend with two
resources, accounts and messages. `AccountService` registers accounts and
authenticates logins. `MessageService` creates, lists, fetches, edits and
deletes messages. `MessageRepository` adds the poster filter `findByPostedBy`
and the text-only bulk update `updateMessageText` to the generic store.

Each service call is a pure function over an immutable store. A call that can
fail returns a `Reply`, which pairs a `Result` (a value, or one error tag per
exception class) with the store afterwards. A read-only call returns its value
alone, so it cannot change the store.

Modules, leaf first:

- `Entities` (`entities.dfy`): the `Account` and `Message` rows, the submitted
  forms, `Option` for Java nulls, the error tags and `Result`.
- `JavaText` (`java_text.dfy`): `String.trim`, which strips code points up to
  U+0020 from both ends, and `String.isBlank`, which accepts text made only of
  `Character.isWhitespace` code points. Message text goes through
  trim-then-isBlank and usernames with isBlank alone. The two tests differ, and
  a lemma shows it.
- `AccountRepository`, `MessageRepository`: each table is a sequence of rows in
  storage order plus an auto-increment counter. The lookups, `save` (the new row
  gets the counter as its id), `deleteById`, `findByPostedBy` and
  `updateMessageText` are functions over the rows. `updateMessageText` returns
  how many rows matched, as the repository's bulk text update does.
- `Store`: the two tables together, and the `Reply` type.
- `AccountService`, `MessageService`: the service methods, with the checks in
  the order the Java services run them.
- `Integrity`: the whole-store invariant, with a proof that every mutating call
  preserves it. The invariant says that keys are unique and below their
  counters, that usernames are unique, that every stored account passed the
  registration checks, and that every stored message passed the text checks and
  names a stored account as its poster.
- `Scenario`: a worked example. It registers "ann", posts "hi", edits it to
  "hi there", and reads it back.

A fresh store has both identity counters at 1, the usual start of an
auto-increment column. The counter is what makes every assigned id fresh.

## Model

| member | source | states |
|---|---|---|
| `JavaText.IsWhitespace` | src/main/java/com/example/service/MessageService.java:37 | `Character.isWhitespace`: TAB to CR, FS to US, and the Unicode space, line and paragraph separators; the no-break spaces U+00A0, U+2007 and U+202F are excluded, and nothing above U+3000 counts |
| `JavaText.Trim` | src/main/java/com/example/service/MessageService.java:37 | `String.trim`: the result is no longer than the input, and neither of its ends is a code point up to U+0020 |
| `JavaText.TrimStart` | src/main/java/com/example/service/MessageService.java:37 | the leading part `trim` drops is all code points up to U+0020, and what remains does not start with one |
| `JavaText.TrimEnd` | src/main/java/com/example/service/MessageService.java:37 | the trailing part `trim` drops is all code points up to U+0020, and what remains does not end with one |
| `JavaText.TrimIsInfix` | src/main/java/com/example/service/MessageService.java:37 | `trim` returns an infix of its input, only trimmable characters are cut off on either side, and neither end of the result is trimmable |
| `JavaText.TrimEmptyIff` | src/main/java/com/example/service/MessageService.java:37 | trimming gives the empty string exactly when every character is at most U+0020 |
| `JavaText.TrimIdempotent` | src/main/java/com/example/service/MessageService.java:37 | trimming twice is the same as trimming once |
| `JavaText.OnlyTrimmableIsBlankAfterTrim` | src/main/java/com/example/service/MessageService.java:37 | empty text, and text made only of code points up to U+0020 (control characters included), counts as blank message text |
| `JavaText.BlankAfterTrimIsInvisible` | src/main/java/com/example/service/MessageService.java:37 | text that counts as blank holds only trimmable or white-space characters, so one visible character makes text non-blank |
| `JavaText.VisibleIsNotBlankAfterTrim` | src/main/java/com/example/service/MessageService.java:37 | a character that is neither trimmable nor white space makes text non-blank |
| `JavaText.BlankIsBlankAfterTrim` | src/main/java/com/example/service/MessageService.java:37 | text that `isBlank` rejects without trimming is also rejected after trimming |
| `JavaText.UsernameAndTextBlanknessDiffer` | src/main/java/com/example/service/AccountService.java:43 | U+0001 on its own is an acceptable username (no trim before `isBlank`) but blank message text |
| `JavaText.IsBlank` | src/main/java/com/example/service/AccountService.java:43 | `String.isBlank`: the text is empty or made only of `Character.isWhitespace` code points |
| `AccountRepository.FindAccountByUsername` | src/main/java/com/example/service/AccountService.java:69 | the lookup is absent exactly when no stored account has the username, and otherwise returns a stored account with that username |
| `AccountRepository.FindAccountByAccountId` | src/main/java/com/example/service/MessageService.java:45 | the lookup is absent exactly when no stored account has the id, and otherwise returns a stored account with that id |
| `AccountRepository.Save` | src/main/java/com/example/service/AccountService.java:59 | save appends one row with the given credentials; on a valid table its id is unused, and the table stays valid when the username was free |
| `AccountRepository.AppendKeepsAccountId` | src/main/java/com/example/service/AccountService.java:59 | an insert keeps every account id already stored |
| `AccountRepository.FindStoredUsername` | src/main/java/com/example/service/AccountService.java:84-85 | when usernames are unique, a username lookup returns exactly the row that holds that username |
| `AccountRepository.FindUsernameAfterAppend` | src/main/java/com/example/service/AccountService.java:54-59 | after a free username is inserted, a lookup of it finds the new row, and every other lookup gives the same answer as before |
| `MessageRepository.ExistsById` | src/main/java/com/example/service/MessageService.java:123 | `existsById`: some stored message has the id |
| `MessageRepository.FindById` | src/main/java/com/example/service/MessageService.java:69 | `findById` is absent exactly when `existsById` is false, and otherwise returns a stored message with that id |
| `MessageRepository.FindByPostedBy` | src/main/java/com/example/repository/MessageRepository.java:13 | the result holds exactly the stored messages whose poster is the given id; it is empty exactly when no stored message has that poster |
| `MessageRepository.Save` | src/main/java/com/example/service/MessageService.java:50 | save appends one row carrying the given poster, text and timestamp; on a valid table its id is unused and the table stays valid |
| `MessageRepository.DeleteById` | src/main/java/com/example/service/MessageService.java:126 | after the delete the id is absent and every other message is still there; deleting an absent id changes nothing |
| `MessageRepository.DeleteKeepsUniqueIds` | src/main/java/com/example/service/MessageService.java:126 | deleting keeps message ids unique |
| `MessageRepository.SetTextWhereId` | src/main/java/com/example/repository/MessageRepository.java:17 | the SET part of the update: rows with the id get the new text and keep their id, poster and timestamp; all other rows are untouched |
| `MessageRepository.CountWhereId` | src/main/java/com/example/repository/MessageRepository.java:17-18 | the reported row count is 0 exactly when the id is absent, and at most 1 when ids are unique |
| `MessageRepository.UpdateMessageText` | src/main/java/com/example/repository/MessageRepository.java:15-18 | rows with the id get the new text and keep their id, poster and timestamp; all other rows are untouched; the count is 0 exactly when the id is absent, and at most 1 when ids are unique |
| `MessageRepository.UpdateKeepsTableValid` | src/main/java/com/example/repository/MessageRepository.java:17 | the text-only update keeps the table valid, because no id changes |
| `MessageRepository.FindStoredId` | src/main/java/com/example/repository/MessageRepository.java:12 | when ids are unique, a lookup by a stored id returns exactly that row |
| `MessageRepository.FindByPostedByAppend` | src/main/java/com/example/repository/MessageRepository.java:13 | after an insert, the new message's poster gets it at the end of their list, and no other poster's list changes |
| `MessageRepository.FindByIdAfterUpdate` | src/main/java/com/example/repository/MessageRepository.java:17 | when ids are unique, a fetch after the update gives the old message with only its text replaced |
| `AccountService.AccountExists` | src/main/java/com/example/service/AccountService.java:68-70 | true exactly when some stored account has the username |
| `AccountService.RegisterAccount` | src/main/java/com/example/service/AccountService.java:40-60 | succeeds exactly when the username is present and not blank, the password is present with at least 4 characters, and the username is free. A failed field check is a registration error even when the username is also taken. A taken username is a duplicate error. Any rejection leaves the store unchanged. Success appends one account with the submitted credentials under a fresh id and leaves the message table alone |
| `AccountService.Login` | src/main/java/com/example/service/AccountService.java:82-95 | every failure is a login error; success returns a stored account whose username and password equal the ones given (a null argument never matches) |
| `AccountService.LoginSucceedsIff` | src/main/java/com/example/service/AccountService.java:84-91 | when usernames are unique, login succeeds exactly when a stored account carries both the username and the password |
| `AccountService.FieldChecksPrecedeLookup` | src/main/java/com/example/service/AccountService.java:42-56 | a form that fails the username or password check gets a registration error whatever the store holds, so those checks come before the duplicate lookup |
| `AccountService.RegisterTwice` | src/main/java/com/example/service/AccountService.java:54-56 | once a username is registered, registering it again with a valid password fails as a duplicate and leaves the store unchanged |
| `AccountService.RegisterThenLogin` | src/main/java/com/example/service/AccountService.java:59-94 | after a successful registration, login with the same credentials returns the account that registration returned |
| `MessageService.CheckText` | src/main/java/com/example/service/MessageService.java:37-42 | text passes exactly when it is present, not blank after trimming, and at most 255 characters long before trimming; null or blank text is a blank-text error, whatever its length; present, non-blank text over 255 characters is a too-long error |
| `MessageService.VisibleTextChecked` | src/main/java/com/example/service/MessageService.java:37-42 | text with a visible character passes when it has at most 255 characters and is otherwise too long, however much trimming would remove |
| `MessageService.LengthBoundary` | src/main/java/com/example/service/MessageService.java:40-42 | 255 letters pass and 256 fail as too long; 255 letters followed by a space also fail, although trimming gives back exactly the 255 letters |
| `MessageService.CreateMessage` | src/main/java/com/example/service/MessageService.java:32-51 | succeeds exactly when the text passes and the poster is a stored account. A text failure is reported before the poster is looked up. Any rejection leaves the store unchanged. Success appends one message with the submitted poster, text and timestamp under a fresh id and leaves the account table alone |
| `MessageService.GetMessageById` | src/main/java/com/example/service/MessageService.java:68-70 | absent, not an error, exactly when no stored message has the id; otherwise a stored message with that id |
| `MessageService.GetMessagesByUser` | src/main/java/com/example/service/MessageService.java:78-80 | exactly the stored messages with that poster, with no account-existence check; empty exactly when no stored message has that poster |
| `MessageService.AllMessagesFetchable` | src/main/java/com/example/service/MessageService.java:58-60 | when ids are unique, every message in the full listing can be fetched by its own id and comes back unchanged |
| `MessageService.UpdateMessage` | src/main/java/com/example/service/MessageService.java:92-114 | invalid text gives the blank-text or too-long error before the store is touched, even for a missing id. Valid text for a missing id gives a not-found error. Any rejection leaves the store unchanged. Success replaces the text of the rows with that id, keeps their other fields, leaves every other row and the account table alone, and returns the matched count, which is 1 when ids are unique |
| `MessageService.UpdateThenGet` | src/main/java/com/example/service/MessageService.java:105-113 | when ids are unique, fetching the message after a successful update gives the new text with the old poster and timestamp |
| `MessageService.DeleteMessage` | src/main/java/com/example/service/MessageService.java:122-128 | returns true exactly when the id exists. On false the store is unchanged. Afterwards the id is absent and every other message remains |
| `MessageService.DeleteThenGetAndDeleteAgain` | src/main/java/com/example/service/MessageService.java:122-128 | after a delete, fetching the id gives absent, and a second delete returns false and changes nothing |
| `MessageService.CreateThenListByUser` | src/main/java/com/example/service/MessageService.java:50 | a created message appears at the end of its poster's list, and every other poster's list is unchanged |
| `Integrity.RegisterPreservesConsistency` | src/main/java/com/example/service/AccountService.java:40-60 | registration keeps the whole-store invariant |
| `Integrity.CreatePreservesConsistency` | src/main/java/com/example/service/MessageService.java:32-51 | message creation keeps the whole-store invariant |
| `Integrity.UpdatePreservesConsistency` | src/main/java/com/example/service/MessageService.java:92-114 | a text update keeps the whole-store invariant: ids and posters are untouched, and the new text passed the same checks |
| `Integrity.DeletePreservesConsistency` | src/main/java/com/example/service/MessageService.java:122-128 | deletion keeps the whole-store invariant |
| `Integrity.UnknownAccountHasNoMessages` | src/main/java/com/example/service/MessageService.java:78-80 | in a consistent store, listing by an id that is not an account returns the empty list, not an error |
| `Integrity.LoginNeedsRegisteredShape` | src/main/java/com/example/service/AccountService.java:82-95 | in a consistent store, a successful login's username and password both pass the registration checks |
| `Scenario.RegisterStep` | src/main/java/com/example/service/AccountService.java:40-60 | registering ann/secret on a fresh store returns account 1 and leaves exactly that row |
| `Scenario.PostStep` | src/main/java/com/example/service/MessageService.java:32-51 | posting "hi" at time 1000 as account 1 returns message 1 with those fields |
| `Scenario.EditStep` | src/main/java/com/example/service/MessageService.java:92-114 | editing message 1 to "hi there" returns 1 and changes only that message's text |
| `Scenario.ReadStep` | src/main/java/com/example/service/MessageService.java:68-70 | message 1 then reads back as "hi there" with poster 1 and time 1000 |
| `Scenario.RegisterPostEditRead` | src/main/java/com/example/service/MessageService.java:32-114 | on a fresh store: registering ann/secret gives account 1; posting "hi" as account 1 gives message 1; editing it to "hi there" returns 1; fetching message 1 then shows the new text with the old poster and timestamp; and ann can still log in |

## Left out

- HTTP routing, response building and the exception-to-status mapping in the controller and the global exception handler. They are transport, and the only logic there is turning the delete result into a body of `1` or an empty body.
- JPA and Spring wiring, `@Transactional`, and the check-then-insert race between concurrent registrations of the same username. The model is sequential, and it treats unique usernames and unique ids as constraints the store keeps.
- How the store generates ids. The model uses an auto-increment counter starting at 1. The real sequence may start elsewhere or have gaps.
- The upsert `save` performs when the caller supplies an existing id. The forms carry no id, so every save is an insert.
- Java's 32-bit `Integer`, and overflow of the id counter and of the row count. Ids, posters, timestamps and counts are unbounded integers.
- Length in UTF-16 code units. Java's `length()` counts a supplementary-plane character as 2. The model counts code points, so for text containing such characters the 255 limit is reached later than in Java.
- `AccountService.PasswordAccepted`: counts code points, not UTF-16 units, for the same reason. A password of two supplementary-plane characters has Java length 4 and is accepted by `registerAccount`, but the model counts 2 and rejects it.
- `AccountRepository.FindAccountByUsername`: does not model a null username argument. `registerAccount` rejects a null username before the lookup, but `login` passes its username argument to the lookup unchecked.
- `AccountService.Login`: assumes the username lookup returns nothing for a null username. The Java passes null straight to `findAccountByUsername`, whose behaviour is not part of this model; a derived query binds null as `IS NULL`, which matches no stored account because registration rejects null usernames. The model therefore turns a null username into a login error before the lookup.
- `MessageService.CreateMessage`: assumes the account lookup returns nothing for a null poster id, and so turns a null `postedBy` into a user-not-found error. The Java passes null straight to `findAccountByAccountId`, whose declaration is not part of this model. With an `Integer` parameter a derived query finds no account; with a primitive `int` parameter the call would throw on unboxing, which the model does not reproduce.
- `MessageService.GetAllMessages` carries no contract of its own: it returns the table's rows in storage order. Its properties are stated by `AllMessagesFetchable` and by the contracts of `GetMessageById` and `GetMessagesByUser`.
- The `deleteById` behaviour on an absent id (it throws or does nothing, depending on the Spring Data version). `deleteMessage` checks existence first, so it never reaches that case.
- The `Account` and `Message` entity classes and `AccountRepository` are not part of this model. They appear only as plain records and row tables with the lookups the services call.

## Notes on the code

- The length check accepts exactly 255 characters, although the message left in a comment beside it says text must be "under 255 characters". The model follows the code, and `MessageService.LengthBoundary` pins the boundary.
- The username check calls `isBlank` without trimming first, while the message-text check trims first. `JavaText.UsernameAndTextBlanknessDiffer` shows an input on which the two tests disagree.
- Only the account and login exceptions have explicit status mappings in the exception handler. The message exceptions fall through to its catch-all. The model stops at the error tag and assigns no status.

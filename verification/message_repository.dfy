/** The message store: a table of message rows with an auto-increment id
    counter. Besides the generic find-all, find-by-id, exists-by-id, save and
    delete-by-id, it declares `findByPostedBy` and the text-only bulk update
    `updateMessageText`, which reports how many rows it matched. */
module MessageRepository {
  import opened Entities

  /** The message table in storage order, and the id the next insert receives. */
  datatype MessageTable = MessageTable(rows: seq<Message>, nextId: int)

  /** No two rows share a message id: the primary-key constraint. */
  ghost predicate UniqueIds(rows: seq<Message>) {
    forall i, j :: 0 <= i < j < |rows| ==> rows[i].messageId != rows[j].messageId
  }

  /** The keys are unique and all below the counter, so the counter is fresh. */
  ghost predicate Valid(t: MessageTable) {
    && UniqueIds(t.rows)
    && forall i :: 0 <= i < |t.rows| ==> t.rows[i].messageId < t.nextId
  }

  /** `existsById`. */
  predicate ExistsById(rows: seq<Message>, messageId: int) {
    exists i :: 0 <= i < |rows| && rows[i].messageId == messageId
  }

  /** `findById`: the stored message with that id, if any. */
  function FindById(rows: seq<Message>, messageId: int): (r: Option<Message>)
    ensures r.None? <==> !ExistsById(rows, messageId)
    ensures r.Some? ==> r.value in rows && r.value.messageId == messageId
  {
    if rows == [] then None
    else if rows[0].messageId == messageId then Some(rows[0])
    else FindById(rows[1..], messageId)
  }

  /** `findByPostedBy`: the rows whose poster is `postedBy`, in storage order. */
  function FindByPostedBy(rows: seq<Message>, postedBy: int): (r: seq<Message>)
    ensures forall m :: m in r <==> m in rows && m.postedBy == postedBy
    ensures r == [] <==> forall i :: 0 <= i < |rows| ==> rows[i].postedBy != postedBy
    ensures |r| <= |rows|
  {
    if rows == [] then []
    else if rows[0].postedBy == postedBy then [rows[0]] + FindByPostedBy(rows[1..], postedBy)
    else FindByPostedBy(rows[1..], postedBy)
  }

  /** `save` of a new message: the row gets the counter as its id and is appended. */
  function Save(t: MessageTable, postedBy: int, messageText: string, timePostedEpoch: int): (r: (Message, MessageTable))
    ensures r.0.postedBy == postedBy && r.0.messageText == messageText && r.0.timePostedEpoch == timePostedEpoch
    ensures r.1.rows == t.rows + [r.0] && r.1.nextId > t.nextId
    ensures Valid(t) ==> !ExistsById(t.rows, r.0.messageId) && Valid(r.1)
  {
    var message := Message(t.nextId, postedBy, messageText, timePostedEpoch);
    (message, MessageTable(t.rows + [message], t.nextId + 1))
  }

  /** `deleteById`: the rows with that id are gone and every other row stays. */
  function DeleteById(rows: seq<Message>, messageId: int): (r: seq<Message>)
    ensures !ExistsById(r, messageId)
    ensures forall m :: m in r <==> m in rows && m.messageId != messageId
    ensures !ExistsById(rows, messageId) ==> r == rows
  {
    if rows == [] then []
    else if rows[0].messageId == messageId then DeleteById(rows[1..], messageId)
    else [rows[0]] + DeleteById(rows[1..], messageId)
  }

  /** The SET part of `updateMessageText`: every row whose id matches gets
      the new text and keeps its id, poster and timestamp; every other row is
      untouched. */
  function SetTextWhereId(rows: seq<Message>, messageId: int, newText: string): (r: seq<Message>)
    ensures |r| == |rows|
    ensures forall i :: 0 <= i < |rows| && rows[i].messageId == messageId ==>
              r[i] == Message(messageId, rows[i].postedBy, newText, rows[i].timePostedEpoch)
    ensures forall i :: 0 <= i < |rows| && rows[i].messageId != messageId ==> r[i] == rows[i]
  {
    if rows == [] then []
    else
      var rest := SetTextWhereId(rows[1..], messageId, newText);
      var first := if rows[0].messageId == messageId then rows[0].(messageText := newText) else rows[0];
      assert forall i :: 1 <= i < |rows| ==> ([first] + rest)[i] == rest[i - 1] && rows[1..][i - 1] == rows[i];
      [first] + rest
  }

  /** The row count `updateMessageText` reports: the number of rows its WHERE
      clause matches, which is 0 exactly when the id is absent and at most 1
      under the primary-key constraint. */
  function CountWhereId(rows: seq<Message>, messageId: int): (r: nat)
    ensures r == 0 <==> !ExistsById(rows, messageId)
    ensures UniqueIds(rows) ==> r <= 1
  {
    if rows == [] then 0
    else
      var rest := CountWhereId(rows[1..], messageId);
      if rows[0].messageId == messageId then rest + 1 else rest
  }

  /** Deleting keeps the primary-key constraint: the remaining rows are
      distinct rows of the old table. */
  lemma {:induction false} DeleteKeepsUniqueIds(rows: seq<Message>, messageId: int)
    requires UniqueIds(rows)
    ensures UniqueIds(DeleteById(rows, messageId))
  {
    if rows != [] {
      var tail := rows[1..];
      DeleteKeepsUniqueIds(tail, messageId);
      var rest := DeleteById(tail, messageId);
      if rows[0].messageId != messageId {
        forall j | 0 <= j < |rest|
          ensures rest[j].messageId != rows[0].messageId
        {
          assert rest[j] in tail;
          var k :| 0 <= k < |tail| && tail[k] == rest[j];
          assert tail[k] == rows[k + 1];
        }
      }
    }
  }

  /** `updateMessageText`: the bulk update that sets the text of every row
      whose id matches, returning the table afterwards and the number of rows
      it matched. */
  function UpdateMessageText(rows: seq<Message>, messageId: int, newText: string): (r: (seq<Message>, nat))
    ensures |r.0| == |rows|
    ensures forall i :: 0 <= i < |rows| && rows[i].messageId == messageId ==>
              r.0[i] == Message(messageId, rows[i].postedBy, newText, rows[i].timePostedEpoch)
    ensures forall i :: 0 <= i < |rows| && rows[i].messageId != messageId ==> r.0[i] == rows[i]
    ensures r.1 == 0 <==> !ExistsById(rows, messageId)
    ensures UniqueIds(rows) ==> r.1 <= 1
  {
    (SetTextWhereId(rows, messageId, newText), CountWhereId(rows, messageId))
  }

  /** The text-only update keeps every row's id, so a valid table stays valid. */
  lemma UpdateKeepsTableValid(t: MessageTable, messageId: int, newText: string)
    requires Valid(t)
    ensures Valid(t.(rows := UpdateMessageText(t.rows, messageId, newText).0))
  {
    var rows' := UpdateMessageText(t.rows, messageId, newText).0;
    assert forall i :: 0 <= i < |rows'| ==> rows'[i].messageId == t.rows[i].messageId;
  }

  /** Under the primary-key constraint, looking up a stored id finds exactly that row. */
  lemma {:induction false} FindStoredId(rows: seq<Message>, i: int)
    requires UniqueIds(rows)
    requires 0 <= i < |rows|
    ensures FindById(rows, rows[i].messageId) == Some(rows[i])
  {
    if i > 0 {
      assert rows[0].messageId != rows[i].messageId;
      assert rows[1..][i - 1] == rows[i];
      FindStoredId(rows[1..], i - 1);
    }
  }

  /** The messages of one poster after an insert: the poster's list gains the
      new message at its end, and no other poster's list changes. */
  lemma {:induction false} FindByPostedByAppend(rows: seq<Message>, m: Message, postedBy: int)
    ensures FindByPostedBy(rows + [m], postedBy)
         == FindByPostedBy(rows, postedBy) + (if m.postedBy == postedBy then [m] else [])
  {
    if rows != [] {
      assert (rows + [m])[1..] == rows[1..] + [m];
      FindByPostedByAppend(rows[1..], m, postedBy);
    }
  }

  /** Under the primary-key constraint, the lookup after an update of a
      present id yields that message with the new text and nothing else changed. */
  lemma {:induction false} FindByIdAfterUpdate(rows: seq<Message>, messageId: int, newText: string)
    requires UniqueIds(rows)
    requires ExistsById(rows, messageId)
    ensures var before := FindById(rows, messageId).value;
            FindById(UpdateMessageText(rows, messageId, newText).0, messageId)
              == Some(Message(messageId, before.postedBy, newText, before.timePostedEpoch))
  {
    if rows[0].messageId != messageId {
      assert SetTextWhereId(rows, messageId, newText)[1..] == SetTextWhereId(rows[1..], messageId, newText);
      FindByIdAfterUpdate(rows[1..], messageId, newText);
    }
  }
}

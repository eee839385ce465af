/** The account store: a table of account rows with an auto-increment id
    counter, offering the lookups and the insert the account and message
    services call (find by username, find by account id, save). */
module AccountRepository {
  import opened Entities

  /** The account table in storage order, and the id the next insert receives. */
  datatype AccountTable = AccountTable(rows: seq<Account>, nextId: int)

  /** No two rows share an account id. */
  ghost predicate UniqueIds(rows: seq<Account>) {
    forall i, j :: 0 <= i < j < |rows| ==> rows[i].accountId != rows[j].accountId
  }

  /** No two rows share a username: the storage-level uniqueness constraint. */
  ghost predicate UniqueUsernames(rows: seq<Account>) {
    forall i, j :: 0 <= i < j < |rows| ==> rows[i].username != rows[j].username
  }

  /** The table's keys are unique and all below the counter, so the counter is fresh. */
  ghost predicate Valid(t: AccountTable) {
    && UniqueIds(t.rows)
    && UniqueUsernames(t.rows)
    && forall i :: 0 <= i < |t.rows| ==> t.rows[i].accountId < t.nextId
  }

  predicate HasUsername(rows: seq<Account>, username: string) {
    exists i :: 0 <= i < |rows| && rows[i].username == username
  }

  predicate HasAccountId(rows: seq<Account>, accountId: int) {
    exists i :: 0 <= i < |rows| && rows[i].accountId == accountId
  }

  /** `findAccountByUsername`: the stored account with that username, if any. */
  function FindAccountByUsername(rows: seq<Account>, username: string): (r: Option<Account>)
    ensures r.None? <==> !HasUsername(rows, username)
    ensures r.Some? ==> r.value in rows && r.value.username == username
  {
    if rows == [] then None
    else if rows[0].username == username then Some(rows[0])
    else FindAccountByUsername(rows[1..], username)
  }

  /** `findAccountByAccountId`: the stored account with that id, if any. */
  function FindAccountByAccountId(rows: seq<Account>, accountId: int): (r: Option<Account>)
    ensures r.None? <==> !HasAccountId(rows, accountId)
    ensures r.Some? ==> r.value in rows && r.value.accountId == accountId
  {
    if rows == [] then None
    else if rows[0].accountId == accountId then Some(rows[0])
    else FindAccountByAccountId(rows[1..], accountId)
  }

  /** `save` of a new account: the row gets the counter as its id and is appended. */
  function Save(t: AccountTable, username: string, password: string): (r: (Account, AccountTable))
    ensures r.0.username == username && r.0.password == password
    ensures r.1.rows == t.rows + [r.0] && r.1.nextId > t.nextId
    ensures Valid(t) ==> !HasAccountId(t.rows, r.0.accountId)
    ensures Valid(t) && !HasUsername(t.rows, username) ==> Valid(r.1)
  {
    var account := Account(t.nextId, username, password);
    (account, AccountTable(t.rows + [account], t.nextId + 1))
  }

  /** An insert keeps every account id already stored. */
  lemma AppendKeepsAccountId(rows: seq<Account>, a: Account, accountId: int)
    requires HasAccountId(rows, accountId)
    ensures HasAccountId(rows + [a], accountId)
  {
    var k :| 0 <= k < |rows| && rows[k].accountId == accountId;
    assert (rows + [a])[k] == rows[k];
  }

  /** With unique usernames, looking up a stored username finds exactly that row. */
  lemma {:induction false} FindStoredUsername(rows: seq<Account>, i: int)
    requires UniqueUsernames(rows)
    requires 0 <= i < |rows|
    ensures FindAccountByUsername(rows, rows[i].username) == Some(rows[i])
  {
    if i > 0 {
      assert rows[0].username != rows[i].username;
      assert rows[1..][i - 1] == rows[i];
      FindStoredUsername(rows[1..], i - 1);
    }
  }

  /** A username lookup after an insert: the new row is found under its own
      (previously unused) username, and every other lookup is as before. */
  lemma {:induction false} FindUsernameAfterAppend(rows: seq<Account>, a: Account, username: string)
    requires !HasUsername(rows, a.username)
    ensures FindAccountByUsername(rows + [a], username)
         == if username == a.username then Some(a) else FindAccountByUsername(rows, username)
  {
    if rows == [] {
    } else {
      assert (rows + [a])[1..] == rows[1..] + [a];
      if rows[0].username != username {
        FindUsernameAfterAppend(rows[1..], a, username);
      }
    }
  }
}

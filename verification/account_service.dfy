/** Account registration and login over the account table. Registration runs
    its checks in a fixed order (blank username, short password, taken
    username) and only then inserts; login looks the username up and compares
    the password exactly. Neither check touches the message table. */
module AccountService {
  import opened Entities
  import opened JavaText
  import AccountRepository
  import opened Store

  const MinPasswordLength := 4

  /** The first registration check: the username is present and not blank. */
  predicate UsernameAccepted(username: Option<string>) {
    username.Some? && !IsBlank(username.value)
  }

  /** The second registration check: the password is present and long enough. */
  predicate PasswordAccepted(password: Option<string>) {
    password.Some? && |password.value| >= MinPasswordLength
  }

  /** `accountExists`: some stored account has this username. */
  function AccountExists(db: Db, username: string): (r: bool)
    ensures r <==> exists i :: 0 <= i < |db.accounts.rows| && db.accounts.rows[i].username == username
  {
    AccountRepository.FindAccountByUsername(db.accounts.rows, username).Some?
  }

  /** `registerAccount`. It succeeds exactly when both field checks pass and
      the username is free; then it inserts one account carrying the submitted
      credentials under a fresh id and changes nothing else. A rejection leaves
      the store as it was, and a field-check failure is reported as a
      registration error even when the username is also taken. */
  function RegisterAccount(db: Db, form: AccountForm): (r: Reply<Account>)
    ensures r.result.Ok? <==>
              UsernameAccepted(form.username) && PasswordAccepted(form.password)
              && !AccountExists(db, form.username.value)
    ensures r.result.Err? ==> r.db == db
    ensures r.result.Err? ==>
              r.result.error
                == if UsernameAccepted(form.username) && PasswordAccepted(form.password)
                   then DuplicateUsername else RegistrationFailed
    ensures r.result.Ok? ==>
              && r.result.value.username == form.username.value
              && r.result.value.password == form.password.value
              && r.db.accounts.rows == db.accounts.rows + [r.result.value]
              && r.db.messages == db.messages
    ensures r.result.Ok? && AccountRepository.Valid(db.accounts) ==>
              && !AccountRepository.HasAccountId(db.accounts.rows, r.result.value.accountId)
              && AccountRepository.Valid(r.db.accounts)
  {
    if !UsernameAccepted(form.username) then Reply(Err(RegistrationFailed), db)
    else if !PasswordAccepted(form.password) then Reply(Err(RegistrationFailed), db)
    else if AccountExists(db, form.username.value) then Reply(Err(DuplicateUsername), db)
    else
      var (account, accounts) := AccountRepository.Save(db.accounts, form.username.value, form.password.value);
      Reply(Ok(account), db.(accounts := accounts))
  }

  /** `login`. It returns a stored account whose username and password are the
      ones given; every failure is a login error. A null username is taken to
      match no stored account (the lookup's answer for null is assumed, since
      stored usernames are never null), and a null password matches no stored
      password. */
  function Login(db: Db, username: Option<string>, password: Option<string>): (r: Result<Account>)
    ensures r.Err? ==> r.error == LoginFailed
    ensures r.Ok? ==>
              && r.value in db.accounts.rows
              && username == Some(r.value.username)
              && password == Some(r.value.password)
  {
    if username.None? then Err(LoginFailed)
    else
      match AccountRepository.FindAccountByUsername(db.accounts.rows, username.value)
      case None => Err(LoginFailed)
      case Some(account) =>
        if Some(account.password) != password then Err(LoginFailed) else Ok(account)
  }

  /** Login succeeds exactly when a stored account carries both credentials,
      given the storage-level uniqueness of usernames. */
  lemma LoginSucceedsIff(db: Db, username: string, password: string)
    requires AccountRepository.UniqueUsernames(db.accounts.rows)
    ensures Login(db, Some(username), Some(password)).Ok? <==>
              exists i :: 0 <= i < |db.accounts.rows|
                && db.accounts.rows[i].username == username
                && db.accounts.rows[i].password == password
  {
    var rows := db.accounts.rows;
    if i :| 0 <= i < |rows| && rows[i].username == username && rows[i].password == password {
      AccountRepository.FindStoredUsername(rows, i);
    }
  }

  /** The field checks come before any store lookup: a form that fails them
      gets the same registration error whatever the store holds, including a
      store where the username is already taken. */
  lemma FieldChecksPrecedeLookup(db1: Db, db2: Db, form: AccountForm)
    requires !UsernameAccepted(form.username) || !PasswordAccepted(form.password)
    ensures RegisterAccount(db1, form) == Reply(Err(RegistrationFailed), db1)
    ensures RegisterAccount(db2, form).result == RegisterAccount(db1, form).result
  {
  }

  /** Registering one username twice: the first call succeeds on a store
      without it, and the second is refused as a duplicate. */
  lemma RegisterTwice(db: Db, form: AccountForm, again: AccountForm)
    requires RegisterAccount(db, form).result.Ok?
    requires again.username == form.username && PasswordAccepted(again.password)
    ensures RegisterAccount(RegisterAccount(db, form).db, again) == Reply(Err(DuplicateUsername), RegisterAccount(db, form).db)
  {
    var db' := RegisterAccount(db, form).db;
    var a := RegisterAccount(db, form).result.value;
    assert db'.accounts.rows[|db'.accounts.rows| - 1] == a;
  }

  /** A registered account can log in straight away with the credentials it
      registered, and gets back the account registration returned. */
  lemma {:induction false} RegisterThenLogin(db: Db, form: AccountForm)
    requires AccountRepository.Valid(db.accounts)
    requires RegisterAccount(db, form).result.Ok?
    ensures Login(RegisterAccount(db, form).db, form.username, form.password)
              == RegisterAccount(db, form).result
  {
    var a := RegisterAccount(db, form).result.value;
    AccountRepository.FindUsernameAfterAppend(db.accounts.rows, a, a.username);
  }
}

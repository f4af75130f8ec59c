/**
 * Registration and login. Registration validates the candidate, refuses a
 * username that is already stored, and otherwise inserts through the DAO;
 * login compares the stored password as plain text.
 */
module AccountServices {
  import opened Model
  import opened JavaString
  import opened AccountStore

  /** What registration accepts: a non-null, non-blank username and a
      non-null password of at least four characters (UTF-16 code units). */
  predicate AcceptableRegistration(form: AccountForm) {
    && form.username.Some? && !IsBlank(form.username.value)
    && form.password.Some? && Utf16Length(form.password.value) >= 4
  }

  /** Some stored account already has this username. */
  ghost predicate UsernameTaken(rows: map<int, Account>, username: string) {
    exists id :: id in rows && rows[id].username == username
  }

  /** The table invariant registration keeps: every username is non-blank and
      unique, and every password has at least four characters. */
  ghost predicate AccountsWellFormed(rows: map<int, Account>) {
    && (forall id :: id in rows ==> !IsBlank(rows[id].username) && Utf16Length(rows[id].password) >= 4)
    && UsernamesUnique(rows)
  }

  /** No two stored accounts share a username. */
  ghost predicate UsernamesUnique(rows: map<int, Account>) {
    forall i, j :: i in rows && j in rows && rows[i].username == rows[j].username ==> i == j
  }

  class AccountService {
    const accounts: AccountDAO

    constructor (accounts: AccountDAO)
      ensures this.accounts == accounts
    {
      this.accounts := accounts;
    }

    /** Register an account. A rejected candidate, invalid or with a taken
        username, yields null and leaves the table as it was; an accepted one is
        inserted with its own username and password and the next id. */
    method CreateAccount(form: AccountForm) returns (r: Option<Account>)
      requires accounts.Valid()
      modifies accounts
      ensures accounts.Valid()
      ensures !AcceptableRegistration(form) ==> r.None? && unchanged(accounts)
      ensures AcceptableRegistration(form) && UsernameTaken(old(accounts.rows), form.username.value) ==>
                r.None? && unchanged(accounts)
      ensures AcceptableRegistration(form) && !UsernameTaken(old(accounts.rows), form.username.value) ==>
                && r == Some(Account(old(accounts.nextId), form.username.value, form.password.value))
                && old(accounts.nextId) !in old(accounts.rows)
                && accounts.rows == old(accounts.rows)[r.value.accountId := r.value]
      ensures AccountsWellFormed(old(accounts.rows)) ==> AccountsWellFormed(accounts.rows)
      ensures UsernamesUnique(old(accounts.rows)) && r.Some? ==> VerifyLogin(form.username, form.password) == r
    {
      if form.username.None? || IsBlank(form.username.value)
         || form.password.None? || Utf16Length(form.password.value) < 4
      {
        return None;
      }
      if accounts.GetAccountByUsername(form.username).Some? {
        return None;
      }
      var created := accounts.CreateAccount(form.username.value, form.password.value);
      r := Some(created);
    }

    /** `login`: the same check as `VerifyLogin`, reached through this
        service's own username lookup. */
    function Login(username: Option<string>, password: Option<string>): (r: Option<Account>)
      reads accounts
      requires accounts.Valid()
      ensures r == VerifyLogin(username, password)
    {
      var account := GetAccountByUsername(username);
      if account.Some? && password == Some(account.value.password) then account else None
    }

    /** Look the username up, and return that account only if its stored
        password equals the given one exactly. An unknown username and a wrong
        password give the same null. */
    function VerifyLogin(username: Option<string>, password: Option<string>): (r: Option<Account>)
      reads accounts
      requires accounts.Valid()
      ensures r.Some? ==> r.value in accounts.rows.Values
                          && username == Some(r.value.username) && password == Some(r.value.password)
      ensures UsernamesUnique(accounts.rows) ==>
                (r.Some? <==> exists id :: id in accounts.rows && username == Some(accounts.rows[id].username)
                                                               && password == Some(accounts.rows[id].password))
    {
      var account := accounts.GetAccountByUsername(username);
      if account.Some? && password == Some(account.value.password) then account else None
    }

    /** Delegates to the store: whether an account has this id. */
    function IsAccountExist(accountId: int): (present: bool)
      reads accounts
      requires accounts.Valid()
      ensures present <==> exists id :: id in accounts.rows && accounts.rows[id].accountId == accountId
    {
      accounts.IsAccountExist(accountId)
    }

    /** Delegates to the store: a stored account with this username, or null
        when there is none. */
    function GetAccountByUsername(username: Option<string>): (r: Option<Account>)
      reads accounts
      requires accounts.Valid()
      ensures r.Some? ==> r.value in accounts.rows.Values && username == Some(r.value.username)
      ensures r.None? <==> forall id :: id in accounts.rows ==> username != Some(accounts.rows[id].username)
    {
      accounts.GetAccountByUsername(username)
    }

    /** Delegates to the store: the account with this id, present exactly when
        `IsAccountExist` holds. */
    function GetAccountById(accountId: int): (r: Option<Account>)
      reads accounts
      requires accounts.Valid()
      ensures r.Some? <==> IsAccountExist(accountId)
      ensures r.Some? ==> r.value in accounts.rows.Values && r.value.accountId == accountId
    {
      accounts.GetAccountById(accountId)
    }
  }

  /** With usernames unique, the service's two-step check (find by username,
      then compare passwords) gives the same answer as the store's one-query
      `login` on both columns. */
  lemma VerifyLoginMatchesStoreLogin(service: AccountService, username: Option<string>, password: Option<string>)
    requires service.accounts.Valid() && UsernamesUnique(service.accounts.rows)
    ensures service.VerifyLogin(username, password) == service.accounts.Login(username, password)
  {
  }
}

/**
 * The account table and its data-access object. Each query of the DAO is a
 * read of the table; registration is the only write. The store's
 * auto-increment column is the counter `nextId`.
 */
module AccountStore {
  import opened Model

  /** The SQL condition `column = ?`: a `null` parameter matches no row. */
  predicate ColumnEquals(column: string, param: Option<string>) {
    param.Some? && param.value == column
  }

  /** The WHERE clauses of the two queries that search by value. */
  datatype Where =
    | UsernameIs(username: Option<string>)
    | CredentialsAre(username: Option<string>, password: Option<string>)

  predicate Selects(w: Where, a: Account) {
    match w
    case UsernameIs(u) => ColumnEquals(a.username, u)
    case CredentialsAre(u, p) => ColumnEquals(a.username, u) && ColumnEquals(a.password, p)
  }

  /** Every row is stored under its own `account_id`. */
  ghost predicate KeyedById(rows: map<int, Account>) {
    forall id :: id in rows ==> rows[id].accountId == id
  }

  /** The first row, in ascending id order from `lo` up to (excluding) `hi`,
      that the clause selects; this is the row `if (rs.next())` reads. */
  function FirstRow(rows: map<int, Account>, w: Where, lo: int, hi: int): (r: Option<Account>)
    requires KeyedById(rows)
    decreases hi - lo
    ensures r.Some? ==> lo <= r.value.accountId < hi && r.value.accountId in rows
                        && rows[r.value.accountId] == r.value && Selects(w, r.value)
    ensures r.Some? ==> forall id :: lo <= id < r.value.accountId && id in rows ==> !Selects(w, rows[id])
    ensures r.None? ==> forall id :: lo <= id < hi && id in rows ==> !Selects(w, rows[id])
  {
    if hi <= lo then None
    else if lo in rows && Selects(w, rows[lo]) then Some(rows[lo])
    else FirstRow(rows, w, lo + 1, hi)
  }

  class AccountDAO {
    var rows: map<int, Account>
    var nextId: int

    /** Ids are positive, below the next id to hand out, and each row carries its key. */
    ghost predicate Valid()
      reads this
    {
      1 <= nextId && KeyedById(rows) && forall id :: id in rows ==> 1 <= id < nextId
    }

    constructor ()
      ensures Valid() && rows == map[] && nextId == 1
    {
      rows := map[];
      nextId := 1;
    }

    /** `SELECT * FROM account WHERE username = ?`, first row or null. */
    function GetAccountByUsername(username: Option<string>): (r: Option<Account>)
      reads this
      requires Valid()
      ensures r.Some? ==> r.value.accountId in rows && rows[r.value.accountId] == r.value
                          && username == Some(r.value.username)
      ensures r.None? <==> forall id :: id in rows ==> username != Some(rows[id].username)
    {
      FirstRow(rows, UsernameIs(username), 1, nextId)
    }

    /** `INSERT INTO account (username, password)`: the new row gets the next
        generated key and nothing else in the table changes. */
    method CreateAccount(username: string, password: string) returns (created: Account)
      requires Valid()
      modifies this
      ensures Valid()
      ensures created == Account(old(nextId), username, password)
      ensures created.accountId !in old(rows)
      ensures rows == old(rows)[created.accountId := created]
      ensures nextId > old(nextId)
      ensures GetAccountById(created.accountId) == Some(created)
    {
      var generatedId := nextId;
      rows := rows[generatedId := Account(generatedId, username, password)];
      nextId := nextId + 1;
      created := Account(generatedId, username, password);
    }

    /** `SELECT * FROM account WHERE username = ? AND password = ?`, first row or null. */
    function Login(username: Option<string>, password: Option<string>): (r: Option<Account>)
      reads this
      requires Valid()
      ensures r.Some? ==> r.value.accountId in rows && rows[r.value.accountId] == r.value
                          && username == Some(r.value.username) && password == Some(r.value.password)
      ensures r.None? <==> forall id :: id in rows ==>
                username != Some(rows[id].username) || password != Some(rows[id].password)
    {
      FirstRow(rows, CredentialsAre(username, password), 1, nextId)
    }

    /** `SELECT * FROM account WHERE account_id = ?` has a row. */
    function IsAccountExist(accountId: int): (present: bool)
      reads this
      requires Valid()
      ensures present <==> exists id :: id in rows && rows[id].accountId == accountId
    {
      accountId in rows
    }

    /** `SELECT * FROM account WHERE account_id = ?`, the row or null. */
    function GetAccountById(accountId: int): (r: Option<Account>)
      reads this
      requires Valid()
      ensures r.Some? <==> IsAccountExist(accountId)
      ensures r.Some? ==> r.value in rows.Values && r.value.accountId == accountId
    {
      if accountId in rows then Some(rows[accountId]) else None
    }
  }
}

/**
 * The database tables the backend reads and writes (account, password_reset,
 * api_key, event_log), as sequences in insertion order, with the queries the
 * backend issues and the writes it performs. A query that returns a single row
 * is taken to return the first matching row in table order: an assumption, since
 * without ORDER BY the database promises no order. A write may fail, in which
 * case the table is unchanged.
 */
module Store {
  import opened Options
  import opened Bcrypt

  datatype Account = Account(id: int, name: string, role: string, email: string, tenant: string, password: Digest)

  /** A row of password_reset; the nullable columns are options. */
  datatype ResetRow = ResetRow(id: Option<int>, accountId: int, token: Option<Digest>, created: Option<int>, expires: Option<int>)

  /** A row of api_key: the cloud credentials of one tenant. */
  datatype ApiKey = ApiKey(tenant: string, zone: string, key: string, secret: string)

  /** The kinds of internal/db/events.go. */
  datatype EventKind =
    | AccountCreated | AccountDeleted
    | LoginSuccess | LoginFailure
    | InstanceStart | InstanceStop
    | PasswordRequested | PasswordReset

  /** An event_log row; an event without annotation has an empty key and value. */
  datatype Event = Event(accountId: int, kind: EventKind, infoKey: string, infoVal: string)

  /** The position of the first row satisfying `p`, or -1. */
  function FirstIndex<T>(rows: seq<T>, p: T -> bool): (i: int)
    ensures -1 <= i < |rows|
    ensures i == -1 <==> forall k :: 0 <= k < |rows| ==> !p(rows[k])
    ensures 0 <= i ==> p(rows[i]) && forall k :: 0 <= k < i ==> !p(rows[k])
  {
    if rows == [] then -1
    else if p(rows[0]) then 0
    else
      var i := FirstIndex(rows[1..], p);
      if i == -1 then -1 else i + 1
  }

  /** `QueryRow(...).Scan(...)` for the rows satisfying `p`: the first of them, or no row. */
  function First<T>(rows: seq<T>, p: T -> bool): (r: Option<T>)
    ensures r.None? <==> forall x :: x in rows ==> !p(x)
    ensures r.Some? ==> r.value in rows && p(r.value)
  {
    var i := FirstIndex(rows, p);
    if i == -1 then None else Some(rows[i])
  }

  /** `select ... from account where name = $1`. */
  function AccountByName(accounts: seq<Account>, name: string): (r: Option<Account>)
    ensures r.None? <==> forall a :: a in accounts ==> a.name != name
    ensures r.Some? ==> r.value in accounts && r.value.name == name
  {
    First(accounts, (a: Account) => a.name == name)
  }

  /** `select ... from account where email = $1`. */
  function AccountByEmail(accounts: seq<Account>, email: string): (r: Option<Account>)
    ensures r.None? <==> forall a :: a in accounts ==> a.email != email
    ensures r.Some? ==> r.value in accounts && r.value.email == email
  {
    First(accounts, (a: Account) => a.email == email)
  }

  /** Some account named `name` belongs to `tenant`. */
  predicate HasTenant(accounts: seq<Account>, name: string, tenant: string) {
    exists a :: a in accounts && a.name == name && a.tenant == tenant
  }

  /** `select zone, api_key, api_secret from api_key inner join account on api_key.tenant = account.tenant where account.name = $1 limit 1`. */
  function ApiKeyFor(accounts: seq<Account>, keys: seq<ApiKey>, name: string): (r: Option<ApiKey>)
    ensures r.None? <==> forall k :: k in keys ==> !HasTenant(accounts, name, k.tenant)
    ensures r.Some? ==> r.value in keys && HasTenant(accounts, name, r.value.tenant)
  {
    First(keys, (k: ApiKey) => HasTenant(accounts, name, k.tenant))
  }

  /** `select id, token, expires from password_reset where account_id = $1`. */
  function FirstResetRow(resets: seq<ResetRow>, accountId: int): (r: Option<ResetRow>)
    ensures r.None? <==> forall x :: x in resets ==> x.accountId != accountId
    ensures r.Some? ==> r.value in resets && r.value.accountId == accountId
  {
    First(resets, (x: ResetRow) => x.accountId == accountId)
  }

  /** `select max(created) from password_reset where account_id = $1`: NULL when no row of the account has a creation time. */
  function MaxCreated(resets: seq<ResetRow>, accountId: int): (m: Option<int>)
    ensures m.None? <==> forall x :: x in resets && x.accountId == accountId ==> x.created.None?
    ensures m.Some? ==> forall x :: x in resets && x.accountId == accountId && x.created.Some? ==> x.created.value <= m.value
    ensures m.Some? ==> exists x :: x in resets && x.accountId == accountId && x.created == m
  {
    if resets == [] then None
    else
      var last := resets[|resets| - 1];
      var rest := MaxCreated(resets[..|resets| - 1], accountId);
      assert resets == resets[..|resets| - 1] + [last];
      if last.accountId != accountId || last.created.None? then rest
      else if rest.Some? && rest.value >= last.created.value then rest
      else last.created
  }

  /** `update account set password = $1 where id = $2`. */
  function WithPassword(accounts: seq<Account>, id: int, password: Digest): (r: seq<Account>)
    ensures |r| == |accounts|
    ensures forall k :: 0 <= k < |r| ==>
      r[k] == if accounts[k].id == id then accounts[k].(password := password) else accounts[k]
  {
    seq(|accounts|, k requires 0 <= k < |accounts| =>
      if accounts[k].id == id then accounts[k].(password := password) else accounts[k])
  }

  /** `delete from password_reset where account_id = $1`: the other rows, in their order. */
  function WithoutResets(resets: seq<ResetRow>, accountId: int): (r: seq<ResetRow>)
    ensures forall x :: x in r <==> x in resets && x.accountId != accountId
    ensures |r| <= |resets|
  {
    if resets == [] then []
    else
      var rest := WithoutResets(resets[1..], accountId);
      assert resets == [resets[0]] + resets[1..];
      if resets[0].accountId == accountId then rest else [resets[0]] + rest
  }

  /** The id the `serial` column hands out next: above every id in the table. */
  function NextAccountId(accounts: seq<Account>): (id: int)
    ensures forall a :: a in accounts ==> a.id < id
  {
    if accounts == [] then 1
    else
      var rest := NextAccountId(accounts[1..]);
      assert accounts == [accounts[0]] + accounts[1..];
      if accounts[0].id < rest then rest else accounts[0].id + 1
  }

  class Database {
    var accounts: seq<Account>
    var resets: seq<ResetRow>
    var apiKeys: seq<ApiKey>
    var events: seq<Event>

    constructor (accounts: seq<Account>, resets: seq<ResetRow>, apiKeys: seq<ApiKey>)
      ensures this.accounts == accounts && this.resets == resets && this.apiKeys == apiKeys && events == []
    {
      this.accounts := accounts;
      this.resets := resets;
      this.apiKeys := apiKeys;
      events := [];
    }

    /**
     * `db.InsertAccount` as register-group calls it, returning the id of the new
     * row: a new row with a fresh serial id, or an error and no row. (The version
     * of internal/db/accounts.go modelled here returns only the error; the id is
     * what the caller expects of the insert.)
     */
    method InsertAccount(name: string, role: string, password: Digest, tenant: string, email: string)
      returns (id: Option<int>)
      modifies this
      ensures id.Some? ==> accounts == old(accounts) + [Account(id.value, name, role, email, tenant, password)]
      ensures id.Some? ==> forall a :: a in old(accounts) ==> a.id != id.value
      ensures id.None? ==> accounts == old(accounts)
      ensures resets == old(resets) && apiKeys == old(apiKeys) && events == old(events)
    {
      var ok: bool :| true;
      if ok {
        id := Some(NextAccountId(accounts));
        accounts := accounts + [Account(id.value, name, role, email, tenant, password)];
      } else {
        id := None;
      }
    }

    /**
     * `insert into password_reset (account_id, token) values ($1, $2)`. The id,
     * `created` and `expires` come from column defaults: `created` is the time of
     * the insert, the serial id and `expires` are whatever the store supplies.
     */
    method InsertResetRow(accountId: int, token: Digest, now: int) returns (ok: bool)
      modifies this
      ensures ok ==> |resets| == |old(resets)| + 1 && resets[..|old(resets)|] == old(resets)
      ensures ok ==> var row := resets[|resets| - 1];
        && row.accountId == accountId && row.token == Some(token)
        && row.created == Some(now) && row.id.Some? && row.expires.Some?
      ensures !ok ==> resets == old(resets)
      ensures accounts == old(accounts) && apiKeys == old(apiKeys) && events == old(events)
    {
      ok :| true;
      if ok {
        var id: int :| true;
        var expires: int :| true;
        resets := resets + [ResetRow(Some(id), accountId, Some(token), Some(now), Some(expires))];
      }
    }

    /** `update account set password = $1 where id = $2`. */
    method UpdatePassword(id: int, password: Digest) returns (ok: bool)
      modifies this
      ensures accounts == if ok then WithPassword(old(accounts), id, password) else old(accounts)
      ensures resets == old(resets) && apiKeys == old(apiKeys) && events == old(events)
    {
      ok :| true;
      if ok {
        accounts := WithPassword(accounts, id, password);
      }
    }

    /** `delete from password_reset where account_id = $1`. */
    method DeleteResets(accountId: int) returns (ok: bool)
      modifies this
      ensures resets == if ok then WithoutResets(old(resets), accountId) else old(resets)
      ensures accounts == old(accounts) && apiKeys == old(apiKeys) && events == old(events)
    {
      ok :| true;
      if ok {
        resets := WithoutResets(resets, accountId);
      }
    }

    /** `db.LogEvent`: one more entry in the event log. */
    method LogEvent(e: Event)
      modifies this
      ensures events == old(events) + [e]
      ensures accounts == old(accounts) && resets == old(resets) && apiKeys == old(apiKeys)
    {
      events := events + [e];
    }
  }
}

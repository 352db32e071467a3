/**
 * The request handlers of internal/endpoints/endpoints.go over the tables of
 * `Store`: login, the API-access lookup behind a bearer token, the `owner`-label
 * gate in front of the instance operations, and the password-reset request and
 * confirmation.
 *
 * A request body is an `Option`: `None` stands for a body that cannot be read or
 * decoded as JSON. The cloud provider reached with a tenant's credentials is a
 * `Provider`; the mail service is a `Postmark`.
 */
module Endpoints {
  import opened Options
  import opened Strings
  import opened Http
  import opened Bcrypt
  import opened Passwords
  import opened Tokens
  import opened Mailing
  import opened Cloud
  import opened Store

  datatype LoginRequest = LoginRequest(username: string, password: string)
  datatype ResetRequest = ResetRequest(email: string)
  datatype NewPasswordRequest = NewPasswordRequest(email: string, token: string, password: string)

  /** exoscale.APIAccess: the user it was looked up for and the tenant's credentials. */
  datatype ApiAccess = ApiAccess(username: string, zone: string, key: string, secret: string)

  /** The cooldown between two reset requests for one account: 5 minutes. */
  const Cooldown := 5 * 60
  /** The length of a reset token. */
  const ResetTokenLength := 64

  /** `Stateful.GetAPIAccess(username)`: the credentials of a tenant the user's account belongs to. */
  function GetAPIAccess(accounts: seq<Account>, keys: seq<ApiKey>, username: string): (r: Option<ApiAccess>)
    ensures r.None? <==> forall k :: k in keys ==> !HasTenant(accounts, username, k.tenant)
    ensures r.Some? ==> r.value.username == username
    ensures r.Some? ==>
      exists k :: k in keys && HasTenant(accounts, username, k.tenant)
        && k.zone == r.value.zone && k.key == r.value.key && k.secret == r.value.secret
  {
    match ApiKeyFor(accounts, keys, username)
    case None => None
    case Some(k) => Some(ApiAccess(username, k.zone, k.key, k.secret))
  }

  /**
   * The decision of `getAPIAccess`: the subject of the bearer token (the header is
   * not trimmed here) and the API access of that user; `None` is answered 401.
   */
  function Access(accounts: seq<Account>, keys: seq<ApiKey>, codec: Codec, authorization: string, now: int): (r: Option<ApiAccess>)
    ensures ExtractSubject(codec, authorization, now).err.Some? ==> r.None?
    ensures BearerMatch(authorization).None? ==> r.None?
    ensures r.Some? ==> r.value.username == ExtractSubject(codec, authorization, now).name
    ensures ExtractSubject(codec, authorization, now).err.None? ==>
      (r.Some? <==> exists k :: k in keys && HasTenant(accounts, ExtractSubject(codec, authorization, now).name, k.tenant))
  {
    var subject := ExtractSubject(codec, authorization, now);
    if subject.err.Some? then None else GetAPIAccess(accounts, keys, subject.name)
  }

  /** A header with leading white space never matches, since `getAPIAccess`, unlike `Authenticated`, does not trim it. */
  lemma UntrimmedHeaderRefused(accounts: seq<Account>, keys: seq<ApiKey>, codec: Codec, authorization: string, now: int)
    requires '\n' !in authorization && |authorization| > 0 && authorization[0] == ' '
    ensures Access(accounts, keys, codec, authorization, now).None?
  {
    assert Scheme[0] == 'B';
  }

  /**
   * Login then access: a token issued by `Login` opens the user's API access
   * until it expires, and nothing from then on.
   */
  lemma LoginThenAccess(accounts: seq<Account>, keys: seq<ApiKey>, codec: Codec, username: string, iat: int, now: int)
    requires Sound(codec)
    ensures Live(iat, now) ==>
      Access(accounts, keys, codec, Scheme + IssueToken(codec, username, iat), now) == GetAPIAccess(accounts, keys, username)
    ensures !Live(iat, now) ==>
      Access(accounts, keys, codec, Scheme + IssueToken(codec, username, iat), now).None?
  {
    IssueThenExtract(codec, username, iat, now);
  }

  /** The login decision: an account of that name exists and its stored hash verifies the password. */
  predicate LoginAccepted(accounts: seq<Account>, req: LoginRequest) {
    var a := AccountByName(accounts, req.username);
    a.Some? && Verify(a.value.password, req.password)
  }

  /**
   * Login is accepted exactly when the first account of that name holds a hash
   * made from that password, as long as the stored secret is shorter than 72
   * bytes and neither it nor the password holds U+0000 (bcrypt reads a key only
   * up to its 72nd byte, and a zero byte ends it).
   */
  lemma LoginAcceptedIffHashOfPassword(accounts: seq<Account>, req: LoginRequest)
    requires var a := AccountByName(accounts, req.username);
      a.Some? && a.value.password.Hashed? ==>
        |Bytes(a.value.password.secret)| < MaxKeyBytes && '\0' !in a.value.password.secret
    requires '\0' !in req.password
    ensures LoginAccepted(accounts, req) <==>
      exists a, salt: nat :: a in accounts && a.name == req.username && a.password == Hashed(req.password, salt)
        && a == AccountByName(accounts, req.username).value
  {
    var a := AccountByName(accounts, req.username);
    if a.Some? && a.value.password.Hashed? {
      var d := a.value.password;
      ShortSecretVerifiesExactly(d.secret, d.salt, req.password);
      if LoginAccepted(accounts, req) {
        assert d == Hashed(req.password, d.salt);
      }
    }
  }

  /**
   * The account of a user whose password has 72 bytes or more also accepts that
   * password followed by anything: bcrypt reads only the first 72 bytes.
   */
  lemma LoginAcceptsLongerPassword(accounts: seq<Account>, username: string, password: string, salt: nat, suffix: string)
    requires AccountByName(accounts, username).Some?
    requires AccountByName(accounts, username).value.password == Hashed(password, salt)
    requires |Bytes(password)| >= MaxKeyBytes
    ensures LoginAccepted(accounts, LoginRequest(username, password + suffix))
  {
    LongSecretAcceptsExtensions(password, salt, suffix);
  }

  /** There is a reset row of the account whose creation lies less than the cooldown before `now`. */
  predicate InCooldown(resets: seq<ResetRow>, accountId: int, now: int) {
    var m := MaxCreated(resets, accountId);
    m.Some? && m.value + Cooldown > now
  }

  /** The cooldown holds exactly when some row of the account was created less than 5 minutes ago. */
  lemma InCooldownIffRecentRow(resets: seq<ResetRow>, accountId: int, now: int)
    ensures InCooldown(resets, accountId, now) <==>
      exists x :: x in resets && x.accountId == accountId && x.created.Some? && x.created.value + Cooldown > now
  {
    var m := MaxCreated(resets, accountId);
    if exists x :: x in resets && x.accountId == accountId && x.created.Some? && x.created.value + Cooldown > now {
      var x :| x in resets && x.accountId == accountId && x.created.Some? && x.created.value + Cooldown > now;
      assert m.Some? && x.created.value <= m.value;
    }
  }

  /** A request inserts a row created at `now`, so every request within the next 5 minutes is refused with 429. */
  lemma CooldownAfterRequest(resets: seq<ResetRow>, row: ResetRow, now: int, later: int)
    requires row.created == Some(now) && now <= later < now + Cooldown
    ensures InCooldown(resets + [row], row.accountId, later)
  {
    InCooldownIffRecentRow(resets + [row], row.accountId, later);
    assert row in resets + [row];
  }

  /**
   * The checks of `NewPassword`, in their order: a strong new password, an account
   * for the email, a reset row with id, token and expiry, not expired at `now`, and
   * a token that the stored hash verifies.
   */
  predicate ResetConfirmable(accounts: seq<Account>, resets: seq<ResetRow>, req: NewPasswordRequest, now: int) {
    && Strong(req.password)
    && AccountByEmail(accounts, req.email).Some?
    && var row := FirstResetRow(resets, AccountByEmail(accounts, req.email).value.id);
    && row.Some? && row.value.id.Some? && row.value.token.Some? && row.value.expires.Some?
    && !(row.value.expires.value < now)
    && Verify(row.value.token.value, req.token)
  }

  /** Two row lists that agree position by position on `p` and `q` have their first match at the same place. */
  lemma {:induction false} FirstIndexAgrees<T, U>(a: seq<T>, p: T -> bool, b: seq<U>, q: U -> bool)
    requires |a| == |b| && forall k :: 0 <= k < |a| ==> p(a[k]) == q(b[k])
    ensures FirstIndex(a, p) == FirstIndex(b, q)
  {
    if a != [] {
      FirstIndexAgrees(a[1..], p, b[1..], q);
    }
  }

  /** Overwriting a password changes no account's email or id. */
  lemma AccountByEmailAfterUpdate(accounts: seq<Account>, id: int, d: Digest, email: string)
    ensures AccountByEmail(WithPassword(accounts, id, d), email).Some? == AccountByEmail(accounts, email).Some?
    ensures AccountByEmail(accounts, email).Some? ==>
      AccountByEmail(WithPassword(accounts, id, d), email).value.id == AccountByEmail(accounts, email).value.id
  {
    var updated := WithPassword(accounts, id, d);
    FirstIndexAgrees(updated, (a: Account) => a.email == email, accounts, (a: Account) => a.email == email);
  }

  /**
   * One-time use: once the password is overwritten and the account's reset rows
   * are deleted, the same request (or any other) fails the "no reset row" check.
   */
  lemma ConsumedTokenRefused(accounts: seq<Account>, resets: seq<ResetRow>, req: NewPasswordRequest, now: int, d: Digest, later: int)
    requires ResetConfirmable(accounts, resets, req, now)
    ensures var id := AccountByEmail(accounts, req.email).value.id;
      !ResetConfirmable(WithPassword(accounts, id, d), WithoutResets(resets, id), req, later)
  {
    var id := AccountByEmail(accounts, req.email).value.id;
    AccountByEmailAfterUpdate(accounts, id, d, req.email);
    assert FirstResetRow(WithoutResets(resets, id), id).None?;
  }

  /**
   * Request then confirm: when the account has no earlier reset row, the row a
   * request inserts accepts the token sent by e-mail, for a strong password and
   * until the row expires.
   */
  lemma RequestThenConfirm(accounts: seq<Account>, resets: seq<ResetRow>, row: ResetRow, req: NewPasswordRequest, salt: nat, now: int)
    requires AccountByEmail(accounts, req.email).Some?
    requires row.accountId == AccountByEmail(accounts, req.email).value.id
    requires forall x :: x in resets ==> x.accountId != row.accountId
    requires row.id.Some? && row.token == Some(Hashed(req.token, salt)) && row.expires.Some? && now <= row.expires.value
    ensures ResetConfirmable(accounts, resets + [row], req, now) <==> Strong(req.password)
  {
    assert FirstResetRow(resets + [row], row.accountId) == Some(row) by {
      assert forall k :: 0 <= k < |resets| ==> (resets + [row])[k] == resets[k];
      assert (resets + [row])[|resets|] == row;
    }
  }

  /**
   * After the confirmation writes the new hash, logging in with the new password
   * succeeds for the account whose password was reset, when it is the one its name
   * resolves to.
   */
  lemma ConfirmThenLogin(accounts: seq<Account>, id: int, password: string, salt: nat, username: string)
    requires AccountByName(accounts, username).Some? && AccountByName(accounts, username).value.id == id
    ensures LoginAccepted(WithPassword(accounts, id, Hashed(password, salt)), LoginRequest(username, password))
  {
    var updated := WithPassword(accounts, id, Hashed(password, salt));
    FirstIndexAgrees(updated, (a: Account) => a.name == username, accounts, (a: Account) => a.name == username);
  }

  /** Appending rows never changes which row of an account comes first, once it has one. */
  lemma FirstResetRowAfterAppend(resets: seq<ResetRow>, more: seq<ResetRow>, accountId: int)
    requires FirstResetRow(resets, accountId).Some?
    ensures FirstResetRow(resets + more, accountId) == FirstResetRow(resets, accountId)
  {
    var p := (x: ResetRow) => x.accountId == accountId;
    var i := FirstIndex(resets, p);
    assert (resets + more)[i] == resets[i];
  }

  /**
   * As written, a second request for an account (after the cooldown) adds a second
   * row, but the confirmation only ever reads the first row of the account: the
   * token of the newer e-mail is refused unless the older row's hash happens to
   * verify it too.
   */
  lemma LaterRequestTokenRefused(accounts: seq<Account>, resets: seq<ResetRow>, row: ResetRow, req: NewPasswordRequest, now: int)
    requires AccountByEmail(accounts, req.email).Some?
    requires row.accountId == AccountByEmail(accounts, req.email).value.id
    requires FirstResetRow(resets, row.accountId).Some?
    requires var first := FirstResetRow(resets, row.accountId).value;
      first.token.Some? ==> !Verify(first.token.value, req.token)
    ensures !ResetConfirmable(accounts, resets + [row], req, now)
  {
    FirstResetRowAfterAppend(resets, [row], row.accountId);
  }

  /** A concrete instance: two requests, the second e-mail's token is refused. */
  lemma SecondResetEmailRefused()
    ensures var accounts := [Account(1, "alice", "student", "alice@example.org", "school", Malformed(""))];
      var first := ResetRow(Some(1), 1, Some(Hashed("first", 0)), Some(0), Some(86400));
      var second := ResetRow(Some(2), 1, Some(Hashed("second", 0)), Some(600), Some(87000));
      !ResetConfirmable(accounts, [first, second], NewPasswordRequest("alice@example.org", "second", "abcdefghijklmno"), 700)
  {
    var accounts := [Account(1, "alice", "student", "alice@example.org", "school", Malformed(""))];
    var first := ResetRow(Some(1), 1, Some(Hashed("first", 0)), Some(0), Some(86400));
    var second := ResetRow(Some(2), 1, Some(Hashed("second", 0)), Some(600), Some(87000));
    var req := NewPasswordRequest("alice@example.org", "second", "abcdefghijklmno");
    assert accounts[0].email == req.email;
    assert AccountByEmail(accounts, req.email).Some?;
    assert FirstResetRow([first], 1).Some? by { assert [first][0] == first; }
    FirstByteDiffers("first", 0, "second");
    LaterRequestTokenRefused(accounts, [first], second, req, 700);
    assert [first] + [second] == [first, second];
  }

  /** The dead `update password_reset set token = $1 where account_id = $2`: every row of the account gets the new hash. */
  function WithResetToken(resets: seq<ResetRow>, accountId: int, token: Digest): (r: seq<ResetRow>)
    ensures |r| == |resets|
    ensures forall k :: 0 <= k < |r| ==>
      r[k] == if resets[k].accountId == accountId then resets[k].(token := Some(token)) else resets[k]
  {
    seq(|resets|, k requires 0 <= k < |resets| =>
      if resets[k].accountId == accountId then resets[k].(token := Some(token)) else resets[k])
  }

  /**
   * The reset request as evidently intended by the `hasExistingRequest` branch: an
   * account that already has a row gets its token replaced, any other gets a new row.
   */
  function IntendedResetRows(resets: seq<ResetRow>, row: ResetRow): (r: seq<ResetRow>)
    requires row.token.Some?
    ensures FirstResetRow(resets, row.accountId).None? ==> r == resets + [row]
    ensures FirstResetRow(resets, row.accountId).Some? ==> |r| == |resets|
  {
    if FirstResetRow(resets, row.accountId).Some? then WithResetToken(resets, row.accountId, row.token.value)
    else resets + [row]
  }

  /**
   * Under the intended upsert the token of the latest e-mail is the one the
   * confirmation accepts, whether or not the account had an earlier row: it
   * succeeds exactly for a strong password while the account's first row has
   * an id and has not expired.
   */
  lemma IntendedRequestThenConfirm(accounts: seq<Account>, resets: seq<ResetRow>, row: ResetRow, req: NewPasswordRequest, salt: nat, now: int)
    requires AccountByEmail(accounts, req.email).Some?
    requires row.accountId == AccountByEmail(accounts, req.email).value.id
    requires row.id.Some? && row.token == Some(Hashed(req.token, salt)) && row.expires.Some?
    ensures var r := IntendedResetRows(resets, row);
      var first := FirstResetRow(r, row.accountId);
      && first.Some? && first.value.token == Some(Hashed(req.token, salt))
      && (ResetConfirmable(accounts, r, req, now) <==>
            Strong(req.password) && first.value.id.Some? && first.value.expires.Some? && !(first.value.expires.value < now))
  {
    var id := row.accountId;
    var p := (x: ResetRow) => x.accountId == id;
    var r := IntendedResetRows(resets, row);
    if FirstResetRow(resets, id).Some? {
      var updated := WithResetToken(resets, id, row.token.value);
      FirstIndexAgrees(updated, p, resets, p);
      var i := FirstIndex(resets, p);
      assert FirstResetRow(updated, id) == Some(updated[i]);
    } else {
      assert FirstResetRow(resets + [row], id) == Some(row) by {
        assert forall k :: 0 <= k < |resets| ==> (resets + [row])[k] == resets[k];
        assert (resets + [row])[|resets|] == row;
      }
    }
  }

  /** The e-mail sent for a reset request. */
  function ResetEmail(accountId: int, email: string, token: string): (m: Email)
    requires '@' in email
    ensures m.to == email && m.from == "info@cloud-castle.ch"
    ensures m.html == CreatePasswordResetEmail(accountId, email, token)
  {
    Email("info@cloud-castle.ch", email, "Cloud Castle Password Reset",
      CreatePasswordResetEmail(accountId, email, token), "cloud-castle-password-reset")
  }

  /** The handlers, over one database. */
  class Stateful {
    const db: Database

    constructor (db: Database)
      ensures this.db == db
    {
      this.db := db;
    }

    /**
     * `Login`: an unreadable body is answered 502, a refused login 401; an
     * accepted one gets a fresh token for the user.
     */
    method Login(w: Response, codec: Codec, body: Option<LoginRequest>, now: int)
      modifies w
      ensures body.None? ==> w.code == Written(old(w.code), StatusBadGateway) && w.body == old(w.body)
      ensures body.Some? && !LoginAccepted(db.accounts, body.value) ==>
        w.code == Written(old(w.code), StatusUnauthorized) && w.body == old(w.body)
      ensures body.Some? && LoginAccepted(db.accounts, body.value) ==>
        w.code == Written(old(w.code), StatusOK)
        && w.body == old(w.body) + [TokenPayload(IssueToken(codec, body.value.username, now))]
      ensures w.header == old(w.header) && w.dispatched == old(w.dispatched) && w.aborted == old(w.aborted)
    {
      if body.None? {
        w.WriteHeader(StatusBadGateway);
        return;
      }
      var req := body.value;
      var account := AccountByName(db.accounts, req.username);
      if account.None? {
        w.WriteHeader(StatusUnauthorized);
        return;
      }
      if !Verify(account.value.password, req.password) {
        w.WriteHeader(StatusUnauthorized);
        return;
      }
      var token := IssueToken(codec, req.username, now);
      w.Write(TokenPayload(token));
    }

    /** `getAPIAccess`: the API access for the bearer of the token, or 401 and none. */
    method RequestAPIAccess(w: Response, codec: Codec, authorization: string, now: int) returns (api: Option<ApiAccess>)
      modifies w
      ensures api == Access(db.accounts, db.apiKeys, codec, authorization, now)
      ensures api.None? ==> w.code == Written(old(w.code), StatusUnauthorized)
      ensures api.Some? ==> w.code == old(w.code)
      ensures w.body == old(w.body) && w.header == old(w.header)
      ensures w.dispatched == old(w.dispatched) && w.aborted == old(w.aborted)
    {
      var subject := ExtractSubject(codec, authorization, now);
      if subject.err.Some? {
        w.WriteHeader(StatusUnauthorized);
        return None;
      }
      api := GetAPIAccess(db.accounts, db.apiKeys, subject.name);
      if api.None? {
        w.WriteHeader(StatusUnauthorized);
      }
    }

    /**
     * The prologue the three instance handlers share: API access, the instance,
     * and the ownership gate. `answered` says whether the provider returned the
     * instance. No access is answered 401, an instance the provider does not
     * return 500, an instance whose `owner` label does not name the token's user
     * 401; an owned instance is handed on with nothing written.
     */
    method OwnedInstance(w: Response, cloud: Provider, codec: Codec, authorization: string, now: int, id: string)
      returns (found: Option<Instance>, ghost answered: bool)
      modifies w
      ensures var api := Access(db.accounts, db.apiKeys, codec, authorization, now);
        && (api.None? ==> !answered && found.None? && w.code == Written(old(w.code), StatusUnauthorized))
        && (answered ==> api.Some? && id in cloud.instances)
        && (api.Some? && !answered ==> found.None? && w.code == Written(old(w.code), StatusInternalServerError))
        && (answered && !IsOwnedBy(cloud.instances[id], api.value.username) ==>
              found.None? && w.code == Written(old(w.code), StatusUnauthorized))
        && (answered && IsOwnedBy(cloud.instances[id], api.value.username) ==>
              found == Some(cloud.instances[id]) && w.code == old(w.code))
      ensures found.Some? ==> answered
      ensures w.body == old(w.body) && w.header == old(w.header)
      ensures w.dispatched == old(w.dispatched) && w.aborted == old(w.aborted)
    {
      answered := false;
      var api := RequestAPIAccess(w, codec, authorization, now);
      if api.None? {
        return None, answered;
      }
      var instance := cloud.GetInstance(id);
      if instance.None? {
        w.WriteHeader(StatusInternalServerError);
        return None, answered;
      }
      answered := true;
      if !IsOwnedBy(instance.value, api.value.username) {
        w.WriteHeader(StatusUnauthorized);
        return None, answered;
      }
      found := instance;
    }

    /**
     * `GetInstanceState`: the state of an instance the user owns, with 200, and
     * nothing for any other: 401 without access or for a foreign instance, 500
     * when the provider does not return it.
     */
    method GetInstanceState(w: Response, cloud: Provider, codec: Codec, authorization: string, now: int, id: string)
      returns (ghost answered: bool)
      modifies w
      ensures var api := Access(db.accounts, db.apiKeys, codec, authorization, now);
        && (api.None? ==> !answered && w.body == old(w.body) && w.code == Written(old(w.code), StatusUnauthorized))
        && (answered ==> api.Some? && id in cloud.instances)
        && (api.Some? && !answered ==> w.body == old(w.body) && w.code == Written(old(w.code), StatusInternalServerError))
        && (answered && !IsOwnedBy(cloud.instances[id], api.value.username) ==>
              w.body == old(w.body) && w.code == Written(old(w.code), StatusUnauthorized))
        && (answered && IsOwnedBy(cloud.instances[id], api.value.username) ==>
              w.body == old(w.body) + [StatePayload(cloud.instances[id].state)] && w.code == Written(old(w.code), StatusOK))
      ensures w.header == old(w.header) && w.dispatched == old(w.dispatched) && w.aborted == old(w.aborted)
    {
      var instance;
      instance, answered := OwnedInstance(w, cloud, codec, authorization, now, id);
      if instance.None? {
        return;
      }
      w.Write(StatePayload(instance.value.state));
    }

    /**
     * `StartInstance`: the provider is asked to start the instance exactly when
     * it returned the instance and the user owns it; the answer is then 200 when
     * it accepts and 500 when it refuses. Otherwise nothing is sent: 401 without
     * access or for a foreign instance, 500 when the instance is not returned.
     */
    method StartInstance(w: Response, cloud: Provider, codec: Codec, authorization: string, now: int, id: string)
      returns (ghost answered: bool)
      modifies w, cloud
      ensures cloud.instances == old(cloud.instances) && cloud.listable == old(cloud.listable)
      ensures var api := Access(db.accounts, db.apiKeys, codec, authorization, now);
        && (api.None? ==> !answered && cloud.calls == old(cloud.calls) && w.code == Written(old(w.code), StatusUnauthorized))
        && (answered ==> api.Some? && id in cloud.instances)
        && (api.Some? && !answered ==>
              cloud.calls == old(cloud.calls) && w.code == Written(old(w.code), StatusInternalServerError))
        && (answered && !IsOwnedBy(cloud.instances[id], api.value.username) ==>
              cloud.calls == old(cloud.calls) && w.code == Written(old(w.code), StatusUnauthorized))
        && (answered && IsOwnedBy(cloud.instances[id], api.value.username) ==>
              && |cloud.calls| == |old(cloud.calls)| + 1
              && var accepted := cloud.calls[|old(cloud.calls)|].ok;
              && cloud.calls == old(cloud.calls) + [Start(id, accepted)]
              && w.code == Written(old(w.code), if accepted then StatusOK else StatusInternalServerError))
      ensures w.body == old(w.body) && w.header == old(w.header)
      ensures w.dispatched == old(w.dispatched) && w.aborted == old(w.aborted)
    {
      var instance;
      instance, answered := OwnedInstance(w, cloud, codec, authorization, now, id);
      if instance.None? {
        return;
      }
      var ok := cloud.StartInstance(id);
      if !ok {
        w.WriteHeader(StatusInternalServerError);
        return;
      }
      w.WriteHeader(StatusOK);
    }

    /**
     * `StopInstance`: the provider is asked to stop the instance exactly when it
     * returned the instance and the user owns it; the answer is then 200 when it
     * accepts and 500 when it refuses. Otherwise nothing is sent: 401 without
     * access or for a foreign instance, 500 when the instance is not returned.
     */
    method StopInstance(w: Response, cloud: Provider, codec: Codec, authorization: string, now: int, id: string)
      returns (ghost answered: bool)
      modifies w, cloud
      ensures cloud.instances == old(cloud.instances) && cloud.listable == old(cloud.listable)
      ensures var api := Access(db.accounts, db.apiKeys, codec, authorization, now);
        && (api.None? ==> !answered && cloud.calls == old(cloud.calls) && w.code == Written(old(w.code), StatusUnauthorized))
        && (answered ==> api.Some? && id in cloud.instances)
        && (api.Some? && !answered ==>
              cloud.calls == old(cloud.calls) && w.code == Written(old(w.code), StatusInternalServerError))
        && (answered && !IsOwnedBy(cloud.instances[id], api.value.username) ==>
              cloud.calls == old(cloud.calls) && w.code == Written(old(w.code), StatusUnauthorized))
        && (answered && IsOwnedBy(cloud.instances[id], api.value.username) ==>
              && |cloud.calls| == |old(cloud.calls)| + 1
              && var accepted := cloud.calls[|old(cloud.calls)|].ok;
              && cloud.calls == old(cloud.calls) + [Stop(id, accepted)]
              && w.code == Written(old(w.code), if accepted then StatusOK else StatusInternalServerError))
      ensures w.body == old(w.body) && w.header == old(w.header)
      ensures w.dispatched == old(w.dispatched) && w.aborted == old(w.aborted)
    {
      var instance;
      instance, answered := OwnedInstance(w, cloud, codec, authorization, now, id);
      if instance.None? {
        return;
      }
      var ok := cloud.StopInstance(id);
      if !ok {
        w.WriteHeader(StatusInternalServerError);
        return;
      }
      w.WriteHeader(StatusOK);
    }

    /**
     * `ResetPassword`: an unknown email is answered 201 and a request within the
     * cooldown 429, both without writing anything. Otherwise a fresh 64-character
     * alphanumeric token is generated, a new row holding only its hash is inserted
     * (never updated: an earlier row of the account stays), and the token is mailed.
     * An email without `@` makes the mail template panic after the insert. A
     * delivered mail leaves the status unset, which the client receives as 200.
     * Any failure of the store, the generator, bcrypt or the mail service is 500.
     */
    method ResetPassword(w: Response, outbox: Postmark, body: Option<ResetRequest>, now: int) returns (ghost token: string)
      modifies w, db, outbox
      ensures db.accounts == old(db.accounts) && db.apiKeys == old(db.apiKeys) && db.events == old(db.events)
      ensures w.body == old(w.body) && w.header == old(w.header) && w.dispatched == old(w.dispatched)
      ensures db.resets == old(db.resets) ==>
        outbox.delivered == old(outbox.delivered) && w.aborted == old(w.aborted)
      ensures body.None? ==> w.code == Written(old(w.code), StatusBadRequest) && db.resets == old(db.resets)
      ensures body.Some? && AccountByEmail(old(db.accounts), body.value.email).None? ==>
        && (w.code == Written(old(w.code), StatusCreated) || w.code == Written(old(w.code), StatusInternalServerError))
        && db.resets == old(db.resets)
      ensures (&& body.Some? && AccountByEmail(old(db.accounts), body.value.email).Some?
               && InCooldown(old(db.resets), AccountByEmail(old(db.accounts), body.value.email).value.id, now)) ==>
        && (w.code == Written(old(w.code), StatusTooManyRequests) || w.code == Written(old(w.code), StatusInternalServerError))
        && db.resets == old(db.resets)
      ensures (&& body.Some? && AccountByEmail(old(db.accounts), body.value.email).Some?
               && !InCooldown(old(db.resets), AccountByEmail(old(db.accounts), body.value.email).value.id, now)
               && db.resets == old(db.resets)) ==>
        w.code == Written(old(w.code), StatusInternalServerError)
      ensures db.resets != old(db.resets) ==>
        && body.Some? && AccountByEmail(old(db.accounts), body.value.email).Some?
        && var email, id := body.value.email, AccountByEmail(old(db.accounts), body.value.email).value.id;
        && !InCooldown(old(db.resets), id, now)
        && |db.resets| == |old(db.resets)| + 1 && db.resets[..|old(db.resets)|] == old(db.resets)
        && var row := db.resets[|old(db.resets)|];
        && row.accountId == id && row.created == Some(now) && row.id.Some? && row.expires.Some?
        && row.token.Some? && Verify(row.token.value, token)
        && |token| == ResetTokenLength && (forall k :: 0 <= k < |token| ==> IsAlnum(token[k]))
        && ('@' !in email ==> w.aborted && outbox.delivered == old(outbox.delivered) && w.code == old(w.code))
        && ('@' in email ==>
              && w.aborted == old(w.aborted)
              && ((outbox.delivered == old(outbox.delivered) + [ResetEmail(id, email, token)] && w.code == old(w.code))
                  || (outbox.delivered == old(outbox.delivered) && w.code == Written(old(w.code), StatusInternalServerError))))
    {
      token := "";
      if body.None? {
        w.WriteHeader(StatusBadRequest);
        return;
      }
      var email := body.value.email;
      var readOk: bool :| true;
      if !readOk {
        w.WriteHeader(StatusInternalServerError);
        return;
      }
      var account := AccountByEmail(db.accounts, email);
      if account.None? {
        w.WriteHeader(StatusCreated);
        return;
      }
      var accountId := account.value.id;
      readOk :| true;
      if !readOk {
        w.WriteHeader(StatusInternalServerError);
        return;
      }
      if InCooldown(db.resets, accountId, now) {
        w.WriteHeader(StatusTooManyRequests);
        return;
      }
      var generated := RandomPasswordAlnum(ResetTokenLength);
      if generated.None? {
        w.WriteHeader(StatusInternalServerError);
        return;
      }
      var hashed := GenerateFromPassword(generated.value);
      if hashed.None? {
        w.WriteHeader(StatusInternalServerError);
        return;
      }
      var inserted := db.InsertResetRow(accountId, hashed.value, now);
      if !inserted {
        w.WriteHeader(StatusInternalServerError);
        return;
      }
      token := generated.value;
      if '@' !in email {
        w.Abort();
        return;
      }
      var sent := outbox.Send(ResetEmail(accountId, email, generated.value));
      if !sent {
        w.WriteHeader(StatusInternalServerError);
      }
    }

    /**
     * `NewPassword`: a request failing any check of `ResetConfirmable` is answered
     * 400 and writes nothing. A confirmed one overwrites the account's password
     * hash, then deletes all reset rows of the account (a failed delete is only
     * logged), and is answered 204; a failure to hash or to update is 500.
     */
    method NewPassword(w: Response, body: Option<NewPasswordRequest>, now: int) returns (ghost digest: Digest)
      modifies w, db
      ensures db.apiKeys == old(db.apiKeys) && db.events == old(db.events)
      ensures w.body == old(w.body) && w.header == old(w.header)
      ensures w.dispatched == old(w.dispatched) && w.aborted == old(w.aborted)
      ensures body.None? ==>
        w.code == Written(old(w.code), StatusBadRequest) && db.accounts == old(db.accounts) && db.resets == old(db.resets)
      ensures body.Some? && !ResetConfirmable(old(db.accounts), old(db.resets), body.value, now) ==>
        w.code == Written(old(w.code), StatusBadRequest) && db.accounts == old(db.accounts) && db.resets == old(db.resets)
      ensures body.Some? && ResetConfirmable(old(db.accounts), old(db.resets), body.value, now)
              && ByteLen(body.value.password) > MaxKeyBytes ==>
        w.code == Written(old(w.code), StatusInternalServerError) && db.accounts == old(db.accounts) && db.resets == old(db.resets)
      ensures body.Some? && ResetConfirmable(old(db.accounts), old(db.resets), body.value, now) ==>
        var id := AccountByEmail(old(db.accounts), body.value.email).value.id;
        || (w.code == Written(old(w.code), StatusInternalServerError)
            && db.accounts == old(db.accounts) && db.resets == old(db.resets))
        || (w.code == Written(old(w.code), StatusNoContent)
            && Verify(digest, body.value.password)
            && db.accounts == WithPassword(old(db.accounts), id, digest)
            && (db.resets == WithoutResets(old(db.resets), id) || db.resets == old(db.resets)))
    {
      digest := Malformed("");
      if body.None? {
        w.WriteHeader(StatusBadRequest);
        return;
      }
      var req := body.value;
      var strong := SufficientlyStrong(req.password);
      if !strong {
        w.WriteHeader(StatusBadRequest);
        return;
      }
      var account := AccountByEmail(db.accounts, req.email);
      if account.None? {
        w.WriteHeader(StatusBadRequest);
        return;
      }
      var accountId := account.value.id;
      var row := FirstResetRow(db.resets, accountId);
      if row.None? || row.value.expires.None? || row.value.token.None? || row.value.id.None? {
        w.WriteHeader(StatusBadRequest);
        return;
      }
      if row.value.expires.value < now {
        w.WriteHeader(StatusBadRequest);
        return;
      }
      if !Verify(row.value.token.value, req.token) {
        w.WriteHeader(StatusBadRequest);
        return;
      }
      var hashed := GenerateFromPassword(req.password);
      if hashed.None? {
        w.WriteHeader(StatusInternalServerError);
        return;
      }
      digest := hashed.value;
      var updated := db.UpdatePassword(accountId, hashed.value);
      if !updated {
        w.WriteHeader(StatusInternalServerError);
        return;
      }
      var deleted := db.DeleteResets(accountId);
      w.WriteHeader(StatusNoContent);
    }
  }
}

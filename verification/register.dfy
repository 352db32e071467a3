/**
 * The `register-group` command of cmd/register-group/main.go: validate the role
 * and tenant flags, read the group file, and create an account for each user of
 * the group whose name is not taken yet, with the given password or a random one.
 */
module RegisterGroup {
  import opened Options
  import opened Bcrypt
  import opened Passwords
  import opened Store

  /** A user entry of the group file. */
  datatype User = User(email: string, name: string, sshKey: string)

  /** The length of a generated initial password. */
  const RandomPasswordLength := 32

  predicate ValidRole(role: string) {
    role == "teacher" || role == "student"
  }

  /**
   * The hash a new account may receive: one of the given password, or, when the
   * flag is empty, one of a 32-character alphanumeric random password.
   */
  predicate InitialDigest(d: Digest, password: string) {
    if password == "" then
      d.Hashed? && |d.secret| == RandomPasswordLength && forall k :: 0 <= k < |d.secret| ==> IsAlnum(d.secret[k])
    else d.Hashed? && d.secret == password
  }

  /** What became of one user of the group file; every outcome but `Created` skips to the next user. */
  datatype Outcome =
    | Taken          // an account of that name exists
    | GenFailed      // the random password could not be generated
    | HashFailed     // bcrypt refused or failed
    | InsertFailed   // the store refused the insert
    | Created        // an account was inserted and its creation logged

  /** When user `k` comes up, its name is held by an old account or by a user created before it. */
  ghost predicate NameTaken(oldAccounts: seq<Account>, users: seq<User>, outcomes: seq<Outcome>, k: int)
    requires 0 <= k < |users| && k <= |outcomes|
  {
    || (exists b :: b in oldAccounts && b.name == users[k].name)
    || (exists j :: 0 <= j < k && outcomes[j] == Created && users[j].name == users[k].name)
  }

  /**
   * The outcome of registering `users[..i]`: `outcomes` says what became of each
   * of them, and a user is skipped as `Taken` exactly when its name is taken at
   * its turn. `created` lists, in increasing order, exactly the users marked
   * `Created`; the accounts table is the old one followed by their accounts, each
   * created while its name was still free, and the event log gained one
   * ACCOUNT_CREATED entry per new account, in the same order.
   */
  ghost predicate Registered(
    oldAccounts: seq<Account>, accounts: seq<Account>, oldEvents: seq<Event>, events: seq<Event>,
    users: seq<User>, i: int, created: seq<int>, outcomes: seq<Outcome>, password: string, role: string, tenant: string)
  {
    && Outcomes(oldAccounts, users, i, created, outcomes, password)
    && Extended(oldAccounts, accounts, oldEvents, events, users, created, password, role, tenant)
  }

  /** The outcome part of `Registered`: one outcome per user so far, `created` listing the `Created` ones in order. */
  ghost predicate Outcomes(oldAccounts: seq<Account>, users: seq<User>, i: int, created: seq<int>, outcomes: seq<Outcome>, password: string) {
    && 0 <= i <= |users| && |outcomes| == i
    && (forall k :: 0 <= k < i ==> (outcomes[k] == Created <==> k in created))
    && (forall k :: 0 <= k < i ==> (outcomes[k] == Taken <==> NameTaken(oldAccounts, users, outcomes, k)))
    && (forall k :: 0 <= k < i && outcomes[k] == GenFailed ==> password == "")
    && (forall j :: 0 <= j < |created| ==> 0 <= created[j] < i)
    && (forall j, l :: 0 <= j < l < |created| ==> created[j] < created[l])
  }

  /** The table part of `Registered`: the old rows, then one account and one event per created user. */
  ghost predicate Extended(
    oldAccounts: seq<Account>, accounts: seq<Account>, oldEvents: seq<Event>, events: seq<Event>,
    users: seq<User>, created: seq<int>, password: string, role: string, tenant: string)
  {
    var n := |oldAccounts|;
    && |accounts| == n + |created| && accounts[..n] == oldAccounts
    && |events| == |oldEvents| + |created| && events[..|oldEvents|] == oldEvents
    && forall j :: 0 <= j < |created| ==>
      0 <= created[j] < |users| &&
      var a, u := accounts[n + j], users[created[j]];
      && a.name == u.name && a.email == u.email && a.role == role && a.tenant == tenant
      && InitialDigest(a.password, password)
      && (forall b :: b in accounts[..n + j] ==> b.name != u.name && b.id != a.id)
      && events[|oldEvents| + j] == Event(a.id, AccountCreated, "name", u.name)
  }

  /** Appending an outcome for user `i` leaves what `NameTaken` says of users up to `i` unchanged. */
  lemma NameTakenStable(oldAccounts: seq<Account>, users: seq<User>, outcomes: seq<Outcome>, o: Outcome, i: int)
    requires 0 <= i < |users| && |outcomes| == i
    ensures forall k :: 0 <= k <= i ==>
      NameTaken(oldAccounts, users, outcomes + [o], k) == NameTaken(oldAccounts, users, outcomes, k)
  {
    var outcomes' := outcomes + [o];
    forall k | 0 <= k <= i
      ensures NameTaken(oldAccounts, users, outcomes', k) == NameTaken(oldAccounts, users, outcomes, k)
    {
      assert forall j :: 0 <= j < k ==> outcomes'[j] == outcomes[j];
    }
  }

  /**
   * The command, after the group file has been read (`None`: it could not be
   * read or parsed). Exit code 1 for an invalid role, an empty tenant or an
   * unreadable file, before any account is touched; otherwise 0, whatever
   * happened to the individual users: every user of the file gets an outcome,
   * a failure for one user skips only that user.
   */
  method RegisterGroup(db: Database, users: Option<seq<User>>, password: string, role: string, tenant: string)
    returns (exitCode: int, ghost created: seq<int>, ghost outcomes: seq<Outcome>)
    modifies db
    ensures db.resets == old(db.resets) && db.apiKeys == old(db.apiKeys)
    ensures exitCode == 0 <==> ValidRole(role) && tenant != "" && users.Some?
    ensures exitCode != 0 ==> exitCode == 1 && db.accounts == old(db.accounts) && db.events == old(db.events)
    ensures exitCode == 0 ==>
      Registered(old(db.accounts), db.accounts, old(db.events), db.events, users.value, |users.value|, created, outcomes, password, role, tenant)
  {
    created, outcomes := [], [];
    if !ValidRole(role) {
      return 1, created, outcomes;
    }
    if tenant == "" {
      return 1, created, outcomes;
    }
    if users.None? {
      return 1, created, outcomes;
    }
    var group := users.value;
    var i := 0;
    while i < |group|
      invariant Registered(old(db.accounts), db.accounts, old(db.events), db.events, group, i, created, outcomes, password, role, tenant)
      invariant db.resets == old(db.resets) && db.apiKeys == old(db.apiKeys)
    {
      var o := RegisterUser(db, old(db.accounts), old(db.events), group, i, created, outcomes, password, role, tenant);
      if o == Created {
        created := created + [i];
      }
      outcomes := outcomes + [o];
      i := i + 1;
    }
    exitCode := 0;
  }

  /**
   * One pass of the loop, for user `i`: skip a taken name, get the password (the
   * flag, or a fresh random one), hash it, insert the account and log its
   * creation. Any failure skips the user with the outcome saying why.
   */
  method RegisterUser(
    db: Database, ghost oldAccounts: seq<Account>, ghost oldEvents: seq<Event>,
    group: seq<User>, i: int, ghost created: seq<int>, ghost outcomes: seq<Outcome>, password: string, role: string, tenant: string)
    returns (o: Outcome)
    requires Registered(oldAccounts, db.accounts, oldEvents, db.events, group, i, created, outcomes, password, role, tenant)
    requires i < |group|
    modifies db
    ensures db.resets == old(db.resets) && db.apiKeys == old(db.apiKeys)
    ensures Registered(oldAccounts, db.accounts, oldEvents, db.events, group, i + 1,
      if o == Created then created + [i] else created, outcomes + [o], password, role, tenant)
  {
    var user := group[i];
    ghost var accountsBefore, eventsBefore := db.accounts, db.events;
    TakenIffExisting(oldAccounts, db.accounts, oldEvents, db.events, group, i, created, outcomes, password, role, tenant);
    if AccountByName(db.accounts, user.name).Some? {
      SkippedStep(oldAccounts, db.accounts, oldEvents, db.events, group, i, created, outcomes, password, role, tenant, Taken);
      return Taken;
    }
    var userPassword := password;
    if password == "" {
      var generated := RandomPasswordAlnum(RandomPasswordLength);
      if generated.None? {
        SkippedStep(oldAccounts, db.accounts, oldEvents, db.events, group, i, created, outcomes, password, role, tenant, GenFailed);
        return GenFailed;
      }
      userPassword := generated.value;
    }
    var hashed := GenerateFromPassword(userPassword);
    if hashed.None? {
      SkippedStep(oldAccounts, db.accounts, oldEvents, db.events, group, i, created, outcomes, password, role, tenant, HashFailed);
      return HashFailed;
    }
    var id := db.InsertAccount(user.name, role, hashed.value, tenant, user.email);
    if id.None? {
      SkippedStep(oldAccounts, db.accounts, oldEvents, db.events, group, i, created, outcomes, password, role, tenant, InsertFailed);
      return InsertFailed;
    }
    db.LogEvent(Event(id.value, AccountCreated, "name", user.name));
    RegisteredStep(oldAccounts, accountsBefore, db.accounts, oldEvents, eventsBefore, db.events,
      group, i, created, outcomes, password, role, tenant);
    return Created;
  }

  /** At user `i`'s turn, an account of its name exists exactly when the name is taken in the sense of `NameTaken`. */
  lemma TakenIffExisting(
    oldAccounts: seq<Account>, accounts: seq<Account>, oldEvents: seq<Event>, events: seq<Event>,
    users: seq<User>, i: int, created: seq<int>, outcomes: seq<Outcome>, password: string, role: string, tenant: string)
    requires Registered(oldAccounts, accounts, oldEvents, events, users, i, created, outcomes, password, role, tenant)
    requires i < |users|
    ensures (exists a :: a in accounts && a.name == users[i].name) <==> NameTaken(oldAccounts, users, outcomes, i)
  {
    if a :| a in accounts && a.name == users[i].name {
      var k :| 0 <= k < |accounts| && accounts[k] == a;
      ExistingIsTaken(oldAccounts, accounts, oldEvents, events, users, i, created, outcomes, password, role, tenant, k);
    }
    if NameTaken(oldAccounts, users, outcomes, i) {
      TakenIsExisting(oldAccounts, accounts, oldEvents, events, users, i, created, outcomes, password, role, tenant);
    }
  }

  /** An account row of user `i`'s name is an old account or the account of an earlier created user. */
  lemma ExistingIsTaken(
    oldAccounts: seq<Account>, accounts: seq<Account>, oldEvents: seq<Event>, events: seq<Event>,
    users: seq<User>, i: int, created: seq<int>, outcomes: seq<Outcome>, password: string, role: string, tenant: string, k: int)
    requires Registered(oldAccounts, accounts, oldEvents, events, users, i, created, outcomes, password, role, tenant)
    requires i < |users| && 0 <= k < |accounts| && accounts[k].name == users[i].name
    ensures NameTaken(oldAccounts, users, outcomes, i)
  {
    var n := |oldAccounts|;
    if k < n {
      assert accounts[..n][k] == accounts[k];
      assert accounts[k] in oldAccounts;
    } else {
      var j := k - n;
      assert users[created[j]].name == accounts[n + j].name;
      assert outcomes[created[j]] == Created;
    }
  }

  /** A taken name has an account row. */
  lemma TakenIsExisting(
    oldAccounts: seq<Account>, accounts: seq<Account>, oldEvents: seq<Event>, events: seq<Event>,
    users: seq<User>, i: int, created: seq<int>, outcomes: seq<Outcome>, password: string, role: string, tenant: string)
    requires Registered(oldAccounts, accounts, oldEvents, events, users, i, created, outcomes, password, role, tenant)
    requires i < |users| && NameTaken(oldAccounts, users, outcomes, i)
    ensures exists a :: a in accounts && a.name == users[i].name
  {
    var n := |oldAccounts|;
    if b :| b in oldAccounts && b.name == users[i].name {
      assert b in accounts[..n];
      assert b in accounts;
    } else {
      var j :| 0 <= j < i && outcomes[j] == Created && users[j].name == users[i].name;
      var l :| 0 <= l < |created| && created[l] == j;
      assert accounts[n + l].name == users[i].name;
      assert accounts[n + l] in accounts;
    }
  }

  /** A skipped user: its outcome is appended and nothing else changes. */
  lemma SkippedStep(
    oldAccounts: seq<Account>, accounts: seq<Account>, oldEvents: seq<Event>, events: seq<Event>,
    users: seq<User>, i: int, created: seq<int>, outcomes: seq<Outcome>, password: string, role: string, tenant: string,
    o: Outcome)
    requires Registered(oldAccounts, accounts, oldEvents, events, users, i, created, outcomes, password, role, tenant)
    requires i < |users| && o != Created
    requires o == Taken <==> NameTaken(oldAccounts, users, outcomes, i)
    requires o == GenFailed ==> password == ""
    ensures Registered(oldAccounts, accounts, oldEvents, events, users, i + 1, created, outcomes + [o], password, role, tenant)
  {
    var outcomes' := outcomes + [o];
    NameTakenStable(oldAccounts, users, outcomes, o, i);
    forall k | 0 <= k < i + 1 ensures outcomes'[k] == Created <==> k in created {
      if k == i {
        assert i !in created;
      }
    }
  }

  /** One registration step: appending the new account and its event keeps `Registered`. */
  lemma RegisteredStep(
    oldAccounts: seq<Account>, accounts: seq<Account>, accounts': seq<Account>,
    oldEvents: seq<Event>, events: seq<Event>, events': seq<Event>,
    users: seq<User>, i: int, created: seq<int>, outcomes: seq<Outcome>, password: string, role: string, tenant: string)
    requires Registered(oldAccounts, accounts, oldEvents, events, users, i, created, outcomes, password, role, tenant)
    requires i < |users| && !NameTaken(oldAccounts, users, outcomes, i)
    requires forall b :: b in accounts ==> b.name != users[i].name
    requires |accounts'| == |accounts| + 1 && accounts'[..|accounts|] == accounts
    requires var a := accounts'[|accounts|];
      && a.name == users[i].name && a.email == users[i].email && a.role == role && a.tenant == tenant
      && InitialDigest(a.password, password)
      && (forall b :: b in accounts ==> b.id != a.id)
    requires events' == events + [Event(accounts'[|accounts|].id, AccountCreated, "name", users[i].name)]
    ensures Registered(oldAccounts, accounts', oldEvents, events', users, i + 1, created + [i], outcomes + [Created], password, role, tenant)
  {
    CreatedOutcome(oldAccounts, users, i, created, outcomes, password);
    ExtendedStep(oldAccounts, accounts, accounts', oldEvents, events, events', users, i, created, password, role, tenant);
  }

  /** The outcome part of a registration step. */
  lemma CreatedOutcome(oldAccounts: seq<Account>, users: seq<User>, i: int, created: seq<int>, outcomes: seq<Outcome>, password: string)
    requires Outcomes(oldAccounts, users, i, created, outcomes, password)
    requires i < |users| && !NameTaken(oldAccounts, users, outcomes, i)
    ensures Outcomes(oldAccounts, users, i + 1, created + [i], outcomes + [Created], password)
  {
    NameTakenStable(oldAccounts, users, outcomes, Created, i);
  }

  /** The table part of a registration step: the new account and its event extend `Extended`. */
  lemma ExtendedStep(
    oldAccounts: seq<Account>, accounts: seq<Account>, accounts': seq<Account>,
    oldEvents: seq<Event>, events: seq<Event>, events': seq<Event>,
    users: seq<User>, i: int, created: seq<int>, password: string, role: string, tenant: string)
    requires Extended(oldAccounts, accounts, oldEvents, events, users, created, password, role, tenant)
    requires 0 <= i < |users|
    requires forall b :: b in accounts ==> b.name != users[i].name
    requires |accounts'| == |accounts| + 1 && accounts'[..|accounts|] == accounts
    requires var a := accounts'[|accounts|];
      && a.name == users[i].name && a.email == users[i].email && a.role == role && a.tenant == tenant
      && InitialDigest(a.password, password)
      && (forall b :: b in accounts ==> b.id != a.id)
    requires events' == events + [Event(accounts'[|accounts|].id, AccountCreated, "name", users[i].name)]
    ensures Extended(oldAccounts, accounts', oldEvents, events', users, created + [i], password, role, tenant)
  {
    var n := |oldAccounts|;
    assert accounts'[..n] == accounts[..n];
    assert events'[..|oldEvents|] == events[..|oldEvents|];
    var created' := created + [i];
    forall j | 0 <= j < |created'|
      ensures 0 <= created'[j] < |users| &&
        var a, u := accounts'[n + j], users[created'[j]];
        && a.name == u.name && a.email == u.email && a.role == role && a.tenant == tenant
        && InitialDigest(a.password, password)
        && (forall b :: b in accounts'[..n + j] ==> b.name != u.name && b.id != a.id)
        && events'[|oldEvents| + j] == Event(a.id, AccountCreated, "name", u.name)
    {
      if j < |created| {
        assert accounts'[n + j] == accounts[n + j];
        assert accounts'[..n + j] == accounts[..n + j];
        assert events'[|oldEvents| + j] == events[|oldEvents| + j];
      } else {
        assert n + j == |accounts|;
        assert accounts'[..n + j] == accounts;
      }
    }
  }

  /** A user whose name an existing account already has never gets an account, and that account is kept as it was. */
  lemma ExistingNameSkipped(
    oldAccounts: seq<Account>, accounts: seq<Account>, oldEvents: seq<Event>, events: seq<Event>,
    users: seq<User>, created: seq<int>, outcomes: seq<Outcome>, password: string, role: string, tenant: string, k: int)
    requires Registered(oldAccounts, accounts, oldEvents, events, users, |users|, created, outcomes, password, role, tenant)
    requires 0 <= k < |users| && exists b :: b in oldAccounts && b.name == users[k].name
    ensures outcomes[k] == Taken && k !in created
    ensures accounts[..|oldAccounts|] == oldAccounts
  {
  }

  /**
   * A user whose name neither an old account nor an earlier user of the file has
   * is attempted: it is not skipped as taken, and when its outcome is `Created`
   * the table holds an account with its name and email.
   */
  lemma FreshNameAttempted(
    oldAccounts: seq<Account>, accounts: seq<Account>, oldEvents: seq<Event>, events: seq<Event>,
    users: seq<User>, created: seq<int>, outcomes: seq<Outcome>, password: string, role: string, tenant: string, k: int)
    requires Registered(oldAccounts, accounts, oldEvents, events, users, |users|, created, outcomes, password, role, tenant)
    requires 0 <= k < |users|
    requires forall b :: b in oldAccounts ==> b.name != users[k].name
    requires forall j :: 0 <= j < k ==> users[j].name != users[k].name
    ensures outcomes[k] != Taken
    ensures outcomes[k] == Created ==> exists a :: a in accounts && a.name == users[k].name && a.email == users[k].email
  {
    if outcomes[k] == Created {
      var l :| 0 <= l < |created| && created[l] == k;
      assert accounts[|oldAccounts| + l] in accounts;
    }
  }

  /** The accounts created by one run have pairwise different names. */
  lemma NewNamesDistinct(
    oldAccounts: seq<Account>, accounts: seq<Account>, oldEvents: seq<Event>, events: seq<Event>,
    users: seq<User>, created: seq<int>, outcomes: seq<Outcome>, password: string, role: string, tenant: string, j: int, l: int)
    requires Registered(oldAccounts, accounts, oldEvents, events, users, |users|, created, outcomes, password, role, tenant)
    requires 0 <= j < l < |created|
    ensures accounts[|oldAccounts| + j].name != accounts[|oldAccounts| + l].name
  {
    var n := |oldAccounts|;
    var u := users[created[l]];
    assert accounts[n + l].name == u.name;
    assert accounts[..n + l][n + j] == accounts[n + j];
    assert accounts[n + j] in accounts[..n + l];
  }
}

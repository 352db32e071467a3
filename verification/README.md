# Cloud Castle backend: authentication and authorisation decisions

A Dafny model of the decision logic of the Cloud Castle backend, a Go service
through which students and teachers log in and start, stop and inspect the
cloud instances labelled as theirs. The model covers:

- the password-strength rule and the random alphanumeric password generator;
- the bearer-token gate: issuing and validating HS512 JSON Web Tokens
  (RFC 7519, section 3.2 of RFC 7518) carrying `sub`, `iat` and `exp`, the
  `Authorization: Bearer <token>` header, and the `Authenticated` wrapper;
- the request handlers: login, API access behind a token, the `owner`-label
  gate in front of instance state/start/stop, and the password-reset request
  and confirmation over the `password_reset` table;
- the password-reset e-mail text;
- the `instance-shutdown` and `register-group` commands;
- the earlier prototype server (`main.go`) with its fixed login table;
- the CORS middleware and its origin allowlist.

The database is a `Store.Database` object whose tables are sequences in
insertion order, and a single-row query is taken to return the first matching
row (an assumption, listed under "Left out"). The
HTTP response is an `Http.Response` object. It records the status (the first
write wins, as in net/http), the payloads, the header map, each run of the
wrapped handler, and a panic. bcrypt is symbolic: a hash records its secret
and salt, and it accepts a password exactly when the Eksblowfish key schedule
reads the same 72 bytes from both (the UTF-8 bytes and a zero byte, repeated).
So a secret of more than 72 bytes cannot be hashed, a 72-byte secret also
accepts every extension of itself, and only a shorter secret without U+0000 is
matched exactly. Strings are turned into bytes by a UTF-8 encoder. A JWT is symbolic too: its
signature records the algorithm, key and claims it covers, and serialisation
is an abstract `Codec` that `Tokens.Sound` requires to be invertible and
white-space free. The clock is a `now` parameter in Unix seconds. Every call
that can fail (the store, bcrypt, `crypto/rand`, the cloud provider, the mail
service) is a nondeterministic choice inside a small oracle method.

Module per file: `Options`, `Strings` (Go's `strings.Index` and
`strings.TrimSpace`), `Http`, `Bcrypt`, `Passwords`, `Tokens`, `Mailing`,
`Cors`, `Cloud`, `Store`, `Endpoints`, `InstanceShutdown`, `RegisterGroup`,
`Prototype`.

Where the upstream documentation and the code disagree, the model follows
the code:

- A reset request always inserts a new row (`hasExistingRequest` is never set). It never updates an earlier row, so an account can hold several rows.
- No login or password-reset events are written to the event log.
- An instance the provider cannot return (an unknown id included) is answered 500, not 401.
- A reset request whose mail was delivered sets no status, so the client sees 200.
- The prototype answers a malformed header with 400.

## Model

| member | source | states |
|---|---|---|
| Strings.Index | internal/mailing/mailing.go:14 | `strings.Index` for one character: -1 exactly when the character is absent, otherwise the position of its first occurrence |
| Strings.TrimSpace | internal/auth/auth.go:39 | the result is the slice of the input between its leading and trailing white space (Go's `unicode.IsSpace`), begins and ends with non-space, and equals the input when the input has no white space |
| Strings.TrimSpaceKeepsUnspacedEnds | internal/auth/auth.go:39 | a header that neither starts nor ends with white space is left unchanged by trimming |
| Strings.EncodeRune | internal/endpoints/endpoints.go:80 | the UTF-8 encoding of a rune in `[]byte(s)`: 1 to 4 bytes, a single byte exactly below U+0080, and no zero byte for a rune other than U+0000 |
| Strings.Bytes | internal/endpoints/endpoints.go:80 | `[]byte(s)`: the concatenated encodings of the runes; empty exactly for the empty string |
| Strings.NoZeroByte | internal/endpoints/endpoints.go:80 | a string without U+0000 has no zero byte |
| Strings.DecodeEncode | internal/endpoints/endpoints.go:80 | decoding inverts the encoding of every rune, and the lead byte announces the length |
| Strings.EncodeRuneInjective | internal/endpoints/endpoints.go:80 | an encoding followed by anything determines both the rune and the rest |
| Strings.BytesInjective | internal/endpoints/endpoints.go:80 | two strings with the same bytes are equal |
| Bcrypt.GenerateFromPassword | internal/endpoints/endpoints.go:240-245 | a hash that is produced records the secret and accepts it; a secret of more than 72 bytes always fails (`ErrPasswordTooLong`) |
| Bcrypt.ShortSecretVerifiesExactly | internal/endpoints/endpoints.go:80 | for a secret shorter than 72 bytes and passwords without U+0000, the hash accepts a password exactly when it is the secret |
| Bcrypt.FirstByteDiffers | internal/endpoints/endpoints.go:313 | a password whose first byte differs from the secret's is refused |
| Bcrypt.LongSecretAcceptsExtensions | internal/endpoints/endpoints.go:80 | only the first 72 bytes count: the hash of a secret of 72 bytes or more accepts that secret followed by anything |
| Bcrypt.ZeroRuneRepeatAccepted | internal/endpoints/endpoints.go:80 | a password holding U+0000 can match another secret: `s`, U+0000, `s` is accepted by the hash of `s` |
| Passwords.SufficientlyStrong | internal/auth/passwords.go:31-41 | the rune-collecting loop returns the rule: true exactly when the password has at least 8 distinct runes, false whenever its byte length is below 8 |
| Passwords.RunesAtMostLength | internal/auth/passwords.go:36-40 | a string has no more distinct runes than characters |
| Passwords.LengthAtMostBytes | internal/auth/passwords.go:33 | a string has no more characters than UTF-8 bytes (`len`) |
| Passwords.StrongIffEightRunes | internal/auth/passwords.go:33-40 | the byte-length guard is redundant: the rule holds exactly when there are at least 8 distinct runes |
| Passwords.StrongDependsOnlyOnRunes | internal/auth/passwords.go:36-40 | two passwords with the same set of runes get the same verdict, so repeating or reordering characters changes nothing |
| Passwords.StrongPreservedByAppend | internal/auth/passwords.go:36-40 | appending characters never turns a strong password into a weak one |
| Passwords.RunesBoundedBy | internal/auth/passwords.go:36-40 | a string drawn from the characters of `t` has at most `|t|` distinct runes |
| Passwords.AscendingRunes | internal/auth/passwords.go:36-40 | a strictly ascending string has as many distinct runes as characters |
| Passwords.TestVectorFoobar | internal/auth/passwords_test.go:10 | "foobar" is not strong |
| Passwords.TestVectorFooooooooooo | internal/auth/passwords_test.go:11 | "foooooooooo" is not strong |
| Passwords.TestVectorDigits | internal/auth/passwords_test.go:12 | "12345678" is strong |
| Passwords.TestVectorRepeatedFive | internal/auth/passwords_test.go:13 | "abcdeabcdeabcde" is not strong |
| Passwords.TestVectorFifteenLetters | internal/auth/passwords_test.go:14 | "abcdefghijklmno" is strong |
| Passwords.CodeRangeAt | internal/auth/passwords.go:12-20 | each append loop produces its code points `lo..hi` in ascending order |
| Passwords.AlphabetLayout | internal/auth/passwords.go:11-20 | the alphabet has 62 entries: digits at 0-9, `A`-`Z` at 10-35, `a`-`z` at 36-61 |
| Passwords.AlphabetIsAlnumAscending | internal/auth/passwords.go:11-20 | the alphabet is strictly ascending (its entries are distinct) and its members are exactly the ASCII letters and digits |
| Passwords.BuildAlphabet | internal/auth/passwords.go:11-20 | the three append loops build exactly the alphabet |
| Passwords.RandomPasswordAlnum | internal/auth/passwords.go:9-29 | on success the result has exactly `n` characters, each from the alphabet and so alphanumeric; a random-source failure is an error; the copy in internal/auth/auth.go:68-88 is the same code |
| Tokens.IssueToken | internal/auth/auth.go:25-35 | for a sound codec the token decodes to an HS512 token signed with the shared secret over `sub = username`, `iat = now`, `exp = now + 86400` |
| Tokens.Parse | internal/auth/auth.go:55-61 | a token is valid exactly when it decodes, is HS512, is signed with the secret over its claims, and has a numeric `exp` after `now`, a zero `exp` or none; an undecodable token is malformed, an unregistered `alg` unverifiable, any other registered `alg`, `none` included, a signature error, and Expired is answered exactly for a validly signed token past a non-zero `exp` |
| Tokens.Expiry | internal/auth/auth.go:55-61 | the expiry golang-jwt reads: present exactly for a non-zero numeric `exp`, with its value |
| Tokens.ZeroExpiryNeverExpires | internal/auth/auth.go:55-61 | a token signed with the secret whose `exp` is 0 is accepted at every time |
| Tokens.BearerMatch | internal/auth/auth.go:50-54 | for a header without line breaks, a match exists exactly when the header is the case-sensitive `Bearer ` followed by at least one character, and the token is that remainder |
| Tokens.ExtractSubject | internal/auth/auth.go:49-66 | a header that does not match is an error; an error always comes with an empty subject; success means the token parses, is signed with the secret, and the subject is its `sub` |
| Tokens.IssueThenExtract | internal/auth/auth.go:25-66 | round trip: `Bearer ` plus an issued token yields the user while `now < iat + 86400` (always, when `iat + 86400` is 0), and the error Expired otherwise |
| Tokens.IssuedHeaderIsTrimmed | internal/auth/auth.go:39 | the header of an issued token is unchanged by `TrimSpace` |
| Tokens.IssueThenAuthenticate | internal/auth/auth.go:37-47 | the trimmed header of an issued token passes `Authenticated` exactly while the token is live: before `exp`, or always when `exp` is 0 |
| Tokens.ForeignKeyRefused | internal/auth/auth.go:55-57 | a token signed with any key other than the shared secret is refused: as unverifiable under an unregistered `alg`, otherwise with a signature error |
| Tokens.Authenticated | internal/auth/auth.go:37-47 | the header is trimmed; the wrapped handler runs once exactly when a subject can be extracted, otherwise the answer is 401 and it never runs |
| Mailing.GreetingName | internal/mailing/mailing.go:14-15 | the greeting name is the part of the address before its first `@`; an address without `@` is excluded, since the slice panics |
| Mailing.ResetLink | internal/mailing/mailing.go:16 | the link is the fixed base URL followed by the token, unescaped |
| Mailing.CreatePasswordResetEmail | internal/mailing/mailing.go:13-23 | the message is the fixed template, with only the greeting name and the link at their places |
| Mailing.EmailIgnoresAccountId | internal/mailing/mailing.go:13-23 | the message does not depend on the account id |
| Mailing.TokenRecoverable | internal/mailing/mailing.go:16-22 | given the address, the token can be read back from the message between the link prefix and the closing text |
| Mailing.Postmark.Send | internal/mailing/mailing.go:33-60 | a message the service accepts is delivered once; a failure delivers nothing |
| Cors.CorsHeaders | internal/middleware/cors.go:8-21 | Allow-Origin is set, to the request's origin, exactly when the origin is one of the two allowlisted values; Allow-Headers, Allow-Methods and Allow-Credentials always get their fixed values; nothing else is set |
| Cors.MissingOriginNotAllowed | internal/middleware/cors.go:15-16 | a missing (empty) Origin never gets Allow-Origin |
| Cors.AllowCORS | internal/middleware/cors.go:13-29 | the CORS headers are added to the response; `OPTIONS` is answered 200 without the inner handler; any other method runs it exactly once, with the headers already set |
| Cloud.Provider.GetInstance | exoscale/exoscale.go:51-61 | a returned instance is the provider's instance with that id |
| Cloud.Provider.GetInstances | exoscale/exoscale.go:35-49 | a listing is returned exactly when the provider answers listings, and for a provider whose instances are keyed by their ids it holds each of them exactly once: every listed instance is the provider's instance of its id, the ids are distinct and every id is listed |
| Cloud.Provider.StartInstance | exoscale/exoscale.go:63-73 | one start request is recorded, with its outcome |
| Cloud.Provider.StopInstance | exoscale/exoscale.go:75-85 | one stop request is recorded, with its outcome |
| Store.FirstIndex | internal/endpoints/endpoints.go:72-75 | `QueryRow` semantics: the position of the first row that matches, or -1 exactly when no row matches |
| Store.First | internal/endpoints/endpoints.go:72-75 | the first matching row, which is in the table and matches; none exactly when no row matches |
| Store.AccountByName | internal/endpoints/endpoints.go:72-75 | an account row with that name, or none exactly when no row has it |
| Store.AccountByEmail | internal/endpoints/endpoints.go:210 | an account row with that email, or none exactly when no row has it |
| Store.ApiKeyFor | internal/endpoints/endpoints.go:39-44 | an api_key row whose tenant is the tenant of an account with that name, or none exactly when there is no such row |
| Store.FirstResetRow | internal/endpoints/endpoints.go:302 | a reset row of the account, or none exactly when it has none |
| Store.MaxCreated | internal/endpoints/endpoints.go:222 | `max(created)`: NULL exactly when no row of the account has a creation time, otherwise a creation time of one of its rows that no other row of the account exceeds |
| Store.WithPassword | internal/endpoints/endpoints.go:324 | the rows with that id get the new hash; every other row is unchanged, and the order is kept |
| Store.WithoutResets | internal/endpoints/endpoints.go:329 | exactly the rows of other accounts remain |
| Store.NextAccountId | internal/db/accounts.go:24-32 | the insert leaves the id to the `serial` column: the id handed out exceeds every existing id |
| Store.Database.InsertAccount | cmd/register-group/main.go:63-67 | the insert as register-group calls it, returning the new id: on success one account with a fresh id is appended; on failure the table is unchanged |
| Store.Database.InsertResetRow | internal/endpoints/endpoints.go:253 | on success one row is appended, with the account, the hash, `created = now`, and an id and expiry from the store; on failure nothing changes |
| Store.Database.UpdatePassword | internal/endpoints/endpoints.go:324-328 | on success the account's hash is overwritten; on failure nothing changes |
| Store.Database.DeleteResets | internal/endpoints/endpoints.go:329-331 | on success all reset rows of the account are deleted; on failure nothing changes |
| Store.Database.LogEvent | internal/db/events.go:25-40 | one event is appended to the log |
| Endpoints.GetAPIAccess | internal/endpoints/endpoints.go:37-49 | credentials of an api_key row of a tenant the user belongs to; none exactly when no such row exists |
| Endpoints.Access | internal/endpoints/endpoints.go:336-351 | the untrimmed header must yield a subject, then that user must have API access; the access found is for the token's subject |
| Endpoints.UntrimmedHeaderRefused | internal/endpoints/endpoints.go:337-338 | a header with a leading space never obtains API access, since the header is not trimmed |
| Endpoints.LoginThenAccess | internal/endpoints/endpoints.go:336-351 | a token from login opens the user's API access while it is live, and nothing after |
| Endpoints.LoginAcceptedIffHashOfPassword | internal/endpoints/endpoints.go:72-84 | when the stored secret is shorter than 72 bytes and neither it nor the password holds U+0000, login is accepted exactly when the first account of that name holds a hash made from the supplied password |
| Endpoints.LoginAcceptsLongerPassword | internal/endpoints/endpoints.go:72-84 | the account of a password of 72 bytes or more also logs in with that password followed by anything |
| Endpoints.InCooldownIffRecentRow | internal/endpoints/endpoints.go:222-226 | the cooldown holds exactly when some row of the account was created less than 5 minutes before `now` |
| Endpoints.CooldownAfterRequest | internal/endpoints/endpoints.go:222-226 | after a request inserts its row, every request within the next 5 minutes is in the cooldown |
| Endpoints.FirstIndexAgrees | internal/endpoints/endpoints.go:302 | two tables whose rows agree position by position on the condition have their first match at the same place |
| Endpoints.AccountByEmailAfterUpdate | internal/endpoints/endpoints.go:324 | overwriting a password changes which account an email resolves to in nothing |
| Endpoints.ConsumedTokenRefused | internal/endpoints/endpoints.go:302-307 | after the password is overwritten and the reset rows deleted, replaying a confirmation fails at the "no reset row" check |
| Endpoints.RequestThenConfirm | internal/endpoints/endpoints.go:287-317 | for an account without an earlier row, the row a request inserts accepts the mailed token, for a strong password and until it expires |
| Endpoints.ConfirmThenLogin | internal/endpoints/endpoints.go:324 | after the new hash is written, login with the new password succeeds for the account its name resolves to |
| Endpoints.FirstResetRowAfterAppend | internal/endpoints/endpoints.go:302 | appending rows never changes which row of an account is read first |
| Endpoints.LaterRequestTokenRefused | internal/endpoints/endpoints.go:246-258 | as written, the token of a later request is refused whenever the older row's hash does not verify it |
| Endpoints.SecondResetEmailRefused | internal/endpoints/endpoints.go:302 | concrete case: two requests ten minutes apart, and the token of the second e-mail is refused |
| Endpoints.WithResetToken | internal/endpoints/endpoints.go:247 | the update branch: every row of the account gets the new hash, and the other rows are unchanged |
| Endpoints.IntendedResetRows | internal/endpoints/endpoints.go:246-258 | the intended upsert: a new row only for an account without one, otherwise the same number of rows |
| Endpoints.IntendedRequestThenConfirm | internal/endpoints/endpoints.go:246-258 | under the upsert, the first row carries the latest token, and confirmation succeeds exactly for a strong password while that row has an id and has not expired |
| Endpoints.ResetEmail | internal/endpoints/endpoints.go:259-267 | the reset message goes from the service address to the requesting address, with the reset template as body |
| Endpoints.Stateful.Login | internal/endpoints/endpoints.go:60-97 | an unreadable body is 502; a missing account or a hash mismatch is 401; otherwise exactly one token for the user is written, with 200 |
| Endpoints.Stateful.RequestAPIAccess | internal/endpoints/endpoints.go:336-351 | the access decided by `Access`; none is answered 401 |
| Endpoints.Stateful.OwnedInstance | internal/endpoints/endpoints.go:119-135 | no access is 401 and asks nothing; an instance the provider does not return is 500; a returned instance whose `owner` label does not name the token's user is 401; a returned instance the user owns is handed on, exactly as the provider holds it, with nothing written |
| Endpoints.Stateful.GetInstanceState | internal/endpoints/endpoints.go:119-142 | the state of a returned instance the user owns is written, with 200; no access or a foreign instance is 401, an instance not returned 500, and nothing is written then |
| Endpoints.Stateful.StartInstance | internal/endpoints/endpoints.go:144-169 | the provider is asked to start the instance, exactly once, exactly when it returned the instance and the user owns it, and the answer is then 200 when it accepts and 500 when it refuses; otherwise no request is made and the answer is 401 or 500 as in the gate |
| Endpoints.Stateful.StopInstance | internal/endpoints/endpoints.go:171-196 | the provider is asked to stop the instance, exactly once, exactly when it returned the instance and the user owns it, and the answer is then 200 when it accepts and 500 when it refuses; otherwise no request is made and the answer is 401 or 500 as in the gate |
| Endpoints.Stateful.ResetPassword | internal/endpoints/endpoints.go:198-274 | a bad body is 400, an unknown email 201, a cooldown 429, all writing nothing; for a known account outside the cooldown either exactly one new row is added, holding a hash of a fresh 64-character alphanumeric token whose plaintext goes only into the e-mail, or the answer is 500 and no row is added; the success path leaves the status unset |
| Endpoints.Stateful.NewPassword | internal/endpoints/endpoints.go:275-334 | a request failing any check is 400 and writes nothing; a confirmed one overwrites the hash with one of the new password, then deletes the account's reset rows (a failed delete is ignored), and is 204; a hashing or update failure is 500, and a new password of more than 72 bytes always is |
| InstanceShutdown.SelectForShutdown | cmd/instance-shutdown/main.go:52-64 | the loop returns exactly the selection |
| InstanceShutdown.SelectionAppend | cmd/instance-shutdown/main.go:52-64 | the selection keeps the list order and visits each instance once |
| InstanceShutdown.SelectionMembers | cmd/instance-shutdown/main.go:53-64 | an id is selected exactly when an instance with that id is running and, with a label given, carries exactly the label value |
| InstanceShutdown.SelectedAreRunning | cmd/instance-shutdown/main.go:54-60 | only running instances are selected, and with a label only those carrying its value |
| InstanceShutdown.AllRunningWithoutLabel | cmd/instance-shutdown/main.go:61-63 | without a label every running instance is selected |
| InstanceShutdown.SelectionCount | cmd/instance-shutdown/main.go:52-64 | the number of ids equals the number of selected instances, so none is added twice |
| InstanceShutdown.SelectionOfListing | cmd/instance-shutdown/main.go:52-64 | over a complete listing, an id is selected exactly when the provider holds that instance and the rule selects it |
| InstanceShutdown.StopEventsExactly | cmd/instance-shutdown/main.go:66-72 | a stop event is logged exactly for the instances whose stop succeeded |
| InstanceShutdown.StopAll | cmd/instance-shutdown/main.go:66-72 | one stop request per id, in order; a refused stop does not end the loop; the log gains the stop events of the accepted ones |
| InstanceShutdown.ShutdownInstances | cmd/instance-shutdown/main.go:14-73 | the exit code is 0 exactly when the flags are consistent, the user has API access and an account, and the provider answers the listing; exit 1 stops and logs nothing; on 0 the listing holds each of the provider's instances once, and exactly its selection is sent one stop request each, in order, with one stop event per accepted stop |
| RegisterGroup.RegisterGroup | cmd/register-group/main.go:17-70 | an invalid role, an empty tenant or an unreadable file exit 1 before any account is touched; otherwise exit 0 and every user of the file gets one outcome, in file order: skipped exactly when its name is taken by an old account or an earlier created user, a generation failure only without a password flag, or created with the given or a fresh random 32-character password and one ACCOUNT_CREATED event; a failure skips only that user |
| RegisterGroup.RegisterUser | cmd/register-group/main.go:42-68 | one pass of the loop: a taken name is skipped, a failed generation, hash or insert skips the user with that outcome, and a created account with its event extends the registration invariant by exactly that user |
| RegisterGroup.TakenIffExisting | cmd/register-group/main.go:44-47 | at a user's turn, an account of its name exists exactly when the name is taken by an old account or an earlier created user |
| RegisterGroup.SkippedStep | cmd/register-group/main.go:49-67 | a skipped user records its outcome and changes nothing else |
| RegisterGroup.RegisteredStep | cmd/register-group/main.go:58-68 | a successful insert and its event keep the registration invariant |
| RegisterGroup.ExistingNameSkipped | cmd/register-group/main.go:44-47 | a user whose name an existing account has is skipped as taken and never gets an account, and the existing accounts stay as they were |
| RegisterGroup.FreshNameAttempted | cmd/register-group/main.go:42-69 | a user whose name neither an old account nor an earlier user has is not skipped as taken, and when created the table holds an account with its name and email |
| RegisterGroup.NewNamesDistinct | cmd/register-group/main.go:42-69 | the accounts created by one run have pairwise different names |
| Prototype.OnlyTwoLogins | main.go:22-25 | exactly two credentials are accepted: alice/topsecret and bob/mossecret |
| Prototype.Login | main.go:68-100 | an unreadable body is 502; credentials not in the table are 401; otherwise exactly one token for the user is written |
| Prototype.Auth | main.go:45-62 | a trimmed header that does not match is 400; a token that does not parse is 401; otherwise the protected handler runs once |
| Prototype.PrototypeAdmitsAuthenticated | main.go:45-62 | the prototype gate admits everything `Authenticated` admits, and more only for tokens whose `sub` is not a string |
| Prototype.PrototypeRoundTrip | main.go:45-62 | a token the prototype issues passes its own gate exactly while it is live: before `exp`, or always when `exp` is 0 |

## Left out

- JSON, base64url and the HMAC computation. A `Codec` stands for the serialisation and is only assumed sound.
- Logging to stderr and stdout, the HTTP mux, the server, configuration and connection pools. They do not affect any decision.
- Concurrency between handlers, including the race between two reset requests for one account.
- The `GetInstances` handler and `GetOwnInstances`. They are outside the ownership gate.
- The thin command-line programs (`cloud-castle`, `register-user`, `update-password`, `add-api-key`, `postmark-email`), and how `register-group` parses its YAML file. The parsed group is an input.
- Store.Database.LogEvent: a failed insert into event_log is only logged by the code; the model always appends, so the "exactly one event per success" properties assume the log write succeeds.
- The read queries whose error the code treats like "no row" are modelled as reliable: login, new password, shutdown, `getAPIAccess` (internal/endpoints/endpoints.go:37-49, where any error means no access), and register-group's existence check (cmd/register-group/main.go:44, where any read error, not only "no row", leads to an insert attempt). The two reads in the reset request that can fail with 500 are modelled as failing reads.
- A single-row query (`QueryRow` without ORDER BY, such as internal/endpoints/endpoints.go:302) is taken to return the first matching row in insertion order. The database promises no order, so which row is read is an assumption. The Finding below depends on it, and on the `password_reset` table allowing several rows per account; the schema is not part of this model.
- The `expires` default and the serial id of a reset row are chosen by the store. The model only says they are present.
- `created` is taken to be the time of the insert.
- Tokens.Parse: an `alg` header that is not a string (golang-jwt: unverifiable) is folded into a failed decoding (MalformedToken); NumericDates are whole seconds, with no leeway.
- Tokens.Parse: `iat` and `nbf` are not validated (golang-jwt validates `nbf` only when present, and the issued tokens carry none), and `aud` and `iss` are not modelled.
- Tokens.BearerMatch: under `CompilePOSIX` the anchors are line anchors. The model follows that exactly; the properties about the token assume a header without line breaks.
- The shipped `db` and `exoscale` files come from a different revision than their callers: the signatures of `InsertAccount`, `LogEvent` and `NewAPIAccess` and `api.Username` do not match. Each call is modelled as its call site uses it.
- Cloud.Provider.GetInstances: whether the provider answers a listing is a field of the provider (`listable`) rather than a fresh choice per call. The listing property needs the provider's instances to be keyed by their ids (`Provider.Valid`); the order of the listing is not modelled.
- Bcrypt: the cost, the hash version and the `$2a$` text format are not modelled; a hash column holding anything else is `Malformed` and accepts nothing.
- Http.Response: response headers are a map with one value per key, and the body is a sequence of payloads, not bytes.

## Findings

| source | as written | input that shows it | evidently intended | confidence | as-written member | corrected member |
|---|---|---|---|---|---|---|
| internal/endpoints/endpoints.go:221 | `hasExistingRequest` is never set, so every reset request inserts another row, while the confirmation reads only the first row of the account | two reset requests for one account 10 minutes apart; the token of the second e-mail is refused, because the first row's hash does not verify it | the existing row's token is replaced, so that the latest e-mail's token is the one accepted | medium, not executed; relies on the first-row assumption under "Left out" | Endpoints.SecondResetEmailRefused | Endpoints.IntendedRequestThenConfirm |

`Endpoints.Stateful.ResetPassword` keeps the insert-only behaviour, since it
models the code that runs. The corrected table update is
`Endpoints.IntendedResetRows`, built on the otherwise dead update branch
`Endpoints.WithResetToken`, and `Endpoints.IntendedRequestThenConfirm` proves
the intended property about it.

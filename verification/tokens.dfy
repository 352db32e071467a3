/**
 * The bearer-token gate of internal/auth/auth.go: JSON Web Tokens (RFC 7519)
 * carrying `sub`, `iat` and `exp`, signed with HS512 (section 3.2 of RFC 7518)
 * under one shared secret, and the `Authorization: Bearer <token>` header.
 *
 * Signing is modelled symbolically: a signature records the algorithm, the key
 * and the claims it covers, so it verifies only under the same algorithm and
 * key. Serialisation (base64url and JSON) is an abstract `Codec`.
 * Times are Unix seconds.
 */
module Tokens {
  import opened Options
  import opened Strings
  import opened Http

  const Secret := "utmostsecret"
  const HS512 := "HS512"
  /** The `alg` names golang-jwt registers a signing method for. */
  const RegisteredAlgorithms: set<string> := {
    "HS256", "HS384", "HS512", "RS256", "RS384", "RS512", "ES256", "ES384", "ES512",
    "PS256", "PS384", "PS512", "EdDSA", "none"}
  /** exp - iat of an issued token: 24 hours. */
  const Lifetime := 24 * 60 * 60
  const Scheme := "Bearer "

  /** A claim that should hold a string: missing, a string, or some other JSON value. */
  datatype StringClaim = NoText | Text(text: string) | NotText
  /** A claim that should hold a NumericDate: missing, a number, or some other JSON value. */
  datatype NumericClaim = NoNumber | Number(seconds: int) | NotNumber

  datatype Claims = Claims(sub: StringClaim, iat: NumericClaim, exp: NumericClaim)

  /** `Unsigned` is the empty signature of `alg: none`; `Mac` is an HMAC over the claims. */
  datatype Signature = Unsigned | Mac(alg: string, key: string, claims: Claims)

  /** A decoded token: the header's `alg`, the claims, and the signature. */
  datatype Jwt = Jwt(alg: string, claims: Claims, signature: Signature)

  /** The compact serialisation, left abstract. */
  datatype Codec = Codec(encode: Jwt -> string, decode: string -> Option<Jwt>)

  /**
   * What the serialisation guarantees: decoding inverts encoding, and an encoded
   * token is non-empty and has no white space (it is base64url text and dots).
   */
  ghost predicate Sound(codec: Codec) {
    forall t: Jwt {:trigger codec.encode(t)} ::
      && codec.decode(codec.encode(t)) == Some(t)
      && codec.encode(t) != []
      && forall k :: 0 <= k < |codec.encode(t)| ==> !IsSpace(codec.encode(t)[k])
  }

  datatype TokenError =
    | MalformedHeader    // the header does not match ^Bearer (.+)$
    | MalformedToken     // the token does not decode
    | Unverifiable       // alg names no registered signing method
    | SignatureInvalid   // alg is registered but not HS512, or the HMAC does not verify under the secret
    | ClaimsInvalid      // exp is not a number, or sub is not a string
    | Expired            // now is not before exp

  /** The token carries an HS512 signature made with the shared secret over exactly its claims. */
  predicate SignedBySecret(t: Jwt) {
    t.alg == HS512 && t.signature == Mac(HS512, Secret, t.claims)
  }

  /** The claims `IssueToken` puts in a token for `username` issued at `now`. */
  function IssuedClaims(username: string, now: int): Claims {
    Claims(Text(username), Number(now), Number(now + Lifetime))
  }

  /** `IssueToken(username)` at time `now`. Signing with a byte-slice key cannot fail, so no error is modelled. */
  function IssueToken(codec: Codec, username: string, now: int): (token: string)
    ensures Sound(codec) ==>
      && codec.decode(token).Some?
      && SignedBySecret(codec.decode(token).value)
      && codec.decode(token).value.claims.sub == Text(username)
      && codec.decode(token).value.claims.iat == Number(now)
      && codec.decode(token).value.claims.exp == Number(now + Lifetime)
  {
    var claims := IssuedClaims(username, now);
    codec.encode(Jwt(HS512, claims, Mac(HS512, Secret, claims)))
  }

  datatype Parsed = Valid(claims: Claims) | Invalid(error: TokenError)

  /** The expiry golang-jwt reads from `exp`: a NumericDate of 0 counts as no `exp` at all. */
  function Expiry(exp: NumericClaim): (e: Option<int>)
    ensures e.Some? <==> exp.Number? && exp.seconds != 0
    ensures e.Some? ==> e.value == exp.seconds
  {
    if exp.Number? && exp.seconds != 0 then Some(exp.seconds) else None
  }

  /**
   * `jwt.Parse(token, key = secret, WithValidMethods([HS512]))`: decode, look the
   * algorithm up among the registered ones, refuse any registered one other than
   * HS512 (`none` included), verify the signature, then validate `exp` when
   * present and not 0. `iat` is not validated.
   */
  function Parse(codec: Codec, token: string, now: int): (r: Parsed)
    ensures r.Valid? <==>
      && codec.decode(token).Some?
      && SignedBySecret(codec.decode(token).value)
      && !codec.decode(token).value.claims.exp.NotNumber?
      && var e := Expiry(codec.decode(token).value.claims.exp);
        e.Some? ==> now < e.value
    ensures r.Valid? ==> r.claims == codec.decode(token).value.claims
    ensures codec.decode(token).None? ==> r == Invalid(MalformedToken)
    ensures codec.decode(token).Some? && codec.decode(token).value.alg !in RegisteredAlgorithms ==>
      r == Invalid(Unverifiable)
    ensures (codec.decode(token).Some? && codec.decode(token).value.alg in RegisteredAlgorithms
             && codec.decode(token).value.alg != HS512) ==> r == Invalid(SignatureInvalid)
    ensures r == Invalid(Expired) <==>
      && codec.decode(token).Some?
      && SignedBySecret(codec.decode(token).value)
      && var e := Expiry(codec.decode(token).value.claims.exp);
        e.Some? && now >= e.value
  {
    match codec.decode(token)
    case None => Invalid(MalformedToken)
    case Some(t) =>
      if t.alg !in RegisteredAlgorithms then Invalid(Unverifiable)
      else if t.alg != HS512 then Invalid(SignatureInvalid)
      else if t.signature != Mac(HS512, Secret, t.claims) then Invalid(SignatureInvalid)
      else if t.claims.exp.NotNumber? then Invalid(ClaimsInvalid)
      else
        var e := Expiry(t.claims.exp);
        if e.Some? && now >= e.value then Invalid(Expired)
        else Valid(t.claims)
  }

  /** A token signed with the secret whose `exp` is 0 never expires: it is accepted at every time. */
  lemma ZeroExpiryNeverExpires(codec: Codec, sub: StringClaim, iat: NumericClaim, now: int)
    requires Sound(codec)
    ensures var claims := Claims(sub, iat, Number(0));
      Parse(codec, codec.encode(Jwt(HS512, claims, Mac(HS512, Secret, claims))), now) == Valid(claims)
  {
    var claims := Claims(sub, iat, Number(0));
    assert codec.decode(codec.encode(Jwt(HS512, claims, Mac(HS512, Secret, claims)))) == Some(Jwt(HS512, claims, Mac(HS512, Secret, claims)));
  }

  /**
   * The token of a header under `^Bearer (.+)$` compiled POSIX: `^` and `$` match at
   * line boundaries and `.` never matches a line break, so the match is the first
   * line that starts with `Bearer ` followed by at least one character; the token
   * is the rest of that line.
   */
  function BearerMatch(authorization: string): (token: Option<string>)
    ensures token.Some? ==> token.value != [] && '\n' !in token.value
    ensures '\n' !in authorization ==>
      (token.Some? <==> |authorization| > |Scheme| && authorization[..|Scheme|] == Scheme)
    ensures '\n' !in authorization && token.Some? ==> authorization == Scheme + token.value
    decreases |authorization|
  {
    var e := Index(authorization, '\n');
    var line := if e == -1 then authorization else authorization[..e];
    if |line| > |Scheme| && line[..|Scheme|] == Scheme then
      assert authorization == line + authorization[|line|..];
      Some(line[|Scheme|..])
    else if e == -1 then None
    else BearerMatch(authorization[e + 1..])
  }

  /** Go's `(subject, err)` pair. */
  datatype Subject = Subject(name: string, err: Option<TokenError>)

  /** `token.Claims.GetSubject()`: a missing `sub` reads as "" without error. */
  function SubjectClaim(sub: StringClaim): Subject {
    match sub
    case NoText => Subject("", None)
    case Text(s) => Subject(s, None)
    case NotText => Subject("", Some(ClaimsInvalid))
  }

  /** `ExtractSubject(authorization)` at time `now`. */
  function ExtractSubject(codec: Codec, authorization: string, now: int): (r: Subject)
    ensures r.err.Some? ==> r.name == ""
    ensures BearerMatch(authorization).None? ==> r.err == Some(MalformedHeader)
    ensures r.err.None? ==>
      && BearerMatch(authorization).Some?
      && Parse(codec, BearerMatch(authorization).value, now).Valid?
      && codec.decode(BearerMatch(authorization).value).Some?
      && SignedBySecret(codec.decode(BearerMatch(authorization).value).value)
      && r == SubjectClaim(codec.decode(BearerMatch(authorization).value).value.claims.sub)
  {
    match BearerMatch(authorization)
    case None => Subject("", Some(MalformedHeader))
    case Some(token) =>
      match Parse(codec, token, now)
      case Invalid(e) => Subject("", Some(e))
      case Valid(claims) => SubjectClaim(claims.sub)
  }

  /**
   * An issued token is live at `now` while `now` is before its `exp`, and for
   * ever when `exp` happens to be 0 (a token issued at -Lifetime).
   */
  predicate Live(iat: int, now: int) {
    iat + Lifetime == 0 || now < iat + Lifetime
  }

  /**
   * Round trip: presenting an issued token as `Bearer <token>` yields its user
   * while it is live, and the error Expired from then on.
   */
  lemma IssueThenExtract(codec: Codec, username: string, iat: int, now: int)
    requires Sound(codec)
    ensures Live(iat, now) ==>
      ExtractSubject(codec, Scheme + IssueToken(codec, username, iat), now) == Subject(username, None)
    ensures !Live(iat, now) ==>
      ExtractSubject(codec, Scheme + IssueToken(codec, username, iat), now) == Subject("", Some(Expired))
  {
    var claims := IssuedClaims(username, iat);
    var jwt := Jwt(HS512, claims, Mac(HS512, Secret, claims));
    var token := IssueToken(codec, username, iat);
    assert token == codec.encode(jwt);
    assert codec.decode(token) == Some(jwt) && token != [];
    assert '\n' !in token by {
      assert forall k :: 0 <= k < |token| ==> !IsSpace(token[k]);
    }
    var header := Scheme + token;
    assert '\n' !in header by {
      assert forall i :: 0 <= i < |header| ==> header[i] == (if i < |Scheme| then Scheme[i] else token[i - |Scheme|]);
    }
    assert header[..|Scheme|] == Scheme;
    assert BearerMatch(header) == Some(token);
  }

  /** The header `Bearer <token>` of an issued token is left as it is by trimming. */
  lemma IssuedHeaderIsTrimmed(codec: Codec, username: string, iat: int)
    requires Sound(codec)
    ensures TrimSpace(Scheme + IssueToken(codec, username, iat)) == Scheme + IssueToken(codec, username, iat)
  {
    var claims := IssuedClaims(username, iat);
    var token := IssueToken(codec, username, iat);
    assert token == codec.encode(Jwt(HS512, claims, Mac(HS512, Secret, claims)));
    var header := Scheme + token;
    assert header[0] == 'B' && header[|header| - 1] == token[|token| - 1];
    TrimSpaceKeepsUnspacedEnds(header);
  }

  /** The round trip through `Authenticated`, which trims the header first. */
  lemma IssueThenAuthenticate(codec: Codec, username: string, iat: int, now: int)
    requires Sound(codec)
    ensures ExtractSubject(codec, TrimSpace(Scheme + IssueToken(codec, username, iat)), now).err.None? <==> Live(iat, now)
  {
    var header := Scheme + IssueToken(codec, username, iat);
    IssuedHeaderIsTrimmed(codec, username, iat);
    assert ExtractSubject(codec, TrimSpace(header), now) == ExtractSubject(codec, header, now);
    IssueThenExtract(codec, username, iat, now);
  }

  /**
   * A token signed with any key other than the shared secret is refused, whatever
   * it claims: as unverifiable when its algorithm is not registered, otherwise
   * for its signature.
   */
  lemma ForeignKeyRefused(codec: Codec, authorization: string, now: int, t: Jwt, key: string)
    requires BearerMatch(authorization).Some? && codec.decode(BearerMatch(authorization).value) == Some(t)
    requires t.signature == Mac(t.alg, key, t.claims) && key != Secret
    ensures ExtractSubject(codec, authorization, now) ==
      Subject("", Some(if t.alg in RegisteredAlgorithms then SignatureInvalid else Unverifiable))
  {
  }

  /**
   * `Authenticated(handler)`: the header is trimmed of surrounding white space; the
   * wrapped handler runs exactly when a subject can be extracted, otherwise the
   * answer is 401 and the handler never runs.
   */
  method Authenticated(w: Response, codec: Codec, authorization: string, now: int)
    modifies w
    ensures var ok := ExtractSubject(codec, TrimSpace(authorization), now).err.None?;
      && (ok ==> w.dispatched == old(w.dispatched) + [old(w.header)] && w.code == old(w.code))
      && (!ok ==> w.dispatched == old(w.dispatched) && w.code == Written(old(w.code), StatusUnauthorized))
    ensures w.body == old(w.body) && w.header == old(w.header) && w.aborted == old(w.aborted)
  {
    var subject := ExtractSubject(codec, TrimSpace(authorization), now);
    if subject.err.Some? {
      w.WriteHeader(StatusUnauthorized);
      return;
    }
    w.Dispatch();
  }
}

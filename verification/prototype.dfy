/**
 * The prototype server of main.go: a login against a fixed in-memory table of
 * plaintext passwords, and an `auth` middleware that only checks the header
 * form and the token, without reading its subject.
 */
module Prototype {
  import opened Options
  import opened Http
  import opened Strings
  import opened Tokens
  import Endpoints

  /** The `logins` table: user name to plaintext password. */
  const Logins: map<string, string> := map["alice" := "topsecret", "bob" := "mossecret"]

  predicate LoginAccepted(req: Endpoints.LoginRequest) {
    req.username in Logins && Logins[req.username] == req.password
  }

  /** Exactly two credentials are accepted. */
  lemma OnlyTwoLogins(req: Endpoints.LoginRequest)
    ensures LoginAccepted(req) <==>
      req == Endpoints.LoginRequest("alice", "topsecret") || req == Endpoints.LoginRequest("bob", "mossecret")
  {
    if LoginAccepted(req) {
      assert req.username == "alice" || req.username == "bob";
    }
  }

  /** `login`: 502 for an unreadable body, 401 for refused credentials, otherwise a fresh token for the user. */
  method Login(w: Response, codec: Codec, body: Option<Endpoints.LoginRequest>, now: int)
    modifies w
    ensures body.None? ==> w.code == Written(old(w.code), StatusBadGateway) && w.body == old(w.body)
    ensures body.Some? && !LoginAccepted(body.value) ==>
      w.code == Written(old(w.code), StatusUnauthorized) && w.body == old(w.body)
    ensures body.Some? && LoginAccepted(body.value) ==>
      w.code == Written(old(w.code), StatusOK)
      && w.body == old(w.body) + [TokenPayload(IssueToken(codec, body.value.username, now))]
    ensures w.header == old(w.header) && w.dispatched == old(w.dispatched) && w.aborted == old(w.aborted)
  {
    if body.None? {
      w.WriteHeader(StatusBadGateway);
      return;
    }
    var req := body.value;
    if req.username in Logins && Logins[req.username] == req.password {
      var token := IssueToken(codec, req.username, now);
      w.Write(TokenPayload(token));
    } else {
      w.WriteHeader(StatusUnauthorized);
    }
  }

  /** What `auth` lets through: a trimmed header of the bearer form whose token parses. */
  predicate Admits(codec: Codec, authorization: string, now: int) {
    var token := BearerMatch(TrimSpace(authorization));
    token.Some? && Parse(codec, token.value, now).Valid?
  }

  /**
   * `auth(handler)`: a header not of the bearer form is answered 400 (not 401), a
   * token that does not parse 401; otherwise the protected handler runs, once.
   */
  method Auth(w: Response, codec: Codec, authorization: string, now: int)
    modifies w
    ensures BearerMatch(TrimSpace(authorization)).None? ==>
      w.code == Written(old(w.code), StatusBadRequest) && w.dispatched == old(w.dispatched)
    ensures BearerMatch(TrimSpace(authorization)).Some? && !Admits(codec, authorization, now) ==>
      w.code == Written(old(w.code), StatusUnauthorized) && w.dispatched == old(w.dispatched)
    ensures Admits(codec, authorization, now) ==>
      w.code == old(w.code) && w.dispatched == old(w.dispatched) + [old(w.header)]
    ensures w.body == old(w.body) && w.header == old(w.header) && w.aborted == old(w.aborted)
  {
    var trimmed := TrimSpace(authorization);
    var token := BearerMatch(trimmed);
    if token.None? {
      w.WriteHeader(StatusBadRequest);
      return;
    }
    var parsed := Parse(codec, token.value, now);
    if parsed.Invalid? {
      w.WriteHeader(StatusUnauthorized);
      return;
    }
    w.Dispatch();
  }

  /**
   * The prototype gate admits everything `Authenticated` admits, and differs from
   * it only on tokens whose `sub` is not a string, which it does not read.
   */
  lemma PrototypeAdmitsAuthenticated(codec: Codec, authorization: string, now: int)
    ensures ExtractSubject(codec, TrimSpace(authorization), now).err.None? ==> Admits(codec, authorization, now)
    ensures Admits(codec, authorization, now) && ExtractSubject(codec, TrimSpace(authorization), now).err.Some? ==>
      var token := BearerMatch(TrimSpace(authorization)).value;
      codec.decode(token).Some? && codec.decode(token).value.claims.sub.NotText?
  {
  }

  /** A token the prototype issues passes its own gate exactly until it expires. */
  lemma PrototypeRoundTrip(codec: Codec, username: string, iat: int, now: int)
    requires Sound(codec)
    ensures Admits(codec, Scheme + IssueToken(codec, username, iat), now) <==> Live(iat, now)
  {
    IssuedHeaderIsTrimmed(codec, username, iat);
    IssueThenExtract(codec, username, iat, now);
  }
}

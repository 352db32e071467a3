/**
 * The CORS middleware of internal/middleware/cors.go: an origin allowlist in
 * the style of the CORS protocol of the WHATWG Fetch standard, fixed
 * Allow-Headers/Methods/Credentials values, and a short-circuit for `OPTIONS`.
 */
module Cors {
  import opened Http

  const AllowedOrigins: seq<string> := ["http://localhost:4200", "https://app.cloud-castle.ch"]

  const AllowOrigin := "Access-Control-Allow-Origin"
  const AllowHeaders := "Access-Control-Allow-Headers"
  const AllowMethods := "Access-Control-Allow-Methods"
  const AllowCredentials := "Access-Control-Allow-Credentials"

  /**
   * The header entries the middleware sets for a request whose `Origin` header is
   * `origin` (`r.Header.Get` gives "" when the header is missing).
   */
  function CorsHeaders(origin: string): (h: map<string, string>)
    ensures AllowOrigin in h <==> origin in AllowedOrigins
    ensures AllowOrigin in h ==> h[AllowOrigin] == origin
    ensures AllowHeaders in h && h[AllowHeaders] == "Authorization, Content-Type"
    ensures AllowMethods in h && h[AllowMethods] == "GET, POST, OPTIONS"
    ensures AllowCredentials in h && h[AllowCredentials] == "true"
    ensures h.Keys <= {AllowOrigin, AllowHeaders, AllowMethods, AllowCredentials}
  {
    var fixed := map[
      AllowHeaders := "Authorization, Content-Type",
      AllowMethods := "GET, POST, OPTIONS",
      AllowCredentials := "true"];
    if origin in AllowedOrigins then fixed[AllowOrigin := origin] else fixed
  }

  /** A request without an Origin header never gets Access-Control-Allow-Origin. */
  lemma MissingOriginNotAllowed()
    ensures AllowOrigin !in CorsHeaders("")
  {
    assert AllowedOrigins[0] != "" && AllowedOrigins[1] != "";
  }

  /**
   * `AllowCORS(h)` serving one request: the headers are set first; `OPTIONS` is
   * answered 200 without running the wrapped handler, any other method runs it
   * exactly once, with the CORS headers already in place.
   */
  method AllowCORS(w: Response, origin: string, httpMethod: string)
    modifies w
    ensures w.header == old(w.header) + CorsHeaders(origin)
    ensures httpMethod == "OPTIONS" ==>
      w.code == Written(old(w.code), StatusOK) && w.dispatched == old(w.dispatched)
    ensures httpMethod != "OPTIONS" ==>
      w.code == old(w.code) && w.dispatched == old(w.dispatched) + [old(w.header) + CorsHeaders(origin)]
    ensures w.body == old(w.body) && w.aborted == old(w.aborted)
  {
    if origin in AllowedOrigins {
      w.SetHeader(AllowOrigin, origin);
    }
    w.SetHeader(AllowHeaders, "Authorization, Content-Type");
    w.SetHeader(AllowMethods, "GET, POST, OPTIONS");
    w.SetHeader(AllowCredentials, "true");
    assert w.header == old(w.header) + CorsHeaders(origin);
    if httpMethod == "OPTIONS" {
      w.WriteHeader(StatusOK);
      return;
    }
    w.Dispatch();
  }
}

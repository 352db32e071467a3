/**
 * The HTTP side of a handler: the status codes the backend answers with and a
 * model of Go's `http.ResponseWriter` for one request.
 */
module Http {
  import opened Options

  const StatusOK := 200
  const StatusCreated := 201
  const StatusNoContent := 204
  const StatusBadRequest := 400
  const StatusUnauthorized := 401
  const StatusTooManyRequests := 429
  const StatusInternalServerError := 500
  const StatusBadGateway := 502

  /** The status after a write of `status`: the first write wins. */
  function Written(prior: Option<int>, status: int): Option<int> {
    if prior.None? then Some(status) else prior
  }

  /** A body a handler writes. The JSON encoding around it is not modelled. */
  datatype Payload =
    | TokenPayload(token: string)   // {"token": ...}
    | StatePayload(state: string)   // {"state": ...}

  /**
   * The response to one request.
   *  - `code`: the status fixed by the first `WriteHeader`, or by the first `Write` (200);
   *    later calls to `WriteHeader` are ignored, as net/http ignores them.
   *  - `body`: the payloads written, in order.
   *  - `header`: the response header map.
   *  - `dispatched`: one entry per call of the wrapped (inner) handler, holding the
   *    header map as it was when that handler ran.
   *  - `aborted`: the handler panicked; net/http drops the connection.
   */
  class Response {
    var code: Option<int>
    var body: seq<Payload>
    var header: map<string, string>
    var dispatched: seq<map<string, string>>
    var aborted: bool

    constructor ()
      ensures code == None && body == [] && header == map[] && dispatched == [] && !aborted
    {
      code := None;
      body := [];
      header := map[];
      dispatched := [];
      aborted := false;
    }

    /** The status the client receives: 200 when the handler wrote nothing. */
    function Status(): int
      reads this
    {
      code.GetOr(StatusOK)
    }

    method WriteHeader(status: int)
      modifies this
      ensures code == Written(old(code), status)
      ensures body == old(body) && header == old(header)
      ensures dispatched == old(dispatched) && aborted == old(aborted)
    {
      if code.None? {
        code := Some(status);
      }
    }

    method Write(p: Payload)
      modifies this
      ensures code == Written(old(code), StatusOK)
      ensures body == old(body) + [p] && header == old(header)
      ensures dispatched == old(dispatched) && aborted == old(aborted)
    {
      if code.None? {
        code := Some(StatusOK);
      }
      body := body + [p];
    }

    /** `w.Header().Set(key, value)`. */
    method SetHeader(key: string, value: string)
      modifies this
      ensures header == old(header)[key := value]
      ensures code == old(code) && body == old(body)
      ensures dispatched == old(dispatched) && aborted == old(aborted)
    {
      header := header[key := value];
    }

    /** The wrapped handler runs with this writer. */
    method Dispatch()
      modifies this
      ensures dispatched == old(dispatched) + [old(header)]
      ensures code == old(code) && body == old(body) && header == old(header) && aborted == old(aborted)
    {
      dispatched := dispatched + [header];
    }

    /** The handler panicked. */
    method Abort()
      modifies this
      ensures aborted
      ensures code == old(code) && body == old(body) && header == old(header) && dispatched == old(dispatched)
    {
      aborted := true;
    }
  }
}

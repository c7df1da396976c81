/** The request handler of main.go: it rebuilds the inbound request for the
    target, forwards it and relays the answer. The HTTP library calls it makes
    are parameters here: whether building the outbound request fails, and
    what the transport answers to the request it is given. */
module Proxy {
  import opened HttpHeader

  datatype Option<T> = None | Some(value: T)

  /** A Go `(value, error)` pair: an error message, or a value. */
  datatype Result<T> = Failure(err: string) | Success(value: T)

  /** A request as the handler sees it: method (`verb`), URL, header and body. */
  datatype Request = Request(verb: string, url: string, header: Header, body: seq<bv8>)

  /** An answer of the target server. */
  datatype Response = Response(statusCode: int, header: Header, body: seq<bv8>)

  /** What the handler writes: an error through `http.Error`, or the
      target's status, header and body. */
  datatype Reply =
    | ErrorReply(status: int, message: string)
    | Relayed(status: int, header: Header, body: seq<bv8>)

  /** The reply and the request sent to the target, if one was sent. */
  datatype Exchange = Exchange(reply: Reply, outbound: Option<Request>)

  const StatusInternalServerError := 500
  const StatusBadGateway := 502
  const BuildFailedMessage := "Failed to create new request"
  const ConnectFailedPrefix := "Error connecting to target server: "

  /** The effect of one call of the handler. */
  ghost function Handle(r: Request, newRequestFails: bool, roundTrip: Request -> Result<Response>): Exchange
  {
    if newRequestFails then Exchange(ErrorReply(StatusInternalServerError, BuildFailedMessage), None)
    else
      var out := Request(r.verb, r.url, Forwarded(r.header), r.body);
      match roundTrip(out)
      case Failure(err) => Exchange(ErrorReply(StatusBadGateway, ConnectFailedPrefix + err), Some(out))
      case Success(resp) => Exchange(Relayed(resp.statusCode, Appended(map[], resp.header), resp.body), Some(out))
  }

  /** proxyHandler: when the outbound request cannot be built the client gets
      500 and nothing is sent; otherwise the inbound method, URL and body go
      out with the filtered header, a transport error gives 502, and an
      answer is relayed with its status, its whole header and its body. */
  method ProxyHandler(r: Request, newRequestFails: bool, roundTrip: Request -> Result<Response>)
    returns (x: Exchange)
    ensures x == Handle(r, newRequestFails, roundTrip)
  {
    if newRequestFails {
      return Exchange(ErrorReply(StatusInternalServerError, BuildFailedMessage), None);
    }
    var header := ForwardRequestHeaders(r.header);
    var out := Request(r.verb, r.url, header, r.body);
    var result := roundTrip(out);
    if result.Failure? {
      return Exchange(ErrorReply(StatusBadGateway, ConnectFailedPrefix + result.err), Some(out));
    }
    var resp := result.value;
    var relayed := CopyResponseHeaders(map[], resp.header);
    x := Exchange(Relayed(resp.statusCode, relayed, resp.body), Some(out));
  }

  // ---------------------------------------------------------------------
  // Properties of the handler

  /** The handler writes an error of its own exactly when building or
      sending the outbound request fails: 500 for the first, 502 for the
      second; nothing is sent after a failed build. */
  lemma ErrorStatuses(r: Request, newRequestFails: bool, roundTrip: Request -> Result<Response>)
    ensures var x := Handle(r, newRequestFails, roundTrip);
      && (x.outbound == None <==> newRequestFails)
      && (x.reply.ErrorReply? && x.reply.status == StatusInternalServerError <==> newRequestFails)
      && (x.reply.ErrorReply? && x.reply.status == StatusBadGateway <==>
            !newRequestFails && roundTrip(x.outbound.value).Failure?)
      && (x.reply.Relayed? <==> !newRequestFails && roundTrip(x.outbound.value).Success?)
  {
  }

  /** The request sent to the target keeps the inbound method, URL and body;
      its header has none of the seven hop-by-hop names and every other
      inbound name with all of its values in order. */
  lemma OutboundRequest(r: Request, newRequestFails: bool, roundTrip: Request -> Result<Response>)
    requires Handle(r, newRequestFails, roundTrip).outbound.Some?
    ensures var out := Handle(r, newRequestFails, roundTrip).outbound.value;
      && out.verb == r.verb && out.url == r.url && out.body == r.body
      && (forall n :: IsHopByHop(n) ==> n !in out.header)
      && (forall n :: n in r.header && !IsHopByHop(n) && r.header[n] != [] ==>
            n in out.header && out.header[n] == r.header[n])
      && (forall n :: n in out.header ==> n in r.header && out.header[n] == r.header[n])
  {
  }

  /** A relayed answer carries the target's status and body, and every
      header name of the answer with values (hop-by-hop names included)
      with all of its values in order. */
  lemma RelayedResponse(r: Request, newRequestFails: bool, roundTrip: Request -> Result<Response>)
    requires Handle(r, newRequestFails, roundTrip).reply.Relayed?
    ensures var x := Handle(r, newRequestFails, roundTrip);
      var resp := roundTrip(x.outbound.value).value;
      && x.reply.status == resp.statusCode && x.reply.body == resp.body
      && (forall n :: n in resp.header && resp.header[n] != [] ==>
            n in x.reply.header && x.reply.header[n] == resp.header[n])
      && (forall n :: n in x.reply.header ==> n in resp.header && x.reply.header[n] == resp.header[n])
  {
    var x := Handle(r, newRequestFails, roundTrip);
    var resp := roundTrip(x.outbound.value).value;
    AppendedKeepsAll(map[], resp.header);
  }
}

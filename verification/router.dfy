/** The request handling of the edge app's entry point: answer
    `/robots.txt` locally; otherwise point the request at the origin host,
    ask for an uncompressed body, send it to the origin backend, rewrite a
    200 response's HTML and pass any other response through as it came. */
module Router {
  import opened Results

  /** A header name has no upper-case ASCII letter: HTTP header names are
      case-insensitive and the platform normalises them to lower case, so
      comparing normalised names is comparing names case-insensitively. */
  predicate LowerCaseName(name: string)
  {
    forall i :: 0 <= i < |name| ==> !('A' <= name[i] <= 'Z')
  }

  type HeaderName = name: string | LowerCaseName(name)

  /** A header name maps to all of its values, in order. */
  type HeaderMap = map<HeaderName, seq<string>>

  datatype Request = Request(path: string, headers: HeaderMap)

  datatype Response = Response(status: nat, headers: HeaderMap, body: string)

  /** A failure reported by the platform when sending to a backend. */
  datatype SendError = SendError(reason: string)

  const RobotsPath: string := "/robots.txt"
  const RobotsBody: string := "User-agent: *\nDisallow: /"
  const StatusOk: nat := 200
  const HostHeader: HeaderName := "host"
  const AcceptEncodingHeader: HeaderName := "accept-encoding"
  const OriginHost: string := "example.com"
  const OriginBackend: string := "example_com"

  /** The fixed answer to a robots.txt request. */
  function RobotsResponse(): (r: Response)
    ensures r.status == StatusOk && r.body == RobotsBody && r.headers == map[]
  {
    Response(StatusOk, map[], RobotsBody)
  }

  /** Sets a header to a single value, replacing any values it had. */
  function SetHeader(req: Request, name: HeaderName, value: string): (r: Request)
    ensures r.path == req.path
    ensures name in r.headers && r.headers[name] == [value]
    ensures forall n :: n != name ==> (n in r.headers <==> n in req.headers)
    ensures forall n :: n != name && n in req.headers ==> r.headers[n] == req.headers[n]
  {
    req.(headers := req.headers[name := [value]])
  }

  /** Removes every value of a header. */
  function RemoveHeader(req: Request, name: HeaderName): (r: Request)
    ensures r.path == req.path
    ensures name !in r.headers
    ensures forall n :: n != name ==> (n in r.headers <==> n in req.headers)
    ensures forall n :: n != name && n in req.headers ==> r.headers[n] == req.headers[n]
  {
    req.(headers := req.headers - {name})
  }

  /** The request as it is sent to the origin: Host is the origin's host
      name, Accept-Encoding is gone, and the path and every other header are
      those of the incoming request. */
  function BackendRequest(req: Request): (r: Request)
    ensures r.path == req.path
    ensures HostHeader in r.headers && r.headers[HostHeader] == [OriginHost]
    ensures AcceptEncodingHeader !in r.headers
    ensures forall n :: n != HostHeader && n != AcceptEncodingHeader ==>
              (n in r.headers <==> n in req.headers)
    ensures forall n :: n != HostHeader && n != AcceptEncodingHeader && n in req.headers ==>
              r.headers[n] == req.headers[n]
  {
    RemoveHeader(SetHeader(req, HostHeader, OriginHost), AcceptEncodingHeader)
  }

  /** Which way a request went. Robots carries no sent request: the origin is
      not contacted for it. */
  datatype Outcome =
    | Robots(resp: Response)
    | SendFailed(sent: Request, error: SendError)
    | Rewritten(sent: Request, origin: Response)
    | PassThrough(sent: Request, resp: Response)

  /** The routing decision; `send` stands for sending a request to a named
      backend and waiting for its response. */
  function Route(req: Request, send: (string, Request) -> Result<Response, SendError>): (o: Outcome)
    ensures o.Robots? <==> req.path == RobotsPath
    ensures o.Robots? ==> o.resp.status == StatusOk && o.resp.body == RobotsBody
    ensures !o.Robots? ==> o.sent == BackendRequest(req)
    ensures o.SendFailed? <==> !o.Robots? && send(OriginBackend, o.sent).Err?
    ensures o.SendFailed? ==> send(OriginBackend, o.sent) == Err(o.error)
    ensures o.Rewritten? ==> send(OriginBackend, o.sent) == Ok(o.origin) && o.origin.status == StatusOk
    ensures o.PassThrough? ==> send(OriginBackend, o.sent) == Ok(o.resp) && o.resp.status != StatusOk
  {
    if req.path == RobotsPath then Robots(RobotsResponse())
    else
      var sent := BackendRequest(req);
      match send(OriginBackend, sent)
      case Err(e) => SendFailed(sent, e)
      case Ok(beresp) =>
        if beresp.status == StatusOk then Rewritten(sent, beresp) else PassThrough(sent, beresp)
  }

  /** The origin response with its body replaced by the rewritten HTML;
      status and headers are kept. `rewrite` stands for the HTML rewriter. */
  function RewriteHtml(beresp: Response, rewrite: string -> string): (r: Response)
    ensures r.status == beresp.status && r.headers == beresp.headers
    ensures r.body == rewrite(beresp.body)
  {
    Response(beresp.status, beresp.headers, rewrite(beresp.body))
  }

  /** What the entry point returns for a request. */
  function Handle(req: Request, send: (string, Request) -> Result<Response, SendError>,
                  rewrite: string -> string): (r: Result<Response, SendError>)
    ensures r.Err? <==> req.path != RobotsPath && send(OriginBackend, BackendRequest(req)).Err?
  {
    match Route(req, send)
    case Robots(resp) => Ok(resp)
    case SendFailed(_, e) => Err(e)
    case Rewritten(_, beresp) => Ok(RewriteHtml(beresp, rewrite))
    case PassThrough(_, beresp) => Ok(beresp)
  }

  /** robots.txt is answered with the fixed 200 response whatever the origin
      would have said: nothing is sent. */
  lemma HandleRobots(req: Request, send1: (string, Request) -> Result<Response, SendError>,
                     send2: (string, Request) -> Result<Response, SendError>, rewrite: string -> string)
    requires req.path == RobotsPath
    ensures Handle(req, send1, rewrite) == Handle(req, send2, rewrite) == Ok(RobotsResponse())
  {
  }

  /** For any other path the answer depends on the origin only through its
      response to the prepared request sent to the origin backend. */
  lemma HandleSendsBackendRequest(req: Request, send1: (string, Request) -> Result<Response, SendError>,
                                  send2: (string, Request) -> Result<Response, SendError>,
                                  rewrite: string -> string)
    requires req.path != RobotsPath
    requires send1(OriginBackend, BackendRequest(req)) == send2(OriginBackend, BackendRequest(req))
    ensures Handle(req, send1, rewrite) == Handle(req, send2, rewrite)
  {
  }

  /** A 200 origin response is returned rewritten, with its status and
      headers; any other origin response is returned unchanged; a send
      failure is the entry point's error. */
  lemma HandleOrigin(req: Request, send: (string, Request) -> Result<Response, SendError>,
                     rewrite: string -> string)
    requires req.path != RobotsPath
    ensures send(OriginBackend, BackendRequest(req)).Err? ==>
              Handle(req, send, rewrite) == Err(send(OriginBackend, BackendRequest(req)).error)
    ensures send(OriginBackend, BackendRequest(req)).Ok? ==>
              var beresp := send(OriginBackend, BackendRequest(req)).value;
              var r := Handle(req, send, rewrite);
              r.Ok? &&
              (beresp.status == StatusOk ==>
                 r.value.status == StatusOk && r.value.headers == beresp.headers
                 && r.value.body == rewrite(beresp.body)) &&
              (beresp.status != StatusOk ==> r.value == beresp)
  {
  }
}

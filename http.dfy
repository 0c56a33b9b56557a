/** The values the proxy handles for one connection: the outbound request it builds, the
    origin's response, and the runtime services it calls but whose code is not modelled. */
module Http {
  import opened Wrappers

  newtype Byte = b: int | 0 <= b < 256

  /** A DateTime, as ticks. */
  datatype Date = Date(ticks: int)

  /** HttpWebRequest.Proxy: the runtime's default proxy, or none (null). */
  datatype ProxySetting = DefaultProxy | NoProxy

  /** The request fields that dedicated headers set: Host, UserAgent, Accept, Referer, the
      Cookie header (through the header indexer) and ContentType. */
  datatype Field = HostField | UserAgentField | AcceptField | RefererField | CookieField | ContentTypeField

  /** The HttpWebRequest setters that validate their argument and throw when it is refused. */
  datatype Setter = MethodSetter | FieldSetter(field: Field)

  /** The observable state of an HttpWebRequest. `headers` is the bag filled by Headers.Add,
      in the order of the calls; the Cookie header, set through the indexer, is `cookie`. */
  datatype Request = Request(
    requestMethod: string,
    requestUri: string,
    version: (nat, nat),
    host: Option<string>,
    userAgent: Option<string>,
    accept: Option<string>,
    referer: Option<string>,
    cookie: Option<string>,
    contentType: Option<string>,
    ifModifiedSince: Option<Date>,
    headers: seq<(string, string)>,
    proxy: ProxySetting,
    keepAlive: bool,
    allowAutoRedirect: bool,
    automaticDecompression: bool,
    timeoutMs: int)

  /** What HttpWebRequest.Create returns: GET, HTTP/1.1, keep-alive, redirects followed,
      no decompression, the default proxy and a 100 second timeout. */
  function NewRequest(uri: string): (r: Request)
    ensures r.requestUri == uri && r.headers == []
  {
    Request("GET", uri, (1, 1), None, None, None, None, None, None, None, [],
            DefaultProxy, true, true, false, 100000)
  }

  /** The parts of a request that no header line may touch: method, target, protocol
      version and the connection settings. */
  predicate SameTransport(a: Request, b: Request) {
    && a.requestMethod == b.requestMethod && a.requestUri == b.requestUri
    && a.version == b.version && a.proxy == b.proxy && a.keepAlive == b.keepAlive
    && a.allowAutoRedirect == b.allowAutoRedirect
    && a.automaticDecompression == b.automaticDecompression && a.timeoutMs == b.timeoutMs
  }

  /** The settings applied after the headers are read: no proxy, no keep-alive, no redirect
      following, no decompression, a 15 second timeout. */
  function Finalize(req: Request): (r: Request)
    ensures r.proxy == NoProxy && !r.keepAlive && !r.allowAutoRedirect
    ensures !r.automaticDecompression && r.timeoutMs == 15000
    ensures r.requestMethod == req.requestMethod && r.requestUri == req.requestUri
    ensures r.version == req.version && r.headers == req.headers
    ensures r.host == req.host && r.userAgent == req.userAgent && r.accept == req.accept
    ensures r.referer == req.referer && r.cookie == req.cookie
    ensures r.contentType == req.contentType && r.ifModifiedSince == req.ifModifiedSince
  {
    req.(proxy := NoProxy, keepAlive := false, allowAutoRedirect := false,
         automaticDecompression := false, timeoutMs := 15000)
  }

  /** An HttpWebResponse: status, headers as the response's header collection holds them (one
      entry per name, with the values received under it) and the body stream's pending
      segments, in arrival order. `contentLength` is -1 when the origin declared none. */
  datatype Response = Response(
    statusCode: int,
    statusDescription: string,
    headers: seq<(string, seq<string>)>,
    contentLength: int,
    body: seq<seq<Byte>>)

  /** The runtime services the proxy calls:
      - parseInt: int.TryParse;
      - parseDate: DateTime.TryParse;
      - accepts: whether a validating setter takes the value (otherwise it throws);
      - canAdd: whether WebHeaderCollection.Add takes the name and value (otherwise it throws);
      - canCreate: whether HttpWebRequest.Create gives an HttpWebRequest for the target;
      - origin: GetResponse, with the response carried by a WebException recovered, or
        nothing when the call failed without one. */
  datatype Env = Env(
    parseInt: string -> Option<int>,
    parseDate: string -> Option<Date>,
    accepts: (Setter, string) -> bool,
    canAdd: (string, string) -> bool,
    canCreate: string -> bool,
    origin: Request -> Option<Response>)
}

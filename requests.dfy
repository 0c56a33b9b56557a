/** The objects ReadRequestHeaders works on: the reader over the client's lines and the
    outbound HttpWebRequest, whose properties it sets one line at a time. */
module RequestReading {
  import opened Wrappers
  import opened Strings
  import opened Http
  import opened HeaderTranslation

  /** StreamReader.ReadLine over what the client sent: the lines in order, then null. */
  class LineReader {
    const lines: seq<string>
    var pos: nat

    ghost predicate Valid()
      reads this
    {
      pos <= |lines|
    }

    /** The lines not yet read. */
    function Remaining(): seq<string>
      reads this
      requires Valid()
    {
      lines[pos..]
    }

    constructor (lines: seq<string>)
      ensures Valid() && this.lines == lines && pos == 0
    {
      this.lines := lines;
      pos := 0;
    }

    /** The next line, or None (null) once the stream is exhausted. */
    method ReadLine() returns (line: Option<string>)
      requires Valid()
      modifies this`pos
      ensures Valid()
      ensures old(pos) < |lines| ==> line == Some(lines[old(pos)]) && pos == old(pos) + 1
      ensures old(pos) == |lines| ==> line == None && pos == old(pos)
    {
      if pos < |lines| {
        line := Some(lines[pos]);
        pos := pos + 1;
      } else {
        line := None;
      }
    }
  }

  /** An HttpWebRequest under construction. */
  class OutboundRequest {
    var requestMethod: string
    var requestUri: string
    var version: (nat, nat)
    var host: Option<string>
    var userAgent: Option<string>
    var accept: Option<string>
    var referer: Option<string>
    var cookie: Option<string>
    var contentType: Option<string>
    var ifModifiedSince: Option<Date>
    var headers: seq<(string, string)>
    var proxy: ProxySetting
    var keepAlive: bool
    var allowAutoRedirect: bool
    var automaticDecompression: bool
    var timeoutMs: int

    /** The request as a value. */
    function Snapshot(): Request
      reads this
    {
      Request(requestMethod, requestUri, version, host, userAgent, accept, referer, cookie,
              contentType, ifModifiedSince, headers, proxy, keepAlive, allowAutoRedirect,
              automaticDecompression, timeoutMs)
    }

    /** HttpWebRequest.Create for a target it accepts. */
    constructor Create(uri: string)
      ensures Snapshot() == NewRequest(uri)
    {
      requestMethod, requestUri, version := "GET", uri, (1, 1);
      host, userAgent, accept, referer, cookie, contentType := None, None, None, None, None, None;
      ifModifiedSince, headers := None, [];
      proxy, keepAlive, allowAutoRedirect, automaticDecompression := DefaultProxy, true, true, false;
      timeoutMs := 100000;
    }

    /** The Method setter, which refuses what is not a valid method token. */
    method SetMethod(env: Env, m: string) returns (ok: bool)
      modifies this
      ensures ok == env.accepts(MethodSetter, m)
      ensures Snapshot() == if ok then old(Snapshot()).(requestMethod := m) else old(Snapshot())
    {
      ok := env.accepts(MethodSetter, m);
      if ok {
        requestMethod := m;
      }
    }

    /** The setter of a dedicated field (Host, UserAgent, Accept, Referer, the Cookie header,
        ContentType), which refuses values it considers invalid. */
    method SetField(env: Env, f: Field, v: string) returns (ok: bool)
      modifies this
      ensures ok == env.accepts(FieldSetter(f), v)
      ensures Snapshot() == if ok then WithField(old(Snapshot()), f, v) else old(Snapshot())
    {
      ok := env.accepts(FieldSetter(f), v);
      if ok {
        match f
        case HostField => host := Some(v);
        case UserAgentField => userAgent := Some(v);
        case AcceptField => accept := Some(v);
        case RefererField => referer := Some(v);
        case CookieField => cookie := Some(v);
        case ContentTypeField => contentType := Some(v);
      }
    }

    /** The IfModifiedSince setter. */
    method SetIfModifiedSince(d: Date)
      modifies this
      ensures Snapshot() == old(Snapshot()).(ifModifiedSince := Some(d))
    {
      ifModifiedSince := Some(d);
    }

    /** The properties set once the headers are copied: Proxy, KeepAlive, AllowAutoRedirect,
        AutomaticDecompression and Timeout. */
    method SetFixedSettings()
      modifies this
      ensures Snapshot() == Finalize(old(Snapshot()))
    {
      ghost var before := Snapshot();
      proxy := NoProxy;
      keepAlive := false;
      allowAutoRedirect := false;
      automaticDecompression := false;
      timeoutMs := 15000;
      assert Snapshot() == before.(proxy := NoProxy, keepAlive := false, allowAutoRedirect := false,
        automaticDecompression := false, timeoutMs := 15000);
    }

    /** Headers.Add, which refuses restricted or malformed headers. */
    method AddHeader(env: Env, name: string, v: string) returns (ok: bool)
      modifies this
      ensures ok == env.canAdd(name, v)
      ensures Snapshot() == if ok then old(Snapshot()).(headers := old(headers) + [(name, v)]) else old(Snapshot())
    {
      ok := env.canAdd(name, v);
      if ok {
        headers := headers + [(name, v)];
      }
    }
  }

  /** The outcome HeaderBlock describes, as ReadRequestHeaders reports it: the Content-Length
      hint, or the fault that escapes as an exception. */
  function Outcome(run: HeaderRun): Result<int, Fault> {
    match run.fault
    case None => Success(run.state.contentLen)
    case Some(f) => Failure(f)
  }

  /** One pass of the switch in ReadRequestHeaders over a line that is not empty: the
      request and the hint change as Translate says, and a fault leaves both alone. */
  method HandleHeaderLine(env: Env, line: string, webReq: OutboundRequest, contentLen: int)
    returns (r: Result<int, Fault>)
    modifies webReq
    ensures match Translate(env, HeaderState(old(webReq.Snapshot()), contentLen), line)
      case Success(next) => r == Success(next.contentLen) && webReq.Snapshot() == next.req
      case Failure(f) => r == Failure(f) && webReq.Snapshot() == old(webReq.Snapshot())
  {
    var (name, value) := SplitHeader(line);
    ghost var st := HeaderState(webReq.Snapshot(), contentLen);
    ghost var a := Classify(env, line);
    assert Translate(env, st, line) == Apply(st, a);
    match KindOf(ToLower(name)) {
      case Dedicated(f) =>
        if value.None? {
          assert a == Abort(MissingValue(name));
          return Failure(MissingValue(name));
        }
        var ok := webReq.SetField(env, f, value.value);
        if !ok {
          assert a == Abort(Rejected(name, value.value));
          return Failure(Rejected(name, value.value));
        }
        assert a == SetField(f, value.value);
        return Success(contentLen);
      case HopByHopHeader =>
        assert a == Skip;
        return Success(contentLen);
      case ContentLengthHeader =>
        if value.None? {
          assert a == Abort(MissingValue(name));
          return Failure(MissingValue(name));
        }
        assert a == SetContentLength(env.parseInt(value.value).GetOr(0));
        return Success(env.parseInt(value.value).GetOr(0));
      case IfModifiedSinceHeader =>
        if value.None? {
          assert a == Abort(MissingValue(name));
          return Failure(MissingValue(name));
        }
        var d := env.parseDate(DateText(value.value));
        if d.Some? {
          assert a == SetIfModifiedSince(d.value);
          webReq.SetIfModifiedSince(d.value);
        } else {
          assert a == Skip;
        }
        return Success(contentLen);
      case OtherHeader =>
        if value.Some? {
          var added := webReq.AddHeader(env, name, value.value);
          assert a == if added then AddHeader(name, value.value) else Skip;
        } else {
          assert a == Skip;
        }
        return Success(contentLen);
    }
  }

  /** ReadRequestHeaders: reads header lines from `sr` and copies them onto `webReq` until an
      empty line, the end of the stream, or a line of white space; returns the Content-Length
      hint. The request, the reader and the answer are those HeaderBlock gives. */
  method ReadRequestHeaders(env: Env, sr: LineReader, webReq: OutboundRequest) returns (r: Result<int, Fault>)
    requires sr.Valid()
    modifies sr`pos, webReq
    ensures sr.Valid()
    ensures var run := HeaderBlock(env, old(sr.Remaining()), HeaderState(old(webReq.Snapshot()), 0));
      && webReq.Snapshot() == run.state.req
      && sr.pos == old(sr.pos) + run.consumed
      && r == Outcome(run)
  {
    ghost var lines0, st0, p0 := sr.Remaining(), HeaderState(webReq.Snapshot(), 0), sr.pos;
    var contentLen := 0;
    while true
      invariant sr.Valid() && p0 <= sr.pos
      invariant var run := HeaderBlock(env, sr.Remaining(), HeaderState(webReq.Snapshot(), contentLen));
        HeaderBlock(env, lines0, st0) == run.(consumed := run.consumed + (sr.pos - p0))
      decreases |sr.lines| - sr.pos
    {
      ghost var rest, st, pos := sr.Remaining(), HeaderState(webReq.Snapshot(), contentLen), sr.pos;
      var httpCmd := sr.ReadLine();
      if httpCmd.None? {
        assert HeaderBlock(env, rest, st) == HeaderRun(None, st, 0);
        return Success(contentLen);
      }
      var line := httpCmd.value;
      assert rest[0] == line && rest[1..] == sr.Remaining() && sr.pos == pos + 1;
      if line == "" {
        assert HeaderBlock(env, rest, st) == HeaderRun(None, st, 1);
        return Success(contentLen);
      }
      var step := HandleHeaderLine(env, line, webReq, contentLen);
      if step.Failure? {
        assert HeaderBlock(env, rest, st) == HeaderRun(Some(step.error), st, 1);
        return step;
      }
      contentLen := step.value;
      ghost var next := HeaderState(webReq.Snapshot(), contentLen);
      assert Translate(env, st, line) == Success(next);
      if IsBlank(line) {
        assert HeaderBlock(env, rest, st) == HeaderRun(None, next, 1);
        return Success(contentLen);
      }
      HeaderBlockStep(env, rest, st);
    }
  }
}

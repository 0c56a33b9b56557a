/** One client connection, end to end (DoHttpProcessing): the request line, the header
    block, the request sent to the origin and what the client receives back. */
module Connection {
  import opened Wrappers
  import opened Strings
  import opened Decimal
  import opened Http
  import opened HeaderTranslation
  import opened RequestReading
  import opened ResponseRelay

  /** How a connection ends. Every ending but Relayed closes the connection with nothing
      written to the client. */
  datatype Ending =
    | EmptyRequest              // the first line is missing or empty
    | TooFewTokens              // the first line has no space: there is no second token
    | TargetRejected            // HttpWebRequest.Create does not give an HTTP request for the target
    | MethodRejected            // the Method setter refuses the first token
    | HeaderAborted(fault: Fault) // a header line threw while being copied
    | OriginUnreachable         // GetResponse failed and no response was recovered
    | Relayed                   // the origin's response was written to the client

  /** What a connection did: how it ended, the request sent to the origin if one was, and
      the writes made to the client. */
  datatype Exchange = Exchange(ending: Ending, sent: Option<Request>, output: seq<Piece>)

  /** The method and target of a request line: its first two space-separated tokens, the
      line being split into at most three parts so that the third keeps the rest. */
  function RequestLine(line: string): (r: Option<(string, string)>)
    ensures r.Some? ==> Free(r.value.0, ' ') && Free(r.value.1, ' ')
    ensures r.Some? ==> r.value.0 + " " + r.value.1 <= line
  {
    var parts := Split(line, ' ', 3);
    if |parts| < 2 then None
    else
      JoinStartsWithFirst(parts[1..], ' ');
      assert line == parts[0] + " " + Join(parts[1..], ' ');
      Some((parts[0], parts[1]))
  }

  /** A request line has two tokens exactly when it holds a space. */
  lemma RequestLineNeedsSpace(line: string)
    ensures RequestLine(line).None? <==> Free(line, ' ')
  {
    var parts := Split(line, ' ', 3);
    if |parts| < 2 {
      assert line == parts[0];
    } else {
      assert line[|parts[0]|] == ' ' by {
        assert line == parts[0] + [' '] + Join(parts[1..], ' ');
      }
    }
  }

  /** The first token is the method and the second the target, whatever follows them. */
  lemma RequestLineTokens(m: string, u: string, rest: string)
    requires Free(m, ' ') && Free(u, ' ')
    ensures RequestLine(m + " " + u + " " + rest) == Some((m, u))
    ensures RequestLine(m + " " + u) == Some((m, u))
  {
    var three := [m, u, rest];
    assert Join(three, ' ') == m + " " + u + " " + rest by {
      assert Join(three[1..], ' ') == u + " " + rest by {
        assert three[1..][1..] == [rest];
      }
    }
    SplitUnique(m + " " + u + " " + rest, ' ', 3, three);
    var two := [m, u];
    assert Join(two, ' ') == m + " " + u by {
      assert two[1..] == [u];
    }
    SplitUnique(m + " " + u, ' ', 3, two);
  }

  /** The request as built before its headers are read: HttpWebRequest.Create for the
      target, with the client's method and protocol version 1.0. */
  function Initial(m: string, u: string): (req: Request)
    ensures req.requestMethod == m && req.requestUri == u && req.version == (1, 0)
    ensures req.headers == [] && req.ifModifiedSince.None?
    ensures req.host.None? && req.userAgent.None? && req.accept.None?
    ensures req.referer.None? && req.cookie.None? && req.contentType.None?
  {
    NewRequest(u).(requestMethod := m, version := (1, 0))
  }

  /** What the client receives for a response: its head, then its body through the relay. */
  function ResponseOutput(resp: Response): (out: seq<Piece>)
    ensures |out| >= 2
  {
    ResponseHead(resp) + DataPieces(BodyChunks(resp.body, BufferSize(resp.contentLength)))
  }

  /** The request DoHttpProcessing builds from the client's lines, or the ending that stops
      it before anything is sent. */
  function Prepare(env: Env, lines: seq<string>): (r: Result<Request, Ending>)
    ensures r.Failure? ==> r.error != Relayed && r.error != OriginUnreachable
  {
    if lines == [] || lines[0] == "" then Failure(EmptyRequest)
    else match RequestLine(lines[0])
      case None => Failure(TooFewTokens)
      case Some((m, u)) =>
        if !env.canCreate(u) then Failure(TargetRejected)
        else if !env.accepts(MethodSetter, m) then Failure(MethodRejected)
        else
          var run := HeaderBlock(env, lines[1..], HeaderState(Initial(m, u), 0));
          if run.fault.Some? then Failure(HeaderAborted(run.fault.value))
          else Success(Finalize(run.state.req))
  }

  /** DoHttpProcessing over the lines the client sends. */
  function Serve(env: Env, lines: seq<string>): (ex: Exchange)
    ensures ex.output != [] <==> ex.ending == Relayed
    ensures ex.sent.Some? <==> ex.ending == Relayed || ex.ending == OriginUnreachable
  {
    match Prepare(env, lines)
    case Failure(ending) => Exchange(ending, None, [])
    case Success(req) =>
      match env.origin(req)
      case None => Exchange(OriginUnreachable, Some(req), [])
      case Some(resp) => Exchange(Relayed, Some(req), ResponseOutput(resp))
  }

  /** A request reaches the origin exactly when the first line is present and not empty,
      has two tokens, the target makes a URI, the method setter takes the method and no
      header line read aborts. */
  lemma SentExactlyWhenAccepted(env: Env, lines: seq<string>)
    ensures Serve(env, lines).sent.Some? <==>
      && lines != [] && lines[0] != "" && RequestLine(lines[0]).Some?
      && var (m, u) := RequestLine(lines[0]).value;
         && env.canCreate(u) && env.accepts(MethodSetter, m)
         && HeaderBlock(env, lines[1..], HeaderState(Initial(m, u), 0)).fault.None?
  {
  }

  /** Each dedicated property and If-Modified-Since of the request sent come from the last
      header line read that sets them; one no line sets stays unset. */
  lemma SentFieldsAreLastLines(env: Env, lines: seq<string>, f: Field)
    ensures var ex := Serve(env, lines);
      ex.sent.Some? ==>
        && lines != [] && RequestLine(lines[0]).Some?
        && var (m, u) := RequestLine(lines[0]).value;
           var run := HeaderBlock(env, lines[1..], HeaderState(Initial(m, u), 0));
           && FieldValue(ex.sent.value, f) == LastValue(lines[1..][..run.consumed], Dedicated(f))
           && ex.sent.value.ifModifiedSince == LastDate(env, lines[1..][..run.consumed])
  {
    var ex := Serve(env, lines);
    if ex.sent.Some? {
      var (m, u) := RequestLine(lines[0]).value;
      var st := HeaderState(Initial(m, u), 0);
      SentIsFinalized(env, lines);
      var req := HeaderBlock(env, lines[1..], st).state.req;
      LastFieldLineWins(env, lines[1..], st, f);
      LastParsedDateWins(env, lines[1..], st);
      assert FieldValue(st.req, f) == None;
      assert FieldValue(Finalize(req), f) == FieldValue(req, f);
    }
  }

  /** The request sent is the one the header loop built, with the fixed settings applied. */
  lemma SentIsFinalized(env: Env, lines: seq<string>)
    ensures var ex := Serve(env, lines);
      ex.sent.Some? ==>
        && lines != [] && lines[0] != "" && RequestLine(lines[0]).Some?
        && var (m, u) := RequestLine(lines[0]).value;
           var run := HeaderBlock(env, lines[1..], HeaderState(Initial(m, u), 0));
           run.fault.None? && ex.sent.value == Finalize(run.state.req)
  {
  }

  /** A missing or empty first line, or one without a space, ends the connection at once:
      no request is sent and nothing is written. */
  lemma MalformedRequestLine(env: Env, lines: seq<string>)
    requires lines == [] || lines[0] == "" || Free(lines[0], ' ')
    ensures var ex := Serve(env, lines);
      && (ex.ending == EmptyRequest || ex.ending == TooFewTokens)
      && ex.sent.None? && ex.output == []
  {
    if lines != [] && lines[0] != "" {
      RequestLineNeedsSpace(lines[0]);
    }
  }

  /** The request sent to the origin carries the client's method and target, protocol
      version 1.0 and the fixed connection settings, whatever headers the client sent. */
  lemma SentRequestSettings(env: Env, lines: seq<string>)
    ensures var ex := Serve(env, lines);
      ex.sent.Some? ==>
        && lines != [] && RequestLine(lines[0]).Some?
        && ex.sent.value.requestMethod == RequestLine(lines[0]).value.0
        && ex.sent.value.requestUri == RequestLine(lines[0]).value.1
        && ex.sent.value.version == (1, 0)
        && ex.sent.value.proxy == NoProxy && !ex.sent.value.keepAlive
        && !ex.sent.value.allowAutoRedirect && !ex.sent.value.automaticDecompression
        && ex.sent.value.timeoutMs == 15000
  {
  }

  /** The header bag of the request sent is exactly the pass-through lines among the header
      lines read, in order; none is Connection, Proxy-Connection or Keep-Alive. */
  lemma SentHeadersArePassThrough(env: Env, lines: seq<string>)
    ensures var ex := Serve(env, lines);
      ex.sent.Some? ==>
        && lines != [] && RequestLine(lines[0]).Some?
        && var (m, u) := RequestLine(lines[0]).value;
           var run := HeaderBlock(env, lines[1..], HeaderState(Initial(m, u), 0));
           && ex.sent.value.headers == PassThrough(env, lines[1..][..run.consumed])
           && forall i :: 0 <= i < |ex.sent.value.headers| ==>
                ToLower(ex.sent.value.headers[i].0) !in {"proxy-connection", "connection", "keep-alive"}
  {
    var ex := Serve(env, lines);
    if ex.sent.Some? {
      var (m, u) := RequestLine(lines[0]).value;
      var st := HeaderState(Initial(m, u), 0);
      BagIsPassThrough(env, lines[1..], st);
      HopByHopNeverForwarded(env, lines[1..], st);
    }
  }

  /** Prepare looks at the first line only through its two tokens. */
  lemma PrepareSeesTokens(env: Env, lines1: seq<string>, lines2: seq<string>)
    requires lines1 != [] && lines2 != [] && lines1[0] != "" && lines2[0] != ""
    requires RequestLine(lines1[0]) == RequestLine(lines2[0]) && lines1[1..] == lines2[1..]
    ensures Prepare(env, lines1) == Prepare(env, lines2)
  {
  }

  /** Serve depends on the lines only through Prepare. */
  lemma ServeFollowsPrepare(env: Env, lines1: seq<string>, lines2: seq<string>)
    requires Prepare(env, lines1) == Prepare(env, lines2)
    ensures Serve(env, lines1) == Serve(env, lines2)
  {
  }

  /** The client's protocol version token plays no part: two request lines that differ only
      after the target lead to the same exchange. */
  lemma ClientVersionIgnored(env: Env, m: string, u: string, v1: string, v2: string, rest: seq<string>)
    requires Free(m, ' ') && Free(u, ' ')
    ensures Serve(env, [m + " " + u + " " + v1] + rest) == Serve(env, [m + " " + u + " " + v2] + rest)
  {
    var lines1, lines2 := [m + " " + u + " " + v1] + rest, [m + " " + u + " " + v2] + rest;
    RequestLineTokens(m, u, v1);
    RequestLineTokens(m, u, v2);
    assert lines1[0] == m + " " + u + " " + v1 && lines2[0] == m + " " + u + " " + v2;
    assert |lines1[0]| > 0 && |lines2[0]| > 0;
    assert lines1[1..] == rest == lines2[1..];
    PrepareSeesTokens(env, lines1, lines2);
    ServeFollowsPrepare(env, lines1, lines2);
  }

  /** A relayed response reaches the client as its status line, carrying the origin's status
      code and reason, the header lines, a blank line, and then exactly the body's bytes up to
      the first read of zero bytes. */
  lemma RelayedResponse(env: Env, lines: seq<string>)
    ensures var ex := Serve(env, lines);
      ex.ending == Relayed ==>
        && ex.sent.Some? && env.origin(ex.sent.value).Some?
        && var resp := env.origin(ex.sent.value).value;
           var chunks := BodyChunks(resp.body, BufferSize(resp.contentLength));
           && ex.output == ResponseHead(resp) + DataPieces(chunks)
           && ex.output[0].Line?
           && Split(ex.output[0].text, ' ', 3) == ["HTTP/1.0", IntText(resp.statusCode), resp.statusDescription]
           && ParseIntText(IntText(resp.statusCode)) == Some(resp.statusCode)
           && Flatten(chunks) == Flatten(BeforeEnd(resp.body))
  {
    var ex := Serve(env, lines);
    if ex.ending == Relayed {
      var req := Prepare(env, lines).value;
      var resp := env.origin(req).value;
      assert ex == Exchange(Relayed, Some(req), ResponseOutput(resp));
      var chunks := BodyChunks(resp.body, BufferSize(resp.contentLength));
      assert ex.output[0] == ResponseHead(resp)[0] == Line(StatusLine(resp.statusCode, resp.statusDescription));
      StatusLineParses(resp.statusCode, resp.statusDescription);
      RelayCopiesBody(resp.body, BufferSize(resp.contentLength));
    }
  }

  /** The request-building half of DoHttpProcessing: reads the request line and the
      headers from `client` and returns the request to send, or the ending. */
  method BuildRequest(env: Env, client: LineReader) returns (r: Result<Request, Ending>)
    requires client.Valid() && client.pos == 0
    modifies client
    ensures r == Prepare(env, client.lines)
  {
    ghost var lines := client.lines;
    var httpCmd := client.ReadLine();
    if httpCmd.None? || httpCmd.value == "" {
      return Failure(EmptyRequest);
    }
    var splitBuffer := Split(httpCmd.value, ' ', 3);
    if |splitBuffer| < 2 {
      return Failure(TooFewTokens);
    }
    var requestMethod, remoteUri := splitBuffer[0], splitBuffer[1];
    assert RequestLine(lines[0]) == Some((requestMethod, remoteUri));
    if !env.canCreate(remoteUri) {
      return Failure(TargetRejected);
    }
    var webReq := new OutboundRequest.Create(remoteUri);
    var ok := webReq.SetMethod(env, requestMethod);
    if !ok {
      return Failure(MethodRejected);
    }
    webReq.version := (1, 0);
    assert webReq.Snapshot() == Initial(requestMethod, remoteUri);
    assert client.Remaining() == lines[1..];
    ghost var run := HeaderBlock(env, lines[1..], HeaderState(Initial(requestMethod, remoteUri), 0));
    var contentLen := ReadRequestHeaders(env, client, webReq);
    if contentLen.Failure? {
      assert Prepare(env, lines) == Failure(HeaderAborted(run.fault.value));
      return Failure(HeaderAborted(contentLen.error));
    }
    webReq.SetFixedSettings();
    return Success(webReq.Snapshot());
  }

  /** DoHttpProcessing: serves one connection, reading the client's lines from `client` and
      writing the response to `outStream`; the ending, the request sent and the writes are
      those Serve gives for the client's lines. */
  method DoHttpProcessing(env: Env, client: LineReader, outStream: ClientOutput)
    returns (ending: Ending, sent: Option<Request>)
    requires client.Valid() && client.pos == 0
    modifies client, outStream
    ensures var ex := Serve(env, client.lines);
      && ending == ex.ending && sent == ex.sent
      && outStream.pieces == old(outStream.pieces) + ex.output
  {
    ghost var lines := client.lines;
    var prepared := BuildRequest(env, client);
    if prepared.Failure? {
      return prepared.error, None;
    }
    var req := prepared.value;
    var response := env.origin(req);
    if response.None? {
      return OriginUnreachable, Some(req);
    }
    var resp := response.value;
    assert Serve(env, lines) == Exchange(Relayed, Some(req), ResponseOutput(resp));
    RelayResponse(resp, outStream);
    return Relayed, Some(req);
  }

  /** Writes a response to the client: its head, then its body through the relay buffer. */
  method RelayResponse(resp: Response, outStream: ClientOutput)
    modifies outStream
    ensures outStream.pieces == old(outStream.pieces) + ResponseOutput(resp)
  {
    ghost var before := outStream.pieces;
    WriteResponseHead(resp, outStream);
    var responseStream := new BodyStream(resp.body);
    RelayBody(responseStream, outStream, resp.contentLength);
    ConcatAssoc(before, ResponseHead(resp), DataPieces(BodyChunks(resp.body, BufferSize(resp.contentLength))));
  }

  /** Writes the status line, the header lines ProcessResponse collects, and a blank line. */
  method WriteResponseHead(resp: Response, outStream: ClientOutput)
    modifies outStream
    ensures outStream.pieces == old(outStream.pieces) + ResponseHead(resp)
  {
    var responseHeaders := ProcessResponse(resp.headers);
    ghost var before := outStream.pieces;
    outStream.WriteLine(StatusLine(resp.statusCode, resp.statusDescription));
    ghost var afterStatus := outStream.pieces;
    for i := 0 to |responseHeaders|
      invariant outStream.pieces == afterStatus + HeaderLines(responseHeaders[..i])
    {
      HeaderLinesAppend(responseHeaders, i);
      outStream.WriteLine(HeaderLine(responseHeaders[i].0, responseHeaders[i].1));
      ConcatAssoc(afterStatus, HeaderLines(responseHeaders[..i]), [Line(HeaderLine(responseHeaders[i].0, responseHeaders[i].1))]);
    }
    assert responseHeaders[..|responseHeaders|] == responseHeaders;
    outStream.WriteLine("");
    ghost var status := [Line(StatusLine(resp.statusCode, resp.statusDescription))];
    ConcatAssoc(before, status, HeaderLines(responseHeaders));
    ConcatAssoc(before, status + HeaderLines(responseHeaders), [Line("")]);
  }
}

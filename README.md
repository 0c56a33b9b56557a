# HTTP proxy server: the per-connection protocol logic, in Dafny

This project models how `ProxyServer` (a small C# HTTP proxy) serves one client
connection, and proves properties of that model. The steps are:

1. read the request line and split it into method, target and the rest;
2. build an outbound `HttpWebRequest` for HTTP/1.0;
3. copy the client's header lines onto that request (`ReadRequestHeaders`);
4. fix the transport settings;
5. ask the origin;
6. write the origin's status line, header lines and blank line back to the client;
7. copy the body through a buffer until a read returns no bytes.

The constructor's choice of listening port is modelled too.

The files, one module each except the first:

- `strings.dfy`
  - `Wrappers`: `Option` and `Result`. The code's exceptions become `Result` values.
  - `Strings`: the .NET string operations the code relies on, written out over `seq<char>`:
    `String.Split` with a count, `Split` on a string separator, `Trim`, `IsNullOrWhiteSpace`, `ToLower`.
- `decimal.dfy` (`Decimal`): decimal text of an `Int32` as `String.Format` prints it, and its inverse.
- `http.dfy` (`Http`): the request and response values, and `Env`.
  - `Env` holds the runtime services whose code is not part of this model: `int.TryParse`,
    `DateTime.TryParse`, the validating property setters, `WebHeaderCollection.Add`,
    `HttpWebRequest.Create` and `GetResponse`.
  - Each service is a function-valued parameter. Every result is proved for all of its values.
- `headers.dfy` (`HeaderTranslation`): the switch of `ReadRequestHeaders` as pure functions.
  - `Classify` decides what one line does; `Apply` does it.
  - `HeaderBlock` is the whole do-while loop.
  - The lemmas about it: where reading stops, which lines reach the header bag, the last
    value winning, the Content-Length hint, If-Modified-Since.
- `requests.dfy` (`RequestReading`): the objects `ReadRequestHeaders` mutates.
  - `LineReader` stands for the `StreamReader`.
  - `OutboundRequest` stands for the `HttpWebRequest`. Its setters validate their argument.
  - `ReadRequestHeaders` is a loop proved against `HeaderBlock`.
- `relay.dfy` (`ResponseRelay`): the response side.
  - The status and header line formats, with their round trips.
  - `ProcessResponse`, and the buffer size.
  - `BodyStream` (the response stream) and `ClientOutput` (the client's stream).
  - `RelayBody`, the copy loop, proved against `BodyChunks`.
- `connection.dfy` (`Connection`): `DoHttpProcessing`, proved against the function `Serve`.
  - The outcome is an `Ending`, the request sent (if any) and the writes made to the client.
  - The lemmas cover the failure paths, the fixed settings and what a relayed response looks like.
- `startup.dfy` (`Startup`): the port chosen by the `ProxyServer(string)` constructor.

## Behaviour the model follows from the code

- **A handled header with no value ends the connection.** Suppose a header line whose name
  the switch handles has no `": "`. Examples are `host`, `content-length` and `if-modified-since`.
  - Reading `header[1]` then throws outside any inner `try`, and the connection ends with
    nothing sent: `Fault.MissingValue`.
  - Only the default branch catches its own exception. There, a line without a value, or one
    that `Headers.Add` refuses, is dropped and reading goes on.
- **A blank header line ends the block.** A header line made only of white space is first
  run through the switch, where it changes nothing. Then the do-while condition ends the loop.
- **Response header values are merged.** Response headers come from `response.Headers.Keys`,
  one entry per name. A name received several times is written once, with its values joined
  by `,` (`MergedHeaders`).
- **The Content-Length hint is unused.** `ReadRequestHeaders` returns it but
  `DoHttpProcessing` ignores it, and no request body is forwarded to the origin.

## Model

| member | source | states |
|---|---|---|
| Strings.Trim | HTTPProxy_Server/ProxyServer.cs:313 | the result is empty exactly when the text is all white space (so String.IsNullOrWhiteSpace of a present text is Trim giving ""); otherwise it starts and ends with non-white-space, follows the leading white space in the text, and only white space comes after it |
| Strings.ToLower | HTTPProxy_Server/ProxyServer.cs:284 | same length; no ASCII capital remains; a character changes only when it is a capital, into its lower-case letter |
| Strings.SplitOnce | HTTPProxy_Server/ProxyServer.cs:283 | splitting at a separator into two parts: the text before the first occurrence and everything after it, or the whole text when there is none |
| Strings.Split | HTTPProxy_Server/ProxyServer.cs:141 | String.Split with a count: between one and `count` parts that join back to the text; no part but the last holds the separator, and the last holds none when fewer than `count` parts came out |
| Strings.SplitUnique | HTTPProxy_Server/ProxyServer.cs:141 | any list of parts that meets Split's contract is Split's answer, so Split is fully determined |
| Decimal.IntText | HTTPProxy_Server/ProxyServer.cs:187 | the decimal text of a code is never empty and holds no space, so it is one token of the status line |
| Decimal.IntTextRoundTrip | HTTPProxy_Server/ProxyServer.cs:187 | the decimal text of a status code reads back as that code |
| Http.NewRequest | HTTPProxy_Server/ProxyServer.cs:152 | a freshly created request targets the given URI and has an empty header bag |
| Http.Finalize | HTTPProxy_Server/ProxyServer.cs:159-169 | after the headers: no proxy, no keep-alive, no redirects, no decompression, a 15000 ms timeout; method, target, version, header bag, every dedicated field and If-Modified-Since are kept |
| HeaderTranslation.KindOf | HTTPProxy_Server/ProxyServer.cs:284-328 | the switch case of a lower-cased name; it is the hop-by-hop case exactly for proxy-connection, connection and keep-alive |
| HeaderTranslation.SplitHeader | HTTPProxy_Server/ProxyServer.cs:283 | a header line is its name, then ": ", then its value, with no ": " before the value; with no separator the whole line is the name |
| HeaderTranslation.NameHoldsNoSeparator | HTTPProxy_Server/ProxyServer.cs:283 | when a line has a value, no ": " starts inside its name: the split is at the first separator |
| HeaderTranslation.WithField | HTTPProxy_Server/ProxyServer.cs:286-311 | setting one dedicated field sets that field and changes no other field, the bag, If-Modified-Since or the transport settings |
| HeaderTranslation.DateText | HTTPProxy_Server/ProxyServer.cs:313-315 | the date text is the trimmed value up to its first ';', and it holds no ';' |
| HeaderTranslation.Classify | HTTPProxy_Server/ProxyServer.cs:283-328 | hop-by-hop lines are skipped; a line without a value is skipped for unhandled names and aborts for handled ones; only handled names abort; an added header is the line's own name and value; a field is set only from a line naming it |
| HeaderTranslation.Apply | HTTPProxy_Server/ProxyServer.cs:286-327 | an action fails exactly when it is an abort, and never touches method, target, version or transport settings |
| HeaderTranslation.Translate | HTTPProxy_Server/ProxyServer.cs:283-328 | one line never changes method, target, version or transport settings |
| HeaderTranslation.HeaderBlock | HTTPProxy_Server/ProxyServer.cs:278-330 | the loop takes at least one line when there is one and never more than there are, and leaves the transport settings alone |
| HeaderTranslation.Forwarded | HTTPProxy_Server/ProxyServer.cs:318-327 | a line gives at most one pair; it gives one exactly when its name is not handled by the switch, it has a value and Headers.Add takes it; and the pair joined with ": " is the line |
| HeaderTranslation.PassThroughOnlyUnhandled | HTTPProxy_Server/ProxyServer.cs:318-327 | every pair forwarded to the bag has a name the switch does not handle and was taken by Headers.Add |
| HeaderTranslation.PassThroughFromLines | HTTPProxy_Server/ProxyServer.cs:318-327 | every pair forwarded to the bag, joined back with ": ", is one of the lines read |
| HeaderTranslation.BlankLineIsInert | HTTPProxy_Server/ProxyServer.cs:283-329 | a white-space-only line changes neither the request nor the hint |
| HeaderTranslation.SplitAtFirstSeparator | HTTPProxy_Server/ProxyServer.cs:283 | a name without ": ", the separator and any value split back into that name and the whole value, later ": " included |
| HeaderTranslation.ValueKeepsLaterSeparators | HTTPProxy_Server/ProxyServer.cs:283-321 | an unhandled header is added with its name and its entire value |
| HeaderTranslation.NamesMatchWithoutCase | HTTPProxy_Server/ProxyServer.cs:284 | two spellings of a handled name that differ only in ASCII case have the same effect |
| HeaderTranslation.OnlyHandledHeadersAbort | HTTPProxy_Server/ProxyServer.cs:301-326 | a hop-by-hop or unhandled line never ends the connection, even without a value or when Headers.Add refuses it |
| HeaderTranslation.TranslateFails | HTTPProxy_Server/ProxyServer.cs:283-326 | a line ends the connection exactly when it names a handled header and has no value, or names a dedicated property whose setter refuses its value; whatever was read before |
| HeaderTranslation.TranslateBag | HTTPProxy_Server/ProxyServer.cs:318-327 | one line adds to the bag exactly its forwarded pair, if any |
| HeaderTranslation.TranslateField | HTTPProxy_Server/ProxyServer.cs:286-311 | one line sets a dedicated field to its value exactly when it names that field |
| HeaderTranslation.TranslateContentLength | HTTPProxy_Server/ProxyServer.cs:306-308 | a Content-Length line sets the hint to its parse, or 0 when it does not parse; other lines keep the hint |
| HeaderTranslation.TranslateDate | HTTPProxy_Server/ProxyServer.cs:312-317 | an If-Modified-Since line sets the date exactly when its date text parses and otherwise keeps it; a line that aborts carries no date, and an If-Modified-Since line that aborts has no value, so an unparsable date never aborts |
| HeaderTranslation.StopsAtFirstBlankLine | HTTPProxy_Server/ProxyServer.cs:280-329 | every line before the stop is not blank, and a clean stop before the end of the stream is at an empty or white-space line |
| HeaderTranslation.FaultAtAbortingLine | HTTPProxy_Server/ProxyServer.cs:278-330 | the loop ends in a fault exactly when the last line it read is one that aborts, and no earlier line read aborts |
| HeaderTranslation.BagIsPassThrough | HTTPProxy_Server/ProxyServer.cs:318-327 | on every path the bag gains exactly the forwarded lines among those read, in order; refused or valueless lines are dropped and reading goes on |
| HeaderTranslation.HopByHopNeverForwarded | HTTPProxy_Server/ProxyServer.cs:301-305 | Connection, Proxy-Connection and Keep-Alive, in any ASCII casing, never reach the bag |
| HeaderTranslation.LastFieldLineWins | HTTPProxy_Server/ProxyServer.cs:286-311 | on a run that ends without a fault, each dedicated field ends with the value of the last line naming it, or its old value |
| HeaderTranslation.LastContentLengthWins | HTTPProxy_Server/ProxyServer.cs:277-308 | the hint is the parse of the last Content-Length line (0 when unparsable), or the starting 0 when there is none |
| HeaderTranslation.LastParsedDateWins | HTTPProxy_Server/ProxyServer.cs:312-317 | If-Modified-Since is the date of the last such line whose date text parses, and stays unset otherwise |
| RequestReading.LineReader.ReadLine | HTTPProxy_Server/ProxyServer.cs:280 | the next line and one step forward, or None at the end without moving |
| RequestReading.OutboundRequest.Create | HTTPProxy_Server/ProxyServer.cs:152 | the new object's state is NewRequest(uri) |
| RequestReading.OutboundRequest.SetMethod | HTTPProxy_Server/ProxyServer.cs:153 | the method changes exactly when the setter accepts it |
| RequestReading.OutboundRequest.SetField | HTTPProxy_Server/ProxyServer.cs:286-311 | the field is set exactly when the setter accepts the value; nothing else changes |
| RequestReading.OutboundRequest.SetIfModifiedSince | HTTPProxy_Server/ProxyServer.cs:316 | only If-Modified-Since changes |
| RequestReading.OutboundRequest.SetFixedSettings | HTTPProxy_Server/ProxyServer.cs:159-169 | the new state is Finalize of the old one |
| RequestReading.OutboundRequest.AddHeader | HTTPProxy_Server/ProxyServer.cs:321 | the pair is appended to the sequence of Headers.Add calls exactly when Headers.Add takes it |
| RequestReading.HandleHeaderLine | HTTPProxy_Server/ProxyServer.cs:283-328 | one pass of the switch changes the request and the hint as Translate says, and leaves the request alone on a fault |
| RequestReading.ReadRequestHeaders | HTTPProxy_Server/ProxyServer.cs:274-331 | the request, the lines consumed and the answer (hint or fault) are those of HeaderBlock |
| ResponseRelay.StatusLine | HTTPProxy_Server/ProxyServer.cs:187 | the status line splits at its first two spaces into "HTTP/1.0", the code's text and the whole reason phrase, spaces in it included |
| ResponseRelay.StatusLineParses | HTTPProxy_Server/ProxyServer.cs:187 | the code token of the status line reads back as the origin's status code |
| ResponseRelay.HeaderLine | HTTPProxy_Server/ProxyServer.cs:192 | a header line has ": " right after the name |
| ResponseRelay.HeaderLineParses | HTTPProxy_Server/ProxyServer.cs:192 | a written header line reads back as its name and value when the name holds no ": " |
| ResponseRelay.MergedHeaders | HTTPProxy_Server/ProxyServer.cs:245-254 | one pair per response header name, in the collection's order: that name and its values merged by MergedValue |
| ResponseRelay.MergedValue | HTTPProxy_Server/ProxyServer.cs:251 | a single value is written as it is; several values come back by splitting the merged value at its commas when none but the last holds a comma |
| ResponseRelay.ProcessResponse | HTTPProxy_Server/ProxyServer.cs:245-254 | the loop returns MergedHeaders of the response's headers |
| ResponseRelay.HeaderLines | HTTPProxy_Server/ProxyServer.cs:191-192 | one Name: Value line per pair, in order |
| ResponseRelay.ResponseHead | HTTPProxy_Server/ProxyServer.cs:187-194 | the head has one line per response header name plus two: the status line first, then for the i-th name the line `Name: v1,v2,...` of its merged values, and the empty line last |
| ResponseRelay.HeadEndsAtBlankLine | HTTPProxy_Server/ProxyServer.cs:187-194 | the head is the status line, one line per header and a blank line; the blank line is the only empty one |
| ResponseRelay.BufferSize | HTTPProxy_Server/ProxyServer.cs:197-201 | the buffer is the declared Content-Length when positive, 8192 otherwise, and never empty |
| ResponseRelay.Take | HTTPProxy_Server/ProxyServer.cs:205 | a read takes at most what the buffer and the next segment hold, and 0 exactly at the end, at an empty segment or into an empty buffer |
| ResponseRelay.AfterRead | HTTPProxy_Server/ProxyServer.cs:205 | a read takes a prefix of the stream's bytes and leaves the rest |
| ResponseRelay.BodyChunks | HTTPProxy_Server/ProxyServer.cs:203-210 | every chunk written is non-empty and no longer than the buffer |
| ResponseRelay.BeforeEnd | HTTPProxy_Server/ProxyServer.cs:205 | the segments before the first empty one, all non-empty |
| ResponseRelay.EndSplitsStream | HTTPProxy_Server/ProxyServer.cs:205 | the stream is what comes before its end followed by what the relay leaves |
| ResponseRelay.ReadKeepsEnd | HTTPProxy_Server/ProxyServer.cs:205 | a read that takes bytes does not move the stream's end |
| ResponseRelay.ReadSplitsBody | HTTPProxy_Server/ProxyServer.cs:205-208 | the bytes before the end are the bytes read followed by those still before it |
| ResponseRelay.RelayCopiesBody | HTTPProxy_Server/ProxyServer.cs:203-210 | the bytes written are exactly the body's bytes up to the first zero-byte read, in order, for any buffer size |
| ResponseRelay.BodyStream.Read | HTTPProxy_Server/ProxyServer.cs:205 | copies Take bytes of the next segment into the front of the buffer and leaves After in the stream |
| ResponseRelay.ClientOutput.WriteLine | HTTPProxy_Server/ProxyServer.cs:187-194 | appends one line |
| ResponseRelay.ClientOutput.Write | HTTPProxy_Server/ProxyServer.cs:208 | appends the first `count` bytes of the buffer |
| ResponseRelay.RelayBody | HTTPProxy_Server/ProxyServer.cs:197-210 | the client receives BodyChunks of the stream for BufferSize(ContentLength), and the stream is left at its end |
| Connection.RequestLineNeedsSpace | HTTPProxy_Server/ProxyServer.cs:141-144 | a request line has a method and a target exactly when it holds a space |
| Connection.RequestLineTokens | HTTPProxy_Server/ProxyServer.cs:141-144 | the method is the first token and the target the second, whatever follows |
| Connection.RequestLine | HTTPProxy_Server/ProxyServer.cs:141-144 | a request line that yields a method and a target starts with them, separated by one space, and neither holds a space |
| Connection.Initial | HTTPProxy_Server/ProxyServer.cs:152-154 | the request starts with the client's method and target, version 1.0 and no headers |
| Connection.Prepare | HTTPProxy_Server/ProxyServer.cs:132-162 | building the request can fail only with a pre-send ending |
| Connection.Serve | HTTPProxy_Server/ProxyServer.cs:122-238 | the client receives something exactly when a response is relayed; a request is sent exactly when the exchange ends in a relayed response or an unreachable origin |
| Connection.SentExactlyWhenAccepted | HTTPProxy_Server/ProxyServer.cs:132-169 | a request is sent exactly when the first line is present, not empty and has two tokens, the target makes a request, the method setter takes the method and no header line read aborts |
| Connection.MalformedRequestLine | HTTPProxy_Server/ProxyServer.cs:132-144 | a missing or empty first line, or one with no space, sends no request and writes nothing |
| Connection.SentRequestSettings | HTTPProxy_Server/ProxyServer.cs:141-169 | the request sent has the client's method and target, version 1.0 and the fixed settings, whatever the headers were |
| Connection.SentHeadersArePassThrough | HTTPProxy_Server/ProxyServer.cs:157 | the Headers.Add calls made on the request sent are exactly those for the forwarded header lines read, in order, and none is for a hop-by-hop name |
| Connection.SentFieldsAreLastLines | HTTPProxy_Server/ProxyServer.cs:157 | each dedicated property of the request sent holds the value of the last header line read that names it, unset if none; If-Modified-Since is the date of the last such line whose date parses |
| Connection.ClientVersionIgnored | HTTPProxy_Server/ProxyServer.cs:141-145 | the client's version token does not affect the exchange |
| Connection.RelayedResponse | HTTPProxy_Server/ProxyServer.cs:179-210 | a relayed response is its head and its body chunks; the status line carries the origin's code and reason; the bytes are the body up to the first zero-byte read |
| Connection.BuildRequest | HTTPProxy_Server/ProxyServer.cs:132-169 | the request built, or the ending, is Prepare of the client's lines |
| Connection.DoHttpProcessing | HTTPProxy_Server/ProxyServer.cs:122-238 | the ending, the request sent and the writes to the client are those of Serve |
| Connection.RelayResponse | HTTPProxy_Server/ProxyServer.cs:181-215 | the client receives the response's head and then its body chunks |
| Connection.WriteResponseHead | HTTPProxy_Server/ProxyServer.cs:181-195 | the client receives the status line, the ProcessResponse lines and a blank line |
| Startup.ListenPort | HTTPProxy_Server/ProxyServer.cs:30-40 | null or empty text gives 8081; otherwise the text's parse: refused as not a number when it does not parse, refused with that port when it lies outside 0..65535, and otherwise exactly the parsed port |
| Startup.PortTextSelectsPort | HTTPProxy_Server/ProxyServer.cs:31-37 | whenever Int32.Parse reads the decimal text of a valid port as that port, that port is listened on |
| Startup.DecimalPortSelectsPort | HTTPProxy_Server/ProxyServer.cs:31-37 | a port written in decimal is the port listened on |

## Left out

- `Start`, `Stop`, `Listen` and `ProcessClient` are not modelled. They are the
  `TcpListener` accept loop, the thread pool, and thread abort and join: concurrency and
  socket plumbing.
- Console output is not modelled: `ShowHeader`, the request echo and the messages for
  refused headers and failed starts.
- The `Close` and `Flush` calls are not modelled: they release the real streams.
- `GetResponse` is the parameter `Env.origin`.
  - A `WebException` that carries a response counts as that response.
  - A failure without one counts as no response.
  - The 15 second timeout is recorded only as the request's `timeoutMs`.
- These library calls are parameters of `Env`, since their grammar and checks are not part
  of this model:
  - `int.TryParse` and `DateTime.TryParse`;
  - `Int32.Parse`, which is the `parseInt32` parameter of `Startup.ListenPort`;
  - the validation done by the `Method`, `Host`, `UserAgent`, `Accept`, `Referer` and
    `ContentType` setters and by the `Cookie` indexer;
  - `WebHeaderCollection.Add`;
  - whether `HttpWebRequest.Create` yields an HTTP request for the target.
- The target URI is kept as the client's text. `Uri` parsing and normalisation are not modelled.
- Strings.ToLower: lowers ASCII letters only. Culture-specific lowering of other
  letters is not modelled, so header names are matched case-insensitively only up to ASCII case.
- RequestReading.OutboundRequest.AddHeader: the header bag is the sequence of
  `Headers.Add` calls that succeeded. `WebHeaderCollection.Add` merges a name already
  present into one entry with comma-separated values; that merging is not modelled, so a
  repeated pass-through name appears once per line here.
- RequestReading.OutboundRequest.SetField: an empty value is stored as the empty text. The
  `Accept`, `Referer`, `UserAgent` and `ContentType` setters remove the header instead when
  given "", so such a property ends unset in the code but holds "" here.
- Where the `Cookie` header goes is simplified. The code sets it through the header
  indexer; the model keeps it in a field of its own, not in the header bag.
- Allocation failure is not modelled. With a very large declared Content-Length the buffer
  allocation can fail; here the buffer is always allocated.
- An exception while reading the origin's body or writing to the client is not modelled.
  It would end the copy early, after the head was sent.
- The response stream is a sequence of segments.
  - A read returns at most the rest of the next segment.
  - An empty segment stands for a read that returns 0.
  - Other ways in which a real stream splits its reads are not modelled.
- The bytes of the lines written to the client are not modelled. Each line is a `Line`
  value. The `StreamWriter` encodes it in UTF-8 and ends it with `Environment.NewLine`,
  which is "\n" on Unix rather than HTTP's "\r\n"; neither the encoding nor the line
  terminator appears in the model.
- Decoding of the client's bytes into lines is not modelled: the client's input is
  already a sequence of lines, as `StreamReader.ReadLine` returns them.
- `HTTPProxy_Server/Program.cs` is not part of this model. It only passes its first
  argument on as the port text.

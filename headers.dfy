/** How the proxy turns the client's header lines into the outbound request
    (ReadRequestHeaders): the effect of one line, and of a whole header block. */
module HeaderTranslation {
  import opened Wrappers
  import opened Strings
  import opened Http

  /** The cases of the switch on a lower-cased header name. */
  datatype HeaderKind = Dedicated(field: Field) | HopByHopHeader | ContentLengthHeader
                      | IfModifiedSinceHeader | OtherHeader

  /** The case a lower-cased header name selects. */
  function KindOf(key: string): (k: HeaderKind)
    ensures k.HopByHopHeader? <==> key in {"proxy-connection", "connection", "keep-alive"}
  {
    if key == "host" then Dedicated(HostField)
    else if key == "user-agent" then Dedicated(UserAgentField)
    else if key == "accept" then Dedicated(AcceptField)
    else if key == "referer" then Dedicated(RefererField)
    else if key == "cookie" then Dedicated(CookieField)
    else if key == "proxy-connection" || key == "connection" || key == "keep-alive" then HopByHopHeader
    else if key == "content-length" then ContentLengthHeader
    else if key == "content-type" then Dedicated(ContentTypeField)
    else if key == "if-modified-since" then IfModifiedSinceHeader
    else OtherHeader
  }

  /** The request under construction and the Content-Length hint read so far. */
  datatype HeaderState = HeaderState(req: Request, contentLen: int)

  /** Why a header line ends the connection: a named header with no ": " (the value lookup
      fails), or a value a validating setter refuses. */
  datatype Fault = MissingValue(name: string) | Rejected(name: string, value: string)

  /** A header line split at the first ": ". */
  function SplitHeader(line: string): (r: (string, Option<string>))
    ensures r.1.Some? ==> line == r.0 + ": " + r.1.value
    ensures r.1.None? ==> r.0 == line
  {
    SplitOnce(line, ": ")
  }

  /** The dedicated field `f` of a request. */
  function FieldValue(req: Request, f: Field): Option<string> {
    match f
    case HostField => req.host
    case UserAgentField => req.userAgent
    case AcceptField => req.accept
    case RefererField => req.referer
    case CookieField => req.cookie
    case ContentTypeField => req.contentType
  }

  /** `req` with its field `f` set to `v`. */
  function WithField(req: Request, f: Field, v: string): (r: Request)
    ensures FieldValue(r, f) == Some(v)
    ensures forall g :: g != f ==> FieldValue(r, g) == FieldValue(req, g)
    ensures r.headers == req.headers && r.ifModifiedSince == req.ifModifiedSince
    ensures SameTransport(r, req)
  {
    match f
    case HostField => req.(host := Some(v))
    case UserAgentField => req.(userAgent := Some(v))
    case AcceptField => req.(accept := Some(v))
    case RefererField => req.(referer := Some(v))
    case CookieField => req.(cookie := Some(v))
    case ContentTypeField => req.(contentType := Some(v))
  }

  /** The part of an If-Modified-Since value that is parsed as a date: the trimmed value up
      to its first ';'. */
  function DateText(v: string): (d: string)
    ensures Free(d, ';')
    ensures var t := Trim(v); |d| <= |t| && t[..|d|] == d && (|d| < |t| ==> t[|d|] == ';')
  {
    var t := Trim(v);
    var parts := Split(t, ';', |t| + 1);
    if |parts| == 1 then
      parts[0]
    else
      assert t == parts[0] + [';'] + Join(parts[1..], ';');
      assert t[|parts[0]|] == ';';
      parts[0]
  }

  /** What one pass of the switch decides for a line. */
  datatype Action =
    | Skip
    | SetField(field: Field, value: string)
    | SetContentLength(n: int)
    | SetIfModifiedSince(d: Date)
    | AddHeader(name: string, value: string)
    | Abort(fault: Fault)

  /** The switch of ReadRequestHeaders: the line is split at the first ": " and its name,
      lower-cased, picks the case. */
  function Classify(env: Env, line: string): (a: Action)
    ensures var (name, value) := SplitHeader(line);
      var kind := KindOf(ToLower(name));
      && (kind.HopByHopHeader? ==> a == Skip)
      && (value.None? ==> a == if kind.OtherHeader? || kind.HopByHopHeader? then Skip else Abort(MissingValue(name)))
      && (a.Abort? ==> !kind.OtherHeader? && !kind.HopByHopHeader?)
      && (a.AddHeader? ==> a.name == name && Some(a.value) == value && kind.OtherHeader?)
      && (a.SetField? ==> kind == Dedicated(a.field) && Some(a.value) == value)
  {
    var (name, value) := SplitHeader(line);
    match KindOf(ToLower(name))
    case HopByHopHeader => Skip
    case OtherHeader =>
      if value.Some? && env.canAdd(name, value.value) then AddHeader(name, value.value) else Skip
    case ContentLengthHeader =>
      if value.None? then Abort(MissingValue(name))
      else SetContentLength(env.parseInt(value.value).GetOr(0))
    case IfModifiedSinceHeader =>
      if value.None? then Abort(MissingValue(name))
      else (match env.parseDate(DateText(value.value))
        case Some(d) => SetIfModifiedSince(d)
        case None => Skip)
    case Dedicated(f) =>
      if value.None? then Abort(MissingValue(name))
      else if env.accepts(FieldSetter(f), value.value) then SetField(f, value.value)
      else Abort(Rejected(name, value.value))
  }

  /** What an action does to the request under construction. */
  function Apply(st: HeaderState, a: Action): (r: Result<HeaderState, Fault>)
    ensures r.Success? ==> SameTransport(r.value.req, st.req)
    ensures r.Failure? <==> a.Abort?
  {
    match a
    case Skip => Success(st)
    case SetField(f, v) => Success(st.(req := WithField(st.req, f, v)))
    case SetContentLength(n) => Success(st.(contentLen := n))
    case SetIfModifiedSince(d) => Success(st.(req := st.req.(ifModifiedSince := Some(d))))
    case AddHeader(name, v) => Success(st.(req := st.req.(headers := st.req.headers + [(name, v)])))
    case Abort(f) => Failure(f)
  }

  /** The effect of one header line (one pass of the loop body in ReadRequestHeaders). */
  function Translate(env: Env, st: HeaderState, line: string): (r: Result<HeaderState, Fault>)
    ensures r.Success? ==> SameTransport(r.value.req, st.req)
  {
    Apply(st, Classify(env, line))
  }

  /** Where reading a header block stopped: the fault that ended the connection, if any, the
      state reached, and how many lines were taken from the client. */
  datatype HeaderRun = HeaderRun(fault: Option<Fault>, state: HeaderState, consumed: nat)

  /** ReadRequestHeaders over the lines the client sends after the request line: read until
      the stream ends or a line is empty; apply each other line; stop after a line that is
      only white space. */
  function HeaderBlock(env: Env, lines: seq<string>, st: HeaderState): (run: HeaderRun)
    ensures run.consumed <= |lines| && (lines != [] <==> run.consumed >= 1)
    ensures SameTransport(run.state.req, st.req)
    decreases |lines|
  {
    if lines == [] then HeaderRun(None, st, 0)
    else if lines[0] == "" then HeaderRun(None, st, 1)
    else match Translate(env, st, lines[0])
      case Failure(f) => HeaderRun(Some(f), st, 1)
      case Success(next) =>
        if IsBlank(lines[0]) then HeaderRun(None, next, 1)
        else
          var run := HeaderBlock(env, lines[1..], next);
          run.(consumed := run.consumed + 1)
  }

  /** What a line contributes to the outbound header bag: itself, split at the first ": ",
      when its name is not one the switch handles and Headers.Add takes it. */
  function Forwarded(env: Env, line: string): (pairs: seq<(string, string)>)
    ensures |pairs| <= 1
    ensures pairs != [] <==> var (name, value) := SplitHeader(line);
      KindOf(ToLower(name)).OtherHeader? && value.Some? && env.canAdd(name, value.value)
    ensures pairs != [] ==> line == pairs[0].0 + ": " + pairs[0].1
  {
    var (name, value) := SplitHeader(line);
    if KindOf(ToLower(name)).OtherHeader? && value.Some? && env.canAdd(name, value.value)
    then [(name, value.value)] else []
  }

  /** The pairs the header bag gains from `lines`, in order. */
  function PassThrough(env: Env, lines: seq<string>): seq<(string, string)> {
    if lines == [] then [] else Forwarded(env, lines[0]) + PassThrough(env, lines[1..])
  }

  /** Every forwarded pair has a name the switch does not handle and was taken by
      Headers.Add. */
  lemma {:induction false} PassThroughOnlyUnhandled(env: Env, lines: seq<string>)
    ensures forall p :: p in PassThrough(env, lines) ==>
      KindOf(ToLower(p.0)).OtherHeader? && env.canAdd(p.0, p.1)
  {
    if lines != [] {
      PassThroughOnlyUnhandled(env, lines[1..]);
      PassThroughCons(env, lines);
    }
  }

  /** Each forwarded pair is, joined by ": ", one of the lines it came from. */
  lemma {:induction false} PassThroughFromLines(env: Env, lines: seq<string>)
    ensures forall p :: p in PassThrough(env, lines) ==> p.0 + ": " + p.1 in lines
  {
    if lines != [] {
      PassThroughFromLines(env, lines[1..]);
      PassThroughCons(env, lines);
      forall p | p in PassThrough(env, lines) ensures p.0 + ": " + p.1 in lines {
        if p in PassThrough(env, lines[1..]) {
          assert p.0 + ": " + p.1 in lines[1..];
        } else {
          var sp := SplitHeader(lines[0]);
          assert p == (sp.0, sp.1.value);
          assert lines[0] == sp.0 + ": " + sp.1.value;
        }
      }
    }
  }

  /** The value a line carries for the header kind `kind`. */
  function ValueFor(line: string, kind: HeaderKind): Option<string> {
    var (name, value) := SplitHeader(line);
    if KindOf(ToLower(name)) == kind then value else None
  }

  /** The value of the last line of `lines` that carries one for `kind`. */
  function LastValue(lines: seq<string>, kind: HeaderKind): Option<string> {
    if lines == [] then None else LastValue(lines[1..], kind).OrElse(ValueFor(lines[0], kind))
  }

  /** The date a line carries: its If-Modified-Since date text, when that parses. */
  function DateFor(env: Env, line: string): Option<Date> {
    match ValueFor(line, IfModifiedSinceHeader)
    case Some(v) => env.parseDate(DateText(v))
    case None => None
  }

  /** The date of the last If-Modified-Since line whose date text parses. */
  function LastDate(env: Env, lines: seq<string>): Option<Date> {
    if lines == [] then None else LastDate(env, lines[1..]).OrElse(DateFor(env, lines[0]))
  }

  /** A line that is only white space has no ": " and no name the switch knows, so it leaves
      the request and the hint alone. */
  lemma BlankLineIsInert(env: Env, st: HeaderState, line: string)
    requires IsBlank(line)
    ensures Translate(env, st, line) == Success(st)
  {
    forall k: nat ensures !OccursAt(line, ": ", k) {
      if k + 2 <= |line| { assert line[k..k + 2][0] == line[k]; }
    }
    var (name, value) := SplitHeader(line);
    assert name == line;
    var key := ToLower(name);
    assert key == [] || key[0] == line[0];
    assert key == [] || IsWhiteSpace(key[0]);
  }

  /** A line made of a name without ": ", the separator and a value splits back into that
      name and that value, whatever the value holds, later ": " included. */
  lemma SplitAtFirstSeparator(name: string, value: string)
    requires forall k: nat :: !OccursAt(name, ": ", k)
    ensures SplitHeader(name + ": " + value) == (name, Some(value))
  {
    var line := name + ": " + value;
    assert OccursAt(line, ": ", |name|) by {
      assert line[|name|..|name| + 2] == ": ";
    }
    forall k: nat | k < |name| ensures !OccursAt(line, ": ", k) {
      NoEarlierSeparator(name, value, k);
    }
    var (n, v) := SplitHeader(line);
    assert v.Some?;
    assert line == n + ": " + v.value;
    assert OccursAt(line, ": ", |n|) by {
      assert line[|n|..|n| + 2] == ": ";
    }
    assert |n| == |name|;
    assert n == line[..|n|] && name == line[..|name|];
    assert v.value == line[|n| + 2..] && value == line[|name| + 2..];
  }

  /** A line with a ": " splits at the first one: its name holds no separator. */
  lemma NameHoldsNoSeparator(line: string)
    ensures var (name, value) := SplitHeader(line);
      value.Some? ==> forall k: nat :: k < |name| ==> !OccursAt(line, ": ", k)
  {
  }

  /** No ": " of `name + ": " + value` starts inside `name` when `name` holds none. */
  lemma NoEarlierSeparator(name: string, value: string, k: nat)
    requires forall j: nat :: !OccursAt(name, ": ", j)
    requires k < |name|
    ensures !OccursAt(name + ": " + value, ": ", k)
  {
    var line := name + ": " + value;
    if k + 2 <= |name| {
      assert line[k..k + 2] == name[k..k + 2];
      assert !OccursAt(name, ": ", k);
    } else {
      assert line[k + 1] == ':';
      assert line[k..k + 2][1] == ':';
    }
  }

  /** A header the switch does not handle is added with its name and its whole value. */
  lemma ValueKeepsLaterSeparators(env: Env, name: string, value: string)
    requires forall k: nat :: !OccursAt(name, ": ", k)
    requires KindOf(ToLower(name)).OtherHeader? && env.canAdd(name, value)
    ensures Forwarded(env, name + ": " + value) == [(name, value)]
  {
    SplitAtFirstSeparator(name, value);
  }

  /** Header names are matched without regard to ASCII case: two spellings of a name the
      switch handles have the same effect on the request and the hint. */
  lemma NamesMatchWithoutCase(env: Env, st: HeaderState, name1: string, name2: string, value: string)
    requires forall k: nat :: !OccursAt(name1, ": ", k)
    requires forall k: nat :: !OccursAt(name2, ": ", k)
    requires ToLower(name1) == ToLower(name2) && !KindOf(ToLower(name1)).OtherHeader?
    ensures Translate(env, st, name1 + ": " + value).Success? <==> Translate(env, st, name2 + ": " + value).Success?
    ensures Translate(env, st, name1 + ": " + value).Success? ==>
      Translate(env, st, name1 + ": " + value) == Translate(env, st, name2 + ": " + value)
  {
    var line1, line2 := name1 + ": " + value, name2 + ": " + value;
    SplitAtFirstSeparator(name1, value);
    SplitAtFirstSeparator(name2, value);
    var a1, a2 := Classify(env, line1), Classify(env, line2);
    assert a1 == a2 || (a1.Abort? && a2.Abort?) by {
      match KindOf(ToLower(name1))
      case Dedicated(f) =>
        if env.accepts(FieldSetter(f), value) {
          assert a1 == SetField(f, value) == a2;
        }
      case _ =>
    }
  }

  /** Only a header the switch handles by name can end the connection: a pass-through or
      hop-by-hop line never does, whether or not Headers.Add takes it or it has a value. */
  lemma OnlyHandledHeadersAbort(env: Env, st: HeaderState, line: string)
    ensures var kind := KindOf(ToLower(SplitHeader(line).0));
      kind.OtherHeader? || kind.HopByHopHeader? ==> Translate(env, st, line).Success?
  {
    var a := Classify(env, line);
    assert Translate(env, st, line).Failure? ==> a.Abort?;
  }

  /** A line ends the connection when it names a header the switch handles but has no
      ": ", or when a dedicated property's setter refuses its value. */
  predicate LineAborts(env: Env, line: string) {
    var (name, value) := SplitHeader(line);
    var kind := KindOf(ToLower(name));
    || (!kind.OtherHeader? && !kind.HopByHopHeader? && value.None?)
    || (kind.Dedicated? && value.Some? && !env.accepts(FieldSetter(kind.field), value.value))
  }

  /** Exactly the lines LineAborts names make the header loop fail, whatever has been read
      before: Content-Length and If-Modified-Since with a value never do, the latter not
      even when its date does not parse. */
  lemma TranslateFails(env: Env, st: HeaderState, line: string)
    ensures Translate(env, st, line).Failure? <==> LineAborts(env, line)
  {
  }

  /** The empty line has no value. */
  lemma EmptyLineHasNoValue()
    ensures SplitHeader("") == ("", None)
  {
    assert IndexOfFrom("", ": ", 0) == None;
  }

  /** `lines[..c]` without its first line is the first `c - 1` lines of `lines[1..]`. */
  lemma PrefixTail(lines: seq<string>, c: nat)
    requires 1 <= c <= |lines|
    ensures lines[..c][0] == lines[0] && lines[..c][1..] == lines[1..][..c - 1]
  {
  }

  /** One line's effect on the header bag. */
  lemma TranslateBag(env: Env, st: HeaderState, line: string)
    ensures match Translate(env, st, line)
      case Success(next) =>
        next.req.headers == st.req.headers + Forwarded(env, line)
      case Failure(_) => Forwarded(env, line) == []
  {
  }

  /** One line's effect on a dedicated field. */
  lemma TranslateField(env: Env, st: HeaderState, line: string, f: Field)
    ensures Translate(env, st, line).Success? ==>
      FieldValue(Translate(env, st, line).value.req, f) == ValueFor(line, Dedicated(f)).OrElse(FieldValue(st.req, f))
  {
    var a := Classify(env, line);
    var sp := SplitHeader(line);
    var kind := KindOf(ToLower(sp.0));
    match a
    case SetField(g, v) =>
      if g == f {
        assert ValueFor(line, Dedicated(f)) == Some(v);
      } else {
        assert ValueFor(line, Dedicated(f)) == None;
      }
    case Abort(_) =>
    case Skip =>
      assert kind == Dedicated(f) ==> sp.1.None?;
    case SetContentLength(_) =>
      assert kind == ContentLengthHeader;
    case SetIfModifiedSince(d) =>
      assert kind == IfModifiedSinceHeader;
      FieldValueKeptByDate(st.req, d, f);
    case AddHeader(_, _) =>
      assert kind == OtherHeader;
      FieldValueKeptByHeaders(st.req, a.name, a.value, f);
  }

  /** Setting If-Modified-Since leaves the dedicated fields alone. */
  lemma FieldValueKeptByDate(req: Request, d: Date, f: Field)
    ensures FieldValue(req.(ifModifiedSince := Some(d)), f) == FieldValue(req, f)
  {
  }

  /** Adding to the header bag leaves the dedicated fields alone. */
  lemma FieldValueKeptByHeaders(req: Request, name: string, v: string, f: Field)
    ensures FieldValue(req.(headers := req.headers + [(name, v)]), f) == FieldValue(req, f)
  {
  }

  /** One line's effect on the Content-Length hint. */
  lemma TranslateContentLength(env: Env, st: HeaderState, line: string)
    ensures match Translate(env, st, line)
      case Success(next) =>
        next.contentLen == (match ValueFor(line, ContentLengthHeader)
          case Some(v) => env.parseInt(v).GetOr(0)
          case None => st.contentLen)
      case Failure(_) => ValueFor(line, ContentLengthHeader).None?
  {
  }

  /** One line's effect on If-Modified-Since. */
  lemma TranslateDate(env: Env, st: HeaderState, line: string)
    ensures match Translate(env, st, line)
      case Success(next) => next.req.ifModifiedSince == DateFor(env, line).OrElse(st.req.ifModifiedSince)
      case Failure(_) =>
        && DateFor(env, line).None?
        && (KindOf(ToLower(SplitHeader(line).0)) == IfModifiedSinceHeader ==> SplitHeader(line).1.None?)
  {
    var sp := SplitHeader(line);
    var kind := KindOf(ToLower(sp.0));
    match Classify(env, line)
    case SetIfModifiedSince(d) =>
      assert kind == IfModifiedSinceHeader && sp.1.Some?;
      assert DateFor(env, line) == Some(d);
    case Skip =>
      assert kind == IfModifiedSinceHeader && sp.1.Some? ==> env.parseDate(DateText(sp.1.value)).None?;
    case Abort(_) =>
      assert kind == IfModifiedSinceHeader ==> sp.1.None?;
    case _ =>
      assert kind != IfModifiedSinceHeader;
  }

  /** One step of the header loop: a line that is neither empty, nor refused, nor blank is
      applied and reading goes on with the next line. */
  lemma HeaderBlockStep(env: Env, lines: seq<string>, st: HeaderState)
    requires lines != [] && !IsBlank(lines[0]) && Translate(env, st, lines[0]).Success?
    ensures var run := HeaderBlock(env, lines[1..], Translate(env, st, lines[0]).value);
      HeaderBlock(env, lines, st) == run.(consumed := run.consumed + 1)
  {
  }

  /** Reading stops at the first empty or white-space-only line: every line before it was
      processed, and a clean stop is at such a line or at the end of the stream. */
  lemma {:induction false} StopsAtFirstBlankLine(env: Env, lines: seq<string>, st: HeaderState)
    ensures StopsAtBlank(env, lines, st)
    decreases |lines|
  {
    if lines != [] && lines[0] != "" && !IsBlank(lines[0]) && Translate(env, st, lines[0]).Success? {
      StopsAtFirstBlankLine(env, lines[1..], Translate(env, st, lines[0]).value);
      StopsStep(env, lines, st);
    }
  }

  /** Every line read before the last is neither empty nor blank, and a run that stops
      cleanly before the end of the stream stops at such a line. */
  ghost predicate StopsAtBlank(env: Env, lines: seq<string>, st: HeaderState) {
    var run := HeaderBlock(env, lines, st);
    && (forall k :: 0 <= k < run.consumed - 1 ==> !IsBlank(lines[k]))
    && (run.fault.None? && run.consumed < |lines| ==> IsBlank(lines[run.consumed - 1]))
  }

  /** StopsAtFirstBlankLine carried from the lines after the first to all of them. */
  lemma StopsStep(env: Env, lines: seq<string>, st: HeaderState)
    requires lines != [] && lines[0] != "" && !IsBlank(lines[0]) && Translate(env, st, lines[0]).Success?
    requires StopsAtBlank(env, lines[1..], Translate(env, st, lines[0]).value)
    ensures StopsAtBlank(env, lines, st)
  {
    var next := Translate(env, st, lines[0]).value;
    var rest := HeaderBlock(env, lines[1..], next);
    var run := HeaderBlock(env, lines, st);
    HeaderBlockStep(env, lines, st);
    assert run.fault == rest.fault && run.consumed == rest.consumed + 1;
    forall k | 0 <= k < run.consumed - 1 ensures !IsBlank(lines[k]) {
      if k > 0 { assert lines[k] == lines[1..][k - 1]; }
    }
    if rest.consumed >= 1 {
      assert lines[run.consumed - 1] == lines[1..][rest.consumed - 1];
    }
  }

  /** A run ends in a fault exactly when the last line it read is one LineAborts names, and
      none before it is. */
  lemma {:induction false} FaultAtAbortingLine(env: Env, lines: seq<string>, st: HeaderState)
    ensures FaultWins(env, lines, st)
    decreases |lines|
  {
    if lines != [] {
      TranslateFails(env, st, lines[0]);
      if lines[0] == "" {
        EmptyLineHasNoValue();
      } else if !IsBlank(lines[0]) && Translate(env, st, lines[0]).Success? {
        FaultAtAbortingLine(env, lines[1..], Translate(env, st, lines[0]).value);
        FaultStep(env, lines, st);
      }
    }
  }

  /** No line read before the last aborts, and the run has a fault exactly when the last
      line read aborts. */
  ghost predicate FaultWins(env: Env, lines: seq<string>, st: HeaderState) {
    var run := HeaderBlock(env, lines, st);
    && (forall k :: 0 <= k < run.consumed - 1 ==> !LineAborts(env, lines[k]))
    && (run.fault.Some? <==> run.consumed >= 1 && LineAborts(env, lines[run.consumed - 1]))
  }

  /** FaultAtAbortingLine carried from the lines after the first to all of them. */
  lemma FaultStep(env: Env, lines: seq<string>, st: HeaderState)
    requires lines != [] && lines[0] != "" && !IsBlank(lines[0]) && Translate(env, st, lines[0]).Success?
    requires FaultWins(env, lines[1..], Translate(env, st, lines[0]).value)
    ensures FaultWins(env, lines, st)
  {
    var next := Translate(env, st, lines[0]).value;
    var rest := HeaderBlock(env, lines[1..], next);
    var run := HeaderBlock(env, lines, st);
    HeaderBlockStep(env, lines, st);
    assert run.fault == rest.fault && run.consumed == rest.consumed + 1;
    TranslateFails(env, st, lines[0]);
    forall k | 0 <= k < run.consumed - 1 ensures !LineAborts(env, lines[k]) {
      if k > 0 { assert lines[k] == lines[1..][k - 1]; }
    }
    if rest.consumed >= 1 {
      assert lines[run.consumed - 1] == lines[1..][rest.consumed - 1];
    }
  }

  /** The outbound header bag is the bag it started with followed by exactly the forwarded
      lines among those read, in order; on every path, including a fault. */
  lemma {:induction false} BagIsPassThrough(env: Env, lines: seq<string>, st: HeaderState)
    ensures BagWins(env, lines, st)
    decreases |lines|
  {
    if lines != [] {
      var line := lines[0];
      if line != "" && !IsBlank(line) && Translate(env, st, line).Success? {
        BagIsPassThrough(env, lines[1..], Translate(env, st, line).value);
        BagStep(env, lines, st);
      } else {
        BagAtLastLine(env, lines, st);
      }
    }
  }

  /** The header bag after the run is the old one followed by the pairs forwarded from the
      lines read. */
  ghost predicate BagWins(env: Env, lines: seq<string>, st: HeaderState) {
    var run := HeaderBlock(env, lines, st);
    run.state.req.headers == st.req.headers + PassThrough(env, lines[..run.consumed])
  }

  /** BagIsPassThrough when the first line is the last one read. */
  lemma BagAtLastLine(env: Env, lines: seq<string>, st: HeaderState)
    requires lines != []
    requires lines[0] == "" || IsBlank(lines[0]) || Translate(env, st, lines[0]).Failure?
    ensures BagWins(env, lines, st)
  {
    var line := lines[0];
    PrefixTail(lines, 1);
    TranslateBag(env, st, line);
    if line == "" {
      EmptyLineHasNoValue();
    }
  }

  /** BagIsPassThrough carried from the lines after the first to all of them. */
  lemma BagStep(env: Env, lines: seq<string>, st: HeaderState)
    requires lines != [] && lines[0] != "" && !IsBlank(lines[0]) && Translate(env, st, lines[0]).Success?
    requires BagWins(env, lines[1..], Translate(env, st, lines[0]).value)
    ensures BagWins(env, lines, st)
  {
    var line := lines[0];
    var next := Translate(env, st, line).value;
    TranslateBag(env, st, line);
    var rest := HeaderBlock(env, lines[1..], next);
    var run := HeaderBlock(env, lines, st);
    HeaderBlockStep(env, lines, st);
    assert run.state == rest.state && run.consumed == rest.consumed + 1;
    PassThroughPrefix(env, lines, run.consumed);
    var own, tail := Forwarded(env, line), PassThrough(env, lines[1..][..rest.consumed]);
    assert rest.state.req.headers == next.req.headers + tail;
    assert next.req.headers == st.req.headers + own;
    ConcatAssoc(st.req.headers, own, tail);
  }

  /** The pairs forwarded from the first `c` lines: the first line's, then those of the
      next `c - 1`. */
  lemma PassThroughPrefix(env: Env, lines: seq<string>, c: nat)
    requires 1 <= c <= |lines|
    ensures PassThrough(env, lines[..c]) == Forwarded(env, lines[0]) + PassThrough(env, lines[1..][..c - 1])
  {
    PrefixTail(lines, c);
    PassThroughCons(env, lines[..c]);
  }

  /** PassThrough over a non-empty sequence, unfolded once. */
  lemma PassThroughCons(env: Env, lines: seq<string>)
    requires lines != []
    ensures PassThrough(env, lines) ==
      Forwarded(env, lines[0]) + PassThrough(env, lines[1..])
  {
  }

  /** Connection, Proxy-Connection and Keep-Alive, in any casing, never reach the outbound
      header bag, nor does any other name the switch handles. */
  lemma HopByHopNeverForwarded(env: Env, lines: seq<string>, st: HeaderState)
    requires forall i :: 0 <= i < |st.req.headers| ==> KindOf(ToLower(st.req.headers[i].0)).OtherHeader?
    ensures var bag := HeaderBlock(env, lines, st).state.req.headers;
      forall i :: 0 <= i < |bag| ==>
        KindOf(ToLower(bag[i].0)).OtherHeader? &&
        ToLower(bag[i].0) !in {"proxy-connection", "connection", "keep-alive"}
  {
    BagIsPassThrough(env, lines, st);
    var run := HeaderBlock(env, lines, st);
    var added := PassThrough(env, lines[..run.consumed]);
    PassThroughOnlyUnhandled(env, lines[..run.consumed]);
    var bag := run.state.req.headers;
    forall i | 0 <= i < |bag| ensures KindOf(ToLower(bag[i].0)).OtherHeader? {
      if i >= |st.req.headers| {
        assert bag[i] == added[i - |st.req.headers|];
      }
    }
  }

  /** Each dedicated field ends up with the value of the last line naming it, or keeps its
      old value when no line does. */
  lemma {:induction false} LastFieldLineWins(env: Env, lines: seq<string>, st: HeaderState, f: Field)
    ensures FieldWins(env, lines, st, f)
    decreases |lines|
  {
    if lines != [] {
      var line := lines[0];
      if line == "" {
        EmptyLineHasNoValue();
        assert lines[..1] == [line];
      } else if Translate(env, st, line).Success? {
        var next := Translate(env, st, line).value;
        if IsBlank(line) {
          FieldWinsAtBlankLine(env, lines, st, f);
        } else {
          LastFieldLineWins(env, lines[1..], next, f);
          FieldWinsStep(env, lines, st, f);
        }
      }
    }
  }

  /** The value of field `f` after a clean run is that of the last line naming it, or the
      old one. */
  ghost predicate FieldWins(env: Env, lines: seq<string>, st: HeaderState, f: Field) {
    var run := HeaderBlock(env, lines, st);
    run.fault.None? ==>
      FieldValue(run.state.req, f) == LastValue(lines[..run.consumed], Dedicated(f)).OrElse(FieldValue(st.req, f))
  }

  /** LastFieldLineWins when the first line is white space only. */
  lemma FieldWinsAtBlankLine(env: Env, lines: seq<string>, st: HeaderState, f: Field)
    requires lines != [] && lines[0] != "" && IsBlank(lines[0]) && Translate(env, st, lines[0]).Success?
    ensures FieldWins(env, lines, st, f)
  {
    var line := lines[0];
    TranslateField(env, st, line, f);
    assert lines[..1] == [line];
    LastValueCons([line], Dedicated(f));
  }

  /** LastFieldLineWins carried from the lines after the first to all of them. */
  lemma FieldWinsStep(env: Env, lines: seq<string>, st: HeaderState, f: Field)
    requires lines != [] && lines[0] != "" && !IsBlank(lines[0]) && Translate(env, st, lines[0]).Success?
    requires FieldWins(env, lines[1..], Translate(env, st, lines[0]).value, f)
    ensures FieldWins(env, lines, st, f)
  {
    var line := lines[0];
    var next := Translate(env, st, line).value;
    var d := Dedicated(f);
    TranslateField(env, st, line, f);
    var rest := HeaderBlock(env, lines[1..], next);
    var run := HeaderBlock(env, lines, st);
    HeaderBlockStep(env, lines, st);
    assert run == rest.(consumed := rest.consumed + 1);
    PrefixTail(lines, run.consumed);
    LastValueCons(lines[..run.consumed], d);
  }

  /** LastValue over a non-empty sequence, unfolded once. */
  lemma LastValueCons(lines: seq<string>, kind: HeaderKind)
    requires lines != []
    ensures LastValue(lines, kind) == LastValue(lines[1..], kind).OrElse(ValueFor(lines[0], kind))
  {
  }

  /** The Content-Length hint is the parse of the last Content-Length line read (0 when it
      does not parse), or the starting hint when there is none; on every path. */
  lemma {:induction false} LastContentLengthWins(env: Env, lines: seq<string>, st: HeaderState)
    ensures LengthWins(env, lines, st)
    decreases |lines|
  {
    if lines != [] {
      var line := lines[0];
      if line != "" && !IsBlank(line) && Translate(env, st, line).Success? {
        LastContentLengthWins(env, lines[1..], Translate(env, st, line).value);
        LengthStep(env, lines, st);
      } else {
        LengthAtLastLine(env, lines, st);
      }
    }
  }

  /** The hint after the run is the parse of the last Content-Length line read, or the old
      hint. */
  ghost predicate LengthWins(env: Env, lines: seq<string>, st: HeaderState) {
    var run := HeaderBlock(env, lines, st);
    run.state.contentLen == match LastValue(lines[..run.consumed], ContentLengthHeader)
      case Some(v) => env.parseInt(v).GetOr(0)
      case None => st.contentLen
  }

  /** LastContentLengthWins when the first line is the last one read. */
  lemma LengthAtLastLine(env: Env, lines: seq<string>, st: HeaderState)
    requires lines != []
    requires lines[0] == "" || IsBlank(lines[0]) || Translate(env, st, lines[0]).Failure?
    ensures LengthWins(env, lines, st)
  {
    var line := lines[0];
    PrefixTail(lines, 1);
    TranslateContentLength(env, st, line);
    LastValueCons([line], ContentLengthHeader);
    if line == "" {
      EmptyLineHasNoValue();
    }
  }

  /** LastContentLengthWins carried from the lines after the first to all of them. */
  lemma LengthStep(env: Env, lines: seq<string>, st: HeaderState)
    requires lines != [] && lines[0] != "" && !IsBlank(lines[0]) && Translate(env, st, lines[0]).Success?
    requires LengthWins(env, lines[1..], Translate(env, st, lines[0]).value)
    ensures LengthWins(env, lines, st)
  {
    var line := lines[0];
    var next := Translate(env, st, line).value;
    TranslateContentLength(env, st, line);
    var rest := HeaderBlock(env, lines[1..], next);
    var run := HeaderBlock(env, lines, st);
    HeaderBlockStep(env, lines, st);
    assert run == rest.(consumed := rest.consumed + 1);
    PrefixTail(lines, run.consumed);
    LastValueCons(lines[..run.consumed], ContentLengthHeader);
  }

  /** If-Modified-Since takes the date of the last such line whose date text parses; a line
      whose date does not parse leaves it as it was; on every path. */
  lemma {:induction false} LastParsedDateWins(env: Env, lines: seq<string>, st: HeaderState)
    ensures DateWins(env, lines, st)
    decreases |lines|
  {
    if lines != [] {
      var line := lines[0];
      if line != "" && !IsBlank(line) && Translate(env, st, line).Success? {
        LastParsedDateWins(env, lines[1..], Translate(env, st, line).value);
        DateStep(env, lines, st);
      } else {
        DateAtLastLine(env, lines, st);
      }
    }
  }

  /** If-Modified-Since after the run is the last date parsed from the lines read, or the
      old value. */
  ghost predicate DateWins(env: Env, lines: seq<string>, st: HeaderState) {
    var run := HeaderBlock(env, lines, st);
    run.state.req.ifModifiedSince == LastDate(env, lines[..run.consumed]).OrElse(st.req.ifModifiedSince)
  }

  /** LastDate over a non-empty sequence, unfolded once. */
  lemma LastDateCons(env: Env, lines: seq<string>)
    requires lines != []
    ensures LastDate(env, lines) == LastDate(env, lines[1..]).OrElse(DateFor(env, lines[0]))
  {
  }

  /** LastParsedDateWins when the first line is the last one read. */
  lemma DateAtLastLine(env: Env, lines: seq<string>, st: HeaderState)
    requires lines != []
    requires lines[0] == "" || IsBlank(lines[0]) || Translate(env, st, lines[0]).Failure?
    ensures DateWins(env, lines, st)
  {
    var line := lines[0];
    PrefixTail(lines, 1);
    TranslateDate(env, st, line);
    LastDateCons(env, [line]);
    if line == "" {
      EmptyLineHasNoValue();
    }
  }

  /** LastParsedDateWins carried from the lines after the first to all of them. */
  lemma DateStep(env: Env, lines: seq<string>, st: HeaderState)
    requires lines != [] && lines[0] != "" && !IsBlank(lines[0]) && Translate(env, st, lines[0]).Success?
    requires DateWins(env, lines[1..], Translate(env, st, lines[0]).value)
    ensures DateWins(env, lines, st)
  {
    var line := lines[0];
    var next := Translate(env, st, line).value;
    TranslateDate(env, st, line);
    var rest := HeaderBlock(env, lines[1..], next);
    var run := HeaderBlock(env, lines, st);
    HeaderBlockStep(env, lines, st);
    assert run == rest.(consumed := rest.consumed + 1);
    PrefixTail(lines, run.consumed);
    LastDateCons(env, lines[..run.consumed]);
  }
}

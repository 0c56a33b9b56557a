/** What the proxy writes back to the client once the origin has answered: the status line,
    one line per response header, a blank line, then the body copied through a buffer. */
module ResponseRelay {
  import opened Wrappers
  import opened Strings
  import opened Decimal
  import opened Http
  import opened HeaderTranslation

  /** One write to the client's stream: a line through the StreamWriter, or bytes from the
      relay buffer. */
  datatype Piece = Line(text: string) | Data(bytes: seq<Byte>)

  /** "HTTP/1.0 {code} {reason}": the status line sent to the client, always HTTP/1.0. */
  function StatusLine(code: int, reason: string): (line: string)
    ensures Split(line, ' ', 3) == ["HTTP/1.0", IntText(code), reason]
  {
    var line := "HTTP/1.0 " + IntText(code) + " " + reason;
    var parts := ["HTTP/1.0", IntText(code), reason];
    assert Join(parts, ' ') == line by {
      assert Join(parts[1..], ' ') == IntText(code) + " " + reason by {
        assert parts[1..][1..] == [reason];
      }
    }
    SplitUnique(line, ' ', 3, parts);
    line
  }

  /** The status line reads back as the version, the status code and the reason phrase, even
      when the reason holds spaces. */
  lemma StatusLineParses(code: int, reason: string)
    ensures var parts := Split(StatusLine(code, reason), ' ', 3);
      && parts == ["HTTP/1.0", IntText(code), reason]
      && ParseIntText(parts[1]) == Some(code)
  {
    IntTextRoundTrip(code);
  }

  /** "{name}: {value}": one response header line. */
  function HeaderLine(name: string, value: string): (line: string)
    ensures OccursAt(line, ": ", |name|)
  {
    var line := name + ": " + value;
    assert line[|name|..|name| + 2] == ": ";
    line
  }

  /** A header line whose name holds no ": " splits back, at its first ": ", into the name
      and the value, whatever the value holds. */
  lemma HeaderLineParses(name: string, value: string)
    requires forall k: nat :: !OccursAt(name, ": ", k)
    ensures SplitHeader(HeaderLine(name, value)) == (name, Some(value))
  {
    SplitAtFirstSeparator(name, value);
  }

  /** The value the response's header collection gives for a name received under several
      values: the values joined with ','. */
  function MergedValue(values: seq<string>): (v: string)
    ensures |values| == 1 ==> v == values[0]
    ensures values != [] && (forall j :: 0 <= j < |values| - 1 ==> Free(values[j], ',')) ==>
      Split(v, ',', |values|) == values
  {
    var v := Join(values, ',');
    if values != [] && forall j :: 0 <= j < |values| - 1 ==> Free(values[j], ',') then
      SplitUnique(v, ',', |values|, values);
      v
    else v
  }

  /** The name/value pairs ProcessResponse collects, one per name in the response's header
      collection, in its order. */
  function MergedHeaders(headers: seq<(string, seq<string>)>): (pairs: seq<(string, string)>)
    ensures |pairs| == |headers|
    ensures forall i :: 0 <= i < |pairs| ==> pairs[i].0 == headers[i].0
    ensures forall i :: 0 <= i < |pairs| ==> pairs[i].1 == MergedValue(headers[i].1)
  {
    seq(|headers|, i requires 0 <= i < |headers| => (headers[i].0, MergedValue(headers[i].1)))
  }

  /** ProcessResponse: collects a (name, value) pair per header name of the response. */
  method ProcessResponse(headers: seq<(string, seq<string>)>) returns (returnHeaders: seq<(string, string)>)
    ensures returnHeaders == MergedHeaders(headers)
  {
    returnHeaders := [];
    for i := 0 to |headers|
      invariant returnHeaders == MergedHeaders(headers[..i])
    {
      assert headers[..i + 1] == headers[..i] + [headers[i]];
      returnHeaders := returnHeaders + [(headers[i].0, MergedValue(headers[i].1))];
    }
    assert headers[..|headers|] == headers;
  }

  /** The header lines written for the collected pairs, in order. */
  function HeaderLines(pairs: seq<(string, string)>): (lines: seq<Piece>)
    ensures |lines| == |pairs|
    ensures forall i :: 0 <= i < |pairs| ==> lines[i] == Line(HeaderLine(pairs[i].0, pairs[i].1))
  {
    seq(|pairs|, i requires 0 <= i < |pairs| => Line(HeaderLine(pairs[i].0, pairs[i].1)))
  }

  /** One more pair adds its header line at the end. */
  lemma HeaderLinesAppend(pairs: seq<(string, string)>, i: nat)
    requires i < |pairs|
    ensures HeaderLines(pairs[..i + 1]) == HeaderLines(pairs[..i]) + [Line(HeaderLine(pairs[i].0, pairs[i].1))]
  {
  }

  /** The response head as written: status line, header lines, blank line. */
  function ResponseHead(resp: Response): (head: seq<Piece>)
    ensures |head| == |resp.headers| + 2
    ensures head[0] == Line(StatusLine(resp.statusCode, resp.statusDescription))
    ensures head[|head| - 1] == Line("")
    ensures forall i :: 0 <= i < |resp.headers| ==>
      head[i + 1] == Line(HeaderLine(resp.headers[i].0, MergedValue(resp.headers[i].1)))
  {
    [Line(StatusLine(resp.statusCode, resp.statusDescription))]
      + HeaderLines(MergedHeaders(resp.headers)) + [Line("")]
  }

  /** The head is one line per header plus two, every line is text, and the only empty line
      is the last: a client reading it stops exactly at the end of the head. */
  lemma HeadEndsAtBlankLine(resp: Response)
    ensures var head := ResponseHead(resp);
      && |head| == |resp.headers| + 2
      && head[0] == Line(StatusLine(resp.statusCode, resp.statusDescription))
      && head[|head| - 1] == Line("")
      && forall i :: 0 <= i < |head| ==> head[i].Line? && (head[i].text == "" <==> i == |head| - 1)
  {
    var head := ResponseHead(resp);
    var pairs := MergedHeaders(resp.headers);
    forall i | 0 <= i < |head| ensures head[i].Line? && (head[i].text == "" <==> i == |head| - 1) {
      if i == 0 {
        assert head[i].text[0] == 'H';
      } else if i < |head| - 1 {
        assert head[i] == HeaderLines(pairs)[i - 1];
        assert OccursAt(head[i].text, ": ", |pairs[i - 1].0|);
      }
    }
  }

  /** The length of the relay buffer: the declared Content-Length when positive, otherwise
      8192 bytes. */
  function BufferSize(contentLength: int): (n: nat)
    ensures n > 0
    ensures contentLength > 0 ==> n == contentLength
    ensures contentLength <= 0 ==> n == 8192
  {
    if contentLength > 0 then contentLength else 8192
  }

  /** The bytes of a sequence of chunks, in order. */
  function Flatten(chunks: seq<seq<Byte>>): seq<Byte> {
    if chunks == [] then [] else chunks[0] + Flatten(chunks[1..])
  }

  /** How many bytes one read into a buffer of `count` takes: what fits of the segment at the
      head of the stream, 0 when the stream is at its end or an empty segment is next. */
  function Take(pending: seq<seq<Byte>>, count: nat): (n: nat)
    ensures pending != [] ==> n <= |pending[0]| && n <= count
    ensures n == 0 <==> pending == [] || pending[0] == [] || count == 0
  {
    if pending == [] then 0
    else if count < |pending[0]| then count else |pending[0]|
  }

  /** The stream after a read of `n` bytes. */
  function After(pending: seq<seq<Byte>>, n: nat): seq<seq<Byte>>
    requires pending != [] ==> n <= |pending[0]|
  {
    if pending == [] || n == 0 then pending
    else if n == |pending[0]| then pending[1..]
    else [pending[0][n..]] + pending[1..]
  }

  /** A read takes a prefix of the stream's bytes and leaves the rest. */
  lemma AfterRead(pending: seq<seq<Byte>>, n: nat)
    requires pending != [] && 0 < n <= |pending[0]|
    ensures Flatten(pending) == pending[0][..n] + Flatten(After(pending, n))
  {
    var rest := After(pending, n);
    if n < |pending[0]| {
      assert rest[1..] == pending[1..];
      assert pending[0] == pending[0][..n] + pending[0][n..];
    }
  }

  /** The chunks the relay loop writes when reading into a buffer of `cap` bytes: one per
      read, until a read returns 0. */
  function BodyChunks(pending: seq<seq<Byte>>, cap: nat): (chunks: seq<seq<Byte>>)
    requires cap > 0
    ensures forall i :: 0 <= i < |chunks| ==> 0 < |chunks[i]| <= cap
    decreases |Flatten(pending)|
  {
    var n := Take(pending, cap);
    if n == 0 then []
    else
      AfterRead(pending, n);
      [pending[0][..n]] + BodyChunks(After(pending, n), cap)
  }

  /** The segments of the stream before its end, or before the first empty one, since a read
      that returns 0 ends the relay. */
  function BeforeEnd(pending: seq<seq<Byte>>): (r: seq<seq<Byte>>)
    ensures |r| <= |pending|
    ensures forall i :: 0 <= i < |r| ==> r[i] == pending[i] && r[i] != []
    ensures |r| < |pending| ==> pending[|r|] == []
  {
    if pending == [] || pending[0] == [] then [] else [pending[0]] + BeforeEnd(pending[1..])
  }

  /** The segments from the first empty one on: what the relay leaves in the stream. */
  function FromEnd(pending: seq<seq<Byte>>): (r: seq<seq<Byte>>)
    ensures r == [] || r[0] == []
  {
    if pending == [] || pending[0] == [] then pending else FromEnd(pending[1..])
  }

  /** The stream is what comes before its end followed by what the relay leaves. */
  lemma {:induction false} EndSplitsStream(pending: seq<seq<Byte>>)
    ensures pending == BeforeEnd(pending) + FromEnd(pending)
  {
    if pending != [] && pending[0] != [] {
      EndSplitsStream(pending[1..]);
      assert pending == [pending[0]] + pending[1..];
    }
  }

  /** A read that takes bytes does not change what remains of the stream at its end. */
  lemma ReadKeepsEnd(pending: seq<seq<Byte>>, n: nat)
    requires pending != [] && 0 < n <= |pending[0]|
    ensures FromEnd(After(pending, n)) == FromEnd(pending)
  {
    if n < |pending[0]| {
      var rest := After(pending, n);
      assert rest[0] != [] && rest[1..] == pending[1..];
    }
  }

  /** The bytes before the stream's end are those a read takes followed by those still
      before it afterwards. */
  lemma ReadSplitsBody(pending: seq<seq<Byte>>, n: nat)
    requires pending != [] && 0 < n <= |pending[0]|
    ensures Flatten(BeforeEnd(pending)) == pending[0][..n] + Flatten(BeforeEnd(After(pending, n)))
  {
    var p0, tail := pending[0], Flatten(BeforeEnd(pending[1..]));
    BeforeEndCons(pending);
    if n < |p0| {
      PartialReadLeaves(pending, n);
      SplitChunk(p0, n, tail);
    } else {
      assert p0[..n] == p0;
    }
  }

  /** After a read that takes part of the first segment, the bytes before the end are the
      rest of that segment and those before the end of the later segments. */
  lemma PartialReadLeaves(pending: seq<seq<Byte>>, n: nat)
    requires pending != [] && 0 < n < |pending[0]|
    ensures Flatten(BeforeEnd(After(pending, n))) == pending[0][n..] + Flatten(BeforeEnd(pending[1..]))
  {
    var rest := After(pending, n);
    assert rest[0] == pending[0][n..] && rest[1..] == pending[1..];
    BeforeEndCons(rest);
  }

  /** A chunk followed by more bytes is its first `n` bytes followed by the others. */
  lemma SplitChunk(x: seq<Byte>, n: nat, tail: seq<Byte>)
    requires n <= |x|
    ensures x + tail == x[..n] + (x[n..] + tail)
  {
    assert x == x[..n] + x[n..];
  }

  /** The bytes before the end of a stream whose first segment is not empty: that segment,
      then those before the end of the rest. */
  lemma BeforeEndCons(pending: seq<seq<Byte>>)
    requires pending != [] && pending[0] != []
    ensures Flatten(BeforeEnd(pending)) == pending[0] + Flatten(BeforeEnd(pending[1..]))
  {
    var tail := BeforeEnd(pending[1..]);
    assert BeforeEnd(pending) == [pending[0]] + tail;
    assert ([pending[0]] + tail)[1..] == tail;
  }

  /** The client receives exactly the stream's bytes up to its end or its first empty
      segment, in order, whatever the buffer size. */
  lemma {:induction false} RelayCopiesBody(pending: seq<seq<Byte>>, cap: nat)
    requires cap > 0
    ensures Flatten(BodyChunks(pending, cap)) == Flatten(BeforeEnd(pending))
    decreases |Flatten(pending)|
  {
    var n := Take(pending, cap);
    if n > 0 {
      var chunks := BodyChunks(pending, cap);
      AfterRead(pending, n);
      RelayCopiesBody(After(pending, n), cap);
      ReadSplitsBody(pending, n);
      assert chunks[1..] == BodyChunks(After(pending, n), cap);
    }
  }

  /** The data pieces for a sequence of chunks. */
  function DataPieces(chunks: seq<seq<Byte>>): (pieces: seq<Piece>)
    ensures |pieces| == |chunks|
    ensures forall i :: 0 <= i < |chunks| ==> pieces[i] == Data(chunks[i])
  {
    seq(|chunks|, i requires 0 <= i < |chunks| => Data(chunks[i]))
  }

  /** The response's body stream: the segments still to be read. */
  class BodyStream {
    var pending: seq<seq<Byte>>

    constructor (body: seq<seq<Byte>>)
      ensures pending == body
    {
      pending := body;
    }

    /** Stream.Read(buffer, 0, count): copies what fits of the next segment into the front
      of the buffer and returns how many bytes it copied. */
    method Read(buffer: array<Byte>, count: nat) returns (n: nat)
      requires count <= buffer.Length
      modifies this, buffer
      ensures n == Take(old(pending), count)
      ensures n > 0 ==> buffer[..n] == old(pending)[0][..n]
      ensures pending == After(old(pending), n)
    {
      n := Take(pending, count);
      if n > 0 {
        var segment := pending[0];
        forall i | 0 <= i < n {
          buffer[i] := segment[i];
        }
        pending := After(pending, n);
      }
    }
  }

  /** The client's side of the connection, as the sequence of writes made to it. */
  class ClientOutput {
    var pieces: seq<Piece>

    constructor ()
      ensures pieces == []
    {
      pieces := [];
    }

    /** StreamWriter.WriteLine. */
    method WriteLine(text: string)
      modifies this
      ensures pieces == old(pieces) + [Line(text)]
    {
      pieces := pieces + [Line(text)];
    }

    /** Stream.Write(buffer, 0, count). */
    method Write(buffer: array<Byte>, count: nat)
      requires count <= buffer.Length
      modifies this
      ensures pieces == old(pieces) + [Data(buffer[..count])]
    {
      pieces := pieces + [Data(buffer[..count])];
    }
  }

  /** One turn of the relay loop: the first read's bytes are written, then the rest of the
      loop runs on what the read left. */
  lemma RelayStep(pending: seq<seq<Byte>>, cap: nat)
    requires cap > 0 && Take(pending, cap) > 0
    ensures var n := Take(pending, cap);
      && DataPieces(BodyChunks(pending, cap)) == [Data(pending[0][..n])] + DataPieces(BodyChunks(After(pending, n), cap))
      && |Flatten(After(pending, n))| < |Flatten(pending)|
      && FromEnd(After(pending, n)) == FromEnd(pending)
  {
    var n := Take(pending, cap);
    AfterRead(pending, n);
    ReadKeepsEnd(pending, n);
    var chunks := BodyChunks(pending, cap);
    assert DataPieces(chunks) == [Data(chunks[0])] + DataPieces(chunks[1..]);
  }

  /** The body copy loop: reads into a buffer of BufferSize(contentLength) bytes and writes
      what each read returned, until a read returns 0. */
  method RelayBody(stream: BodyStream, outStream: ClientOutput, contentLength: int)
    modifies stream, outStream
    ensures outStream.pieces == old(outStream.pieces) + DataPieces(BodyChunks(old(stream.pending), BufferSize(contentLength)))
    ensures stream.pending == FromEnd(old(stream.pending))
  {
    var buffer := new Byte[BufferSize(contentLength)];
    ghost var cap, start, written := buffer.Length, stream.pending, outStream.pieces;
    ghost var prev := stream.pending;
    var bytesRead := stream.Read(buffer, buffer.Length);
    while bytesRead > 0
      invariant bytesRead == Take(prev, cap)
      invariant bytesRead > 0 ==> buffer.Length == cap && buffer[..bytesRead] == prev[0][..bytesRead]
      invariant stream.pending == After(prev, bytesRead)
      invariant outStream.pieces + DataPieces(BodyChunks(prev, cap)) == written + DataPieces(BodyChunks(start, cap))
      invariant FromEnd(prev) == FromEnd(start)
      decreases |Flatten(prev)|
    {
      ghost var before, next := outStream.pieces, After(prev, bytesRead);
      ghost var piece := Data(prev[0][..bytesRead]);
      RelayStep(prev, cap);
      outStream.Write(buffer, bytesRead);
      assert outStream.pieces == before + [piece];
      ConcatAssoc(before, [piece], DataPieces(BodyChunks(next, cap)));
      prev := stream.pending;
      bytesRead := stream.Read(buffer, buffer.Length);
    }
    assert BodyChunks(prev, cap) == [] && DataPieces([]) == [];
    assert outStream.pieces == outStream.pieces + DataPieces(BodyChunks(prev, cap));
  }
}

/** The text-level parts of the protocol engine `IHTTPLIB`: how one response-header line
    changes the response fields, how a chunk-size line is read, how the `host[:port]` text of
    `ihttplib_open` is split, what bytes a request puts on the wire, and which events the
    engine polls for. */
module Http {
  import opened Text

  /** `rnext`: waiting for a response, reading its header lines, or reading its body. */
  datatype RecvPhase = PhaseWait | PhaseHeader | PhaseData

  /** `cnext`: the chunk-size line, the chunk's bytes, the CRLF after them, or finished. */
  datatype ChunkPhase = ChunkHead | ChunkData | ChunkTail | ChunkDone

  /** `result`: the outcome of the last response. */
  datatype Outcome = NotStarted | ResultDone | NotCompleted | NotFind | HttpError | OutRange | Unsupport

  /** The response fields of an `IHTTPLIB` that the header reader writes. */
  datatype Head = Head(result: Outcome, chunked: bool, clength: int, chunksize: int, datasize: int,
                       rangeStart: int, rangeEndup: int, rangeSize: int, partial: bool,
                       httpver: int, isredirect: bool, nosize: bool, keepalive: bool,
                       ctype: seq<Byte>, rnext: RecvPhase, cnext: ChunkPhase)

  /** The body size assumed when the response gives no `Content-Length`. */
  const Unbounded := 0x7fffffff

  // ---------------------------------------------------------------------------------
  // One header line

  /** The status code: characters 9 to 11 of the status line, stripped. */
  function StatusCode(l: seq<Byte>): seq<Byte>
  {
    Strip(Sub(l, 9, 12), Delim)
  }

  /** The minor protocol version: character 7 of the status line, read as a number. */
  function MinorVersion(l: seq<Byte>): int
  {
    ParseInt(Sub(l, 7, 8), 0)
  }

  /** A status line: 404 and 416 fail the response, 301 marks a redirect with an empty
      body, 200 and 206 reset the length, range and chunking fields, anything else is an
      HTTP error. */
  function StatusLine(h: Head, l: seq<Byte>): (Head, int)
  {
    var code := StatusCode(l);
    if EqI(code, "404") then (h.(result := NotFind), -2)
    else if EqI(code, "416") then (h.(result := OutRange), -2)
    else if EqI(code, "301") then
      (h.(chunked := false, clength := 0, chunksize := 0, datasize := 0, rangeStart := -1,
          rangeEndup := -1, rangeSize := -1, partial := false, httpver := MinorVersion(l),
          isredirect := true), 1)
    else if EqI(code, "200") || EqI(code, "206") then
      (h.(chunked := false, clength := -1, chunksize := -1, datasize := -1, rangeStart := -1,
          rangeEndup := -1, rangeSize := -1, partial := code[2] == '6',
          httpver := MinorVersion(l), isredirect := false), 1)
    else (h.(result := HttpError), -2)
  }

  /** The blank line that ends the header: a known length with no range yet becomes the range
      [0, length-1] of a body of that length; the body size is the length, or `Unbounded`
      when there is none; the body comes next, starting with a chunk-size line. */
  function EndOfHeader(h: Head): Head
  {
    var h1 := if h.rangeSize < 0 && h.clength >= 0
      then h.(rangeSize := h.clength, rangeStart := 0, rangeEndup := h.clength - 1)
      else h;
    h1.(nosize := h.clength < 0, datasize := if h.clength >= 0 then h.clength else Unbounded,
        rnext := PhaseData, cnext := ChunkHead)
  }

  /** `Content-Range: bytes A-B/T`: a unit other than `bytes` is unsupported (-1);
      otherwise the rest, stripped, is the range. */
  function ContentRange(h: Head, value: seq<Byte>): (Head, int)
  {
    if !EqI(Sub(value, 0, 5), "bytes") then (h.(result := Unsupport), -1)
    else RangeSpec(h, Strip(Sub(value, 5, |value|), Delim))
  }

  /** `A-B/T`: the total after the first `/` (or -1 without one) is the range size, and the
      text before it is the span. */
  function RangeSpec(h: Head, spec: seq<Byte>): (Head, int)
  {
    var slash := FindFrom(spec, "/", 0);
    if slash >= 0 then RangeSpan(h.(rangeSize := ParseInt(Strip(spec[slash + 1..], Delim), 0)), spec[..slash])
    else RangeSpan(h.(rangeSize := -1), spec)
  }

  /** `A-B`: the first and last byte of the range; without a `-` the range is unsupported (-2). */
  function RangeSpan(h: Head, span: seq<Byte>): (Head, int)
  {
    var dash := FindFrom(span, "-", 0);
    if dash >= 0 then (h.(rangeStart := ParseInt(span[..dash], 0), rangeEndup := ParseInt(span[dash + 1..], 0)), 1)
    else (h.(result := Unsupport), -2)
  }

  /** A `name: value` line; names are compared without regard to case, and fields the engine
      does not know are ignored. */
  function HeaderField(h: Head, name: seq<Byte>, value: seq<Byte>): (Head, int)
  {
    if EqI(name, "Content-Type") then (h.(ctype := value), 1)
    else if EqI(name, "Content-Length") then (h.(clength := ParseInt(value, 0)), 1)
    else if EqI(name, "Content-Range") then ContentRange(h, value)
    else if EqI(name, "Transfer-Encoding") then
      if !EqI(value, "identity") then (h.(chunked := true, cnext := ChunkHead), 1)
      else (h.(chunked := false), 1)
    else if EqI(name, "Connection") then (h.(keepalive := EqI(value, "Keep-Alive")), 1)
    else (h, 1)
  }

  /** One stripped header line: a status line (starting `HTTP/1.` in any case), the blank
      line, or a field. The number is what `ihttplib_read_header` returns: 1 to go on, -1 or
      -2 to give up on the response. */
  function ApplyLine(h: Head, l: seq<Byte>): (Head, int)
  {
    if EqI(Sub(l, 0, 7), "HTTP/1.") then StatusLine(h, l)
    else if |l| == 0 then (EndOfHeader(h), 1)
    else
      var colon := FindFrom(l, ":", 0);
      if colon >= 0 then HeaderField(h, Strip(l[..colon], Delim), Strip(l[colon + 1..], Delim))
      else (h, 1)
  }

  // ---------------------------------------------------------------------------------
  // Chunk-size lines

  /** The size on a chunk-size line, read in base 16. */
  function ChunkSizeOf(line: seq<Byte>): int
  {
    ParseInt(ChunkWord(line), 16)
  }

  /** The stripped line up to its first space. */
  function ChunkWord(line: seq<Byte>): seq<Byte>
  {
    var t := Strip(line, Delim);
    var sp := FindFrom(t, " ", 0);
    if sp >= 0 then t[..sp] else t
  }

  // ---------------------------------------------------------------------------------
  // The server address

  /** Where `ihttplib_open` connects, and the `Host` value it keeps: the port is 80 unless
      a `:port` follows the name, and the `Host` value shows the port text only when the
      port is not 80. */
  datatype Endpoint = Endpoint(name: seq<Byte>, port: int, hostHeader: seq<Byte>)

  function HostSplit(text: seq<Byte>): Endpoint
  {
    var t := Strip(text, Delim);
    var colon := FindFrom(t, ":", 0);
    if colon >= 0 then WithPort(t[..colon], t[colon + 1..]) else WithPort(t, "80")
  }

  function WithPort(name: seq<Byte>, portText: seq<Byte>): Endpoint
  {
    var port := ParseInt(portText, 0);
    Endpoint(name, port, if port != 80 then name + ":" + portText else name)
  }

  // ---------------------------------------------------------------------------------
  // Requests

  /** `IHTTP_METHOD_GET`, `IHTTP_METHOD_POST`, and any other number a caller passes. */
  datatype Method = Get | Post | OtherMethod

  const UserAgent: seq<Byte> := "User-Agent: Mozilla/4.0 (ineturl)"

  /** `ihttplib_header_write`: one header line, ended by CRLF. */
  function Line(t: seq<Byte>): seq<Byte>
  {
    t + "\r\n"
  }

  /** Header lines written one after the other. */
  function Lines(ls: seq<seq<Byte>>): seq<Byte>
  {
    if ls == [] then [] else Line(ls[0]) + Lines(ls[1..])
  }

  /** The header lines `ihttplib_request` writes: the request line, `Host`, then for GET the
      `User-Agent` and for POST a `Content-Length` when the body size is not negative, then
      the caller's extra header text when it is not empty. Other methods write nothing. */
  function RequestLines(m: Method, url: seq<Byte>, host: seq<Byte>, extra: seq<Byte>,
                        bodysize: int): seq<seq<Byte>>
  {
    var tail := if |extra| > 0 then [extra] else [];
    match m
    case Get => ["GET " + url + " HTTP/1.1", "Host: " + host, UserAgent] + tail
    case Post =>
      ["POST " + url + " HTTP/1.1", "Host: " + host]
        + (if bodysize >= 0 then ["Content-Length: " + Decimal(bodysize)] else [])
        + tail
    case OtherMethod => []
  }

  /** Everything a request queues for sending: its header lines, the blank line, and for a
      POST with a size that is not negative that many bytes of body. */
  function RequestBytes(m: Method, url: seq<Byte>, host: seq<Byte>, extra: seq<Byte>,
                        body: seq<Byte>, bodysize: int): seq<Byte>
    requires m == Post && bodysize >= 0 ==> bodysize <= |body|
  {
    if m == OtherMethod then []
    else
      Lines(RequestLines(m, url, host, extra, bodysize)) + "\r\n"
        + (if m == Post && bodysize >= 0 then body[..bodysize] else [])
  }

  // ---------------------------------------------------------------------------------
  // Polling

  datatype Interest = WantRecv | WantSend | WantError

  /** The events `ihttplib_update` waits for: always readable and error, and writable too
      while bytes wait to be sent or the connection is still being made. */
  function PollMask(dsize: nat, connecting: bool): set<Interest>
  {
    {WantRecv, WantError} + (if dsize > 0 || connecting then {WantSend} else {})
  }
}

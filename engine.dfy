/** The protocol engine `IHTTPLIB`: one HTTP/1.1 exchange over one `IHTTPSOCK`. It opens
    and closes the connection, queues a request, and reads the response's header lines and
    then its body, plain or in chunks, without ever blocking. */
module Engine {
  import opened Text
  import opened Http
  import HttpFacts
  import Sock

  /** `IHTTP_STATE_STOP` and `IHTTP_STATE_CONNECTING`, the two states the engine sets. */
  datatype HttpState = HttpStop | HttpConnecting

  /** What the readers return: a byte count, or `IHTTP_RECV_AGAIN`, `_DONE`, `_CLOSED`,
      `_NOTFIND` or `_ERROR`. */
  datatype RecvCode = Got(n: nat) | RecvAgain | RecvDone | RecvClosed | RecvNotFind | RecvError

  /** The fields of an `IHTTPLIB` the core uses, with its socket as a value. */
  datatype EngVal = EngVal(state: HttpState, host: seq<Byte>, sheader: seq<Byte>,
                           rheader: seq<Byte>, line: seq<Byte>, head: Head, sock: Sock.SockVal)

  /** One step of a reader: the engine after it, its code, the body bytes it wrote into the
      caller's buffer, and the header or chunk-framing bytes it took off the stream (these
      last are kept for the proofs only; the source keeps no such text). */
  datatype Reply = Reply(eng: EngVal, code: RecvCode, data: seq<Byte>, framing: seq<Byte>)

  /** One header line read: the engine after it, what `ihttplib_read_header` returned, and
      the raw line it consumed (empty when no complete line was read). */
  datatype LineStep = LineStep(eng: EngVal, rv: int, framing: seq<Byte>)

  /** The header loop of `ihttplib_recv`: the engine after it, the code it returns with when
      it gives up on the response (None when the caller goes on), and the lines it consumed. */
  datatype HeaderOut = HeaderOut(eng: EngVal, code: Option<RecvCode>, framing: seq<Byte>)

  /** The response bytes the engine has yet to interpret: the partial line it holds, then
      what the socket still offers. */
  function Logical(e: EngVal): seq<Byte>
  {
    e.line + Sock.Stream(e.sock)
  }

  // ---------------------------------------------------------------------------------
  // Connection

  /** `ihttplib_close`. */
  function CloseF(e: EngVal): EngVal
  {
    e.(sock := Sock.CloseF(e.sock), state := HttpStop)
  }

  /** `ihttplib_open`: closes, then splits `host[:port]` and keeps the `Host` value. When the
      name is not an address (`resolve` says whether `isockaddr_set_ip_text` accepts it) the
      result is -1; when the socket cannot be made, -2; otherwise the connect has started
      and the receive side waits for a response. */
  function OpenF(e: EngVal, text: seq<Byte>, resolve: seq<Byte> -> bool, socketOk: bool,
                 peer: Sock.Peer): (EngVal, int)
  {
    var e1 := CloseF(e);
    var ep := HostSplit(text);
    var e2 := e1.(host := ep.hostHeader);
    if !resolve(ep.name) then (e2, -1)
    else
      var c := Sock.ConnectF(e2.sock, socketOk, peer);
      if c.1 != 0 then (e2.(sock := c.0), -2)
      else
        (e2.(sock := c.0, state := HttpConnecting,
             head := e2.head.(rnext := PhaseWait, keepalive := false, nosize := false, partial := false)), 0)
  }

  /** `ihttplib_update`: with a positive wait, one socket update and then a poll for the
      events of `PollMask` (the poll itself is not modelled: the set is returned); then
      a socket update. */
  function UpdateF(e: EngVal, wait: int): (EngVal, set<Interest>)
  {
    if wait > 0 then
      var s1 := Sock.UpdateF(e.sock);
      (e.(sock := Sock.UpdateF(s1)), PollMask(|s1.sendQ|, s1.state == Sock.Connecting))
    else (e.(sock := Sock.UpdateF(e.sock)), {})
  }

  // ---------------------------------------------------------------------------------
  // Requests

  /** `ihttplib_header_reset`: empties the header text. */
  function HeaderResetF(e: EngVal): EngVal
  {
    e.(sheader := [])
  }

  /** `ihttplib_header_write`: one header line, with its CRLF. */
  function HeaderWriteF(e: EngVal, text: seq<Byte>): EngVal
  {
    e.(sheader := e.sheader + Line(text))
  }

  /** The header lines written one after the other onto the current header text. */
  function HeaderWriteAll(e: EngVal, ls: seq<seq<Byte>>): EngVal
    decreases |ls|
  {
    if ls == [] then e else HeaderWriteAll(HeaderWriteF(e, ls[0]), ls[1..])
  }

  /** `ihttplib_header_send`: the header text, then the blank line. */
  function HeaderSendF(e: EngVal): EngVal
  {
    e.(sock := Sock.SendF(Sock.SendF(e.sock, e.sheader).0, "\r\n").0)
  }

  /** `ihttplib_send`: queues the bytes; the result is what is left to send. */
  function SendF(e: EngVal, data: seq<Byte>): (EngVal, nat)
  {
    var s := Sock.SendF(e.sock, data).0;
    (e.(sock := s), |s.sendQ|)
  }

  /** `ihttplib_request`: a GET with a body is refused (-1) and changes nothing. Otherwise
      the header buffer is rebuilt from `RequestLines` and sent with the blank line, a POST
      with a size that is not negative sends that many bytes of body, and the socket is
      updated; the result is 0. `header` is the caller's extra header text (a missing one is
      the empty text). */
  function RequestF(e: EngVal, m: Method, url: seq<Byte>, body: seq<Byte>, bodysize: int,
                    header: seq<Byte>): (EngVal, int)
    requires m == Post && bodysize >= 0 ==> bodysize <= |body|
  {
    if bodysize > 0 && m == Get then (e, -1)
    else
      var ls := RequestLines(m, url, e.host, Strip(header, Delim), bodysize);
      var e0 := HeaderWriteAll(HeaderResetF(e), ls);
      var post := m == Post && bodysize >= 0;
      var e1 := if m == OtherMethod then e0 else QueueF(e0, if post then body[..bodysize] else [], post);
      (UpdateF(e1, 0).0, 0)
  }

  // ---------------------------------------------------------------------------------
  // The response header

  /** A header or chunk-framing line: `ihttpsock_block_gets` reads on into the line buffer.
      A would-block or a close is returned as AGAIN or CLOSED (the close with result
      NOT_COMPLETED); a complete line empties the buffer and is the framing consumed. */
  function LineF(e: EngVal): HeaderOut
  {
    var g := Sock.GetsF(e.sock);
    var line := e.line + g.text;
    var e1 := e.(sock := g.sock, line := line);
    if g.res == Sock.Again then HeaderOut(e1, Some(RecvAgain), [])
    else if g.res == Sock.Done then HeaderOut(e1.(line := []), None, line)
    else HeaderOut(e1.(head := e.head.(result := NotCompleted)), Some(RecvClosed), [])
  }

  /** `ihttplib_read_header`: a would-block returns 0 and keeps the partial line, a close
      returns -1. A complete line is stripped, appended to the response-header text and
      parsed by `ApplyLine`, whose number is returned. */
  function ReadHeaderF(e: EngVal): LineStep
  {
    ReadHeaderOf(e, LineF(e))
  }

  /** What `ihttplib_read_header` makes of the outcome `r` of its line read. */
  function ReadHeaderOf(e: EngVal, r: HeaderOut): LineStep
  {
    if r.code == Some(RecvAgain) then LineStep(r.eng, 0, [])
    else if r.code.Some? then LineStep(r.eng, -1, [])
    else
      var l := Strip(r.framing, Delim);
      var a := ApplyLine(e.head, l);
      LineStep(r.eng.(rheader := e.rheader + l, head := a.0), a.1, r.framing)
  }

  /** The header loop of `ihttplib_recv`: header lines are read until one is incomplete,
      one makes the reader give up (-1 is CLOSED; other negatives are NOTFIND after a 404
      and ERROR otherwise, and both return to waiting), or the blank line starts the body,
      when the window is armed to the body size. */
  function HeaderLoopF(e: EngVal): HeaderOut
    decreases |Sock.Stream(e.sock)|, 1
  {
    ReadHeaderShrinks(e);
    HeaderLoopOn(ReadHeaderF(e), |Sock.Stream(e.sock)|)
  }

  /** The rest of the header loop once a line has been read with result `r`; `bound`
      exceeds what the socket still offers whenever the loop goes on. */
  function HeaderLoopOn(r: LineStep, bound: nat): HeaderOut
    requires r.rv > 0 ==> |Sock.Stream(r.eng.sock)| < bound
    decreases bound, 0
  {
    var e1 := r.eng;
    if r.rv == 0 then HeaderOut(e1, None, r.framing)
    else if r.rv == -1 then HeaderOut(e1.(head := e1.head.(rnext := PhaseWait)), Some(RecvClosed), r.framing)
    else if r.rv < 0 then
      HeaderOut(e1.(head := e1.head.(rnext := PhaseWait)),
                Some(if e1.head.result == NotFind then RecvNotFind else RecvError), r.framing)
    else if e1.head.rnext != PhaseHeader then
      HeaderOut(e1.(sock := Sock.BlockSetF(e1.sock, e1.head.datasize)), None, r.framing)
    else
      var t := HeaderLoopF(e1);
      HeaderOut(t.eng, t.code, r.framing + t.framing)
  }

  lemma ReadHeaderShrinks(e: EngVal)
    ensures ReadHeaderF(e).rv > 0 ==> |Sock.Stream(ReadHeaderF(e).eng.sock)| < |Sock.Stream(e.sock)|
  {
    LineNoGrow(e);
  }

  // ---------------------------------------------------------------------------------
  // The body

  /** When a close counts as the end of the body: the socket has reported an error or end
      of stream, and the response either is HTTP/1.0 without a length or has neither a
      length nor a range. */
  predicate CloseIsDone(error: int, h: Head)
  {
    error < 0 && ((h.httpver == 0 && h.clength < 0) || (h.clength < 0 && h.rangeSize < 0))
  }

  /** `ihttplib_read_unchunked`: a bounded read. A close of the window stops the engine and
      returns to waiting, and is DONE when `CloseIsDone` says so and CLOSED with result
      NOT_COMPLETED otherwise. `IHTTPSOCK_STATE_CLOSED` is taken to be a negative constant
      apart from the window's codes, so it reaches the final CLOSED. */
  function ReadUnchunkedF(e: EngVal, size: nat): Reply
  {
    UnchunkedOf(e, Sock.BlockRecvF(e.sock, size))
  }

  /** The engine's reading of one bounded-read outcome `o`. */
  function UnchunkedOf(e: EngVal, o: Sock.BlockOut): Reply
  {
    var e1 := e.(sock := o.sock);
    match o.res
    case Count(n) => Reply(e1, Got(n), o.data, [])
    case Again => Reply(e1, RecvAgain, [], [])
    case Done => Reply(e1, RecvDone, [], [])
    case StateClosed => Reply(e1, RecvClosed, [], [])
    case BlockClosed =>
      var h := e.head.(rnext := PhaseWait);
      if CloseIsDone(o.sock.error, e.head)
      then Reply(e1.(state := HttpStop, head := h.(result := ResultDone)), RecvDone, [], [])
      else Reply(e1.(state := HttpStop, head := h.(result := NotCompleted)), RecvClosed, [], [])
  }

  /** The chunk-size line: once complete, its size (hex, up to the first space) becomes
      `chunksize`, arms the window, and the chunk's bytes come next. */
  function ChunkHeadF(e: EngVal): HeaderOut
  {
    ChunkHeadOf(LineF(e))
  }

  /** What the chunk-size step makes of the outcome `r` of its line read. */
  function ChunkHeadOf(r: HeaderOut): HeaderOut
  {
    if r.code.Some? then r
    else
      var n := ChunkSizeOf(r.framing);
      r.(eng := r.eng.(sock := Sock.BlockSetF(r.eng.sock, n),
                       head := r.eng.head.(chunksize := n, cnext := ChunkData)))
  }

  /** The line after a chunk's bytes: once complete it is dropped; after the zero-size
      chunk the body is finished, otherwise the next chunk-size line follows. */
  function ChunkTailF(e: EngVal): HeaderOut
  {
    ChunkTailOf(e.head.chunksize, LineF(e))
  }

  /** What the step after a chunk's bytes makes of the outcome `r` of its line read. */
  function ChunkTailOf(chunksize: int, r: HeaderOut): HeaderOut
  {
    if r.code.Some? then r
    else r.(eng := r.eng.(head := r.eng.head.(cnext := if chunksize == 0 then ChunkDone else ChunkHead)))
  }

  lemma HeadShrinks(e: EngVal)
    ensures ChunkHeadF(e).code.None? ==> |Sock.Stream(ChunkHeadF(e).eng.sock)| < |Sock.Stream(e.sock)|
  {
    Sock.GetsDoneShrinks(e.sock);
  }

  lemma TailShrinks(e: EngVal)
    ensures ChunkTailF(e).code.None? ==> |Sock.Stream(ChunkTailF(e).eng.sock)| < |Sock.Stream(e.sock)|
  {
    Sock.GetsDoneShrinks(e.sock);
  }

  lemma UnchunkedShrinks(e: EngVal, size: nat)
    ensures |Sock.Stream(ReadUnchunkedF(e, size).eng.sock)| <= |Sock.Stream(e.sock)|
  {
    UnchunkedReads(e, size);
  }

  /** The order of the chunk phases within one pass of the loop. */
  function ChunkRank(c: ChunkPhase): nat
  {
    if c == ChunkData then 1 else 0
  }

  /** `ihttplib_read_chunked`: the chunk phases in turn until one has to return; the data
      phase returns whatever the bounded read returns, except that DONE moves on to the
      line after the chunk. */
  function ReadChunkedF(e: EngVal, size: nat): Reply
    decreases |Sock.Stream(e.sock)|, ChunkRank(e.head.cnext), 1
  {
    match e.head.cnext
    case ChunkHead =>
      HeadShrinks(e);
      AfterChunkLine(ChunkHeadF(e), size, |Sock.Stream(e.sock)|)
    case ChunkData =>
      UnchunkedShrinks(e, size);
      AfterChunkData(ReadUnchunkedF(e, size), size, |Sock.Stream(e.sock)|)
    case ChunkTail =>
      TailShrinks(e);
      AfterChunkLine(ChunkTailF(e), size, |Sock.Stream(e.sock)|)
    case ChunkDone => Reply(e, RecvDone, [], [])
  }

  /** The chunk loop after a chunk-size line or a chunk's closing line was read with
      result `r`: a code returns, otherwise the loop goes on; `bound` exceeds what the
      socket still offers whenever it does. */
  function AfterChunkLine(r: HeaderOut, size: nat, bound: nat): Reply
    requires r.code.None? ==> |Sock.Stream(r.eng.sock)| < bound
    decreases bound, 0, 0
  {
    if r.code.Some? then Reply(r.eng, r.code.value, [], r.framing)
    else
      var t := ReadChunkedF(r.eng, size);
      t.(framing := r.framing + t.framing)
  }

  /** The chunk loop after a bounded read of a chunk's bytes returned `r`: DONE moves on
      to the line after the chunk, anything else returns. */
  function AfterChunkData(r: Reply, size: nat, bound: nat): Reply
    requires |Sock.Stream(r.eng.sock)| <= bound
    decreases bound, 1, 0
  {
    if r.code != RecvDone then r
    else
      var t := ReadChunkedF(r.eng.(head := r.eng.head.(cnext := ChunkTail)), size);
      t.(framing := r.framing + t.framing)
  }

  // ---------------------------------------------------------------------------------
  // ihttplib_recv

  /** The start of `ihttplib_recv`: queued bytes are pushed on, and an engine waiting for a
      response starts reading its header with empty line and header buffers. */
  function RecvStartF(e: EngVal): EngVal
  {
    var e0 := if |e.sock.sendQ| > 0 then e.(sock := Sock.UpdateF(e.sock)) else e;
    if e0.head.rnext == PhaseWait
    then e0.(head := e0.head.(rnext := PhaseHeader, result := NotStarted), line := [], rheader := [])
    else e0
  }

  /** The body part of `ihttplib_recv`: the plain or chunked reader; DONE ends the
      response and returns to waiting. */
  function RecvBodyF(e: EngVal, size: nat): Reply
  {
    var r := if e.head.chunked then ReadChunkedF(e, size) else ReadUnchunkedF(e, size);
    if r.code == RecvDone then r.(eng := r.eng.(head := r.eng.head.(rnext := PhaseWait))) else r
  }

  /** `ihttplib_recv`: the start, the header loop while the header is being read, then
      the body. */
  function RecvF(e: EngVal, size: nat): Reply
  {
    var e1 := RecvStartF(e);
    RecvAfterHeader(if e1.head.rnext == PhaseHeader then HeaderLoopF(e1) else HeaderOut(e1, None, []), size)
  }

  /** The rest of `ihttplib_recv` once the header loop has given `hl`: its code returns;
      otherwise the body is read in the body phase, and AGAIN returned in any other. */
  function RecvAfterHeader(hl: HeaderOut, size: nat): Reply
  {
    if hl.code.Some? then Reply(hl.eng, hl.code.value, [], hl.framing)
    else if hl.eng.head.rnext == PhaseData then
      var r := RecvBodyF(hl.eng, size);
      r.(framing := hl.framing + r.framing)
    else Reply(hl.eng, RecvAgain, [], hl.framing)
  }

  // ---------------------------------------------------------------------------------
  // Reading the header

  /** A complete line: its only line feed is its last byte. */
  lemma LineOfLine(l: seq<Byte>, rest: seq<Byte>)
    requires FullLine(l)
    ensures LineOf(l + rest) == l
    ensures HttpFacts.SplitLines(l + rest) == [l] + HttpFacts.SplitLines(rest)
  {
    var p := l[..|l| - 1];
    assert l == p + "\n";
    assert l + rest == p + ("\n" + rest);
    LineOfAfter(p, "\n" + rest);
    assert LineOf("\n" + rest) == "\n";
    assert (l + rest)[|l|..] == rest;
  }

  /** `ihttplib_read_header` reads exactly the next line of the response, however its bytes
      arrive: what it consumed and what it still holds make up what it had to read, and the
      line buffer never holds a line feed. */
  lemma ReadHeaderKeeps(e: EngVal)
    requires NoLF(e.line)
    ensures var r := ReadHeaderF(e);
      && Logical(e) == r.framing + Logical(r.eng)
      && NoLF(r.eng.line)
      && r.eng.state == e.state && r.eng.host == e.host && r.eng.sheader == e.sheader
  {
    LineReads(e);
    HeaderOfReads(e, LineF(e));
  }

  /** A complete line is the response's next line; it is parsed by `ApplyLine` and appended,
      stripped, to the response-header text, and the line buffer is emptied. */
  lemma ReadHeaderLine(e: EngVal)
    requires NoLF(e.line)
    ensures var r := ReadHeaderF(e);
      r.framing != [] ==>
        && r.framing == LineOf(Logical(e)) && r.framing[|r.framing| - 1] == '\n'
        && r.eng.line == []
        && (r.eng.head, r.rv) == ApplyLine(e.head, Strip(r.framing, Delim))
        && r.eng.rheader == e.rheader + Strip(r.framing, Delim)
  {
    LineReads(e);
    HeaderOfReads(e, LineF(e));
  }

  /** Without a complete line: a would-block keeps the response fields and leaves the socket
      open; a close has read everything left, sets NOT_COMPLETED and returns -1. */
  lemma ReadHeaderPartial(e: EngVal)
    requires NoLF(e.line)
    ensures var r := ReadHeaderF(e);
      r.framing == [] ==>
        && r.eng.rheader == e.rheader
        && ((r.rv == 0 && r.eng.head == e.head && r.eng.sock.state != Sock.Closed)
            || (r.rv == -1 && r.eng.head == e.head.(result := NotCompleted) && Sock.Stream(r.eng.sock) == []))
  {
    LineReads(e);
    HeaderOfReads(e, LineF(e));
  }

  /** The three lemmas above, for any line-read outcome. */
  lemma HeaderOfReads(e: EngVal, r0: HeaderOut)
    requires LineRead(e, r0) && (r0.code.None? ==> r0.eng.head == e.head)
    ensures var r := ReadHeaderOf(e, r0);
      && Logical(e) == r.framing + Logical(r.eng)
      && NoLF(r.eng.line)
      && r.eng.state == e.state && r.eng.host == e.host && r.eng.sheader == e.sheader
    ensures var r := ReadHeaderOf(e, r0);
      r.framing != [] ==>
        && r.framing == LineOf(Logical(e)) && r.framing[|r.framing| - 1] == '\n'
        && r.eng.line == []
        && (r.eng.head, r.rv) == ApplyLine(e.head, Strip(r.framing, Delim))
        && r.eng.rheader == e.rheader + Strip(r.framing, Delim)
    ensures var r := ReadHeaderOf(e, r0);
      r.framing == [] ==>
        && r.eng.rheader == e.rheader
        && ((r.rv == 0 && r.eng.head == e.head && r.eng.sock.state != Sock.Closed)
            || (r.rv == -1 && r.eng.head == e.head.(result := NotCompleted) && Sock.Stream(r.eng.sock) == []))
  {
    var r := ReadHeaderOf(e, r0);
    assert Logical(r.eng) == Logical(r0.eng);
    if r0.code.None? {
      var l := Strip(r0.framing, Delim);
      var a := ApplyLine(e.head, l);
      assert r == LineStep(r0.eng.(rheader := e.rheader + l, head := a.0), a.1, r0.framing);
    }
  }

  /** Each line stripped, as `ihttplib_read_header` strips it before parsing. */
  function StripEach(ls: seq<seq<Byte>>): seq<seq<Byte>>
    decreases |ls|
  {
    if ls == [] then [] else [Strip(ls[0], Delim)] + StripEach(ls[1..])
  }

  /** The header loop consumes whole lines: what it consumed and what the engine still holds
      make up what it had to read, and the line buffer never holds a line feed. */
  lemma HeaderLoopKeeps(e: EngVal)
    requires NoLF(e.line)
    ensures var r := HeaderLoopF(e);
      && Logical(e) == r.framing + Logical(r.eng)
      && NoLF(r.eng.line)
      && r.eng.state == e.state && r.eng.host == e.host && r.eng.sheader == e.sheader
  {
    ReadHeaderKeeps(e);
    ReadHeaderShrinks(e);
    HeaderLoopOnKeeps(ReadHeaderF(e), |Sock.Stream(e.sock)|);
  }

  lemma {:induction false} HeaderLoopOnKeeps(r: LineStep, bound: nat)
    requires r.rv > 0 ==> |Sock.Stream(r.eng.sock)| < bound
    requires NoLF(r.eng.line)
    ensures var o := HeaderLoopOn(r, bound);
      && r.framing + Logical(r.eng) == o.framing + Logical(o.eng)
      && NoLF(o.eng.line)
      && o.eng.state == r.eng.state && o.eng.host == r.eng.host && o.eng.sheader == r.eng.sheader
    decreases bound
  {
    if r.rv > 0 && r.eng.head.rnext == PhaseHeader {
      var e := r.eng;
      ReadHeaderKeeps(e);
      ReadHeaderShrinks(e);
      var r2 := ReadHeaderF(e);
      HeaderLoopOnKeeps(r2, |Sock.Stream(e.sock)|);
      var t := HeaderLoopF(e);
      assert HeaderLoopOn(r, bound) == HeaderOut(t.eng, t.code, r.framing + t.framing);
      AppendAssoc(r.framing, t.framing, Logical(t.eng));
    }
  }

  /** A line with its line feed at the end and nowhere else. */
  predicate FullLine(l: seq<Byte>)
  {
    |l| > 0 && l[|l| - 1] == '\n' && forall i :: 0 <= i < |l| - 1 ==> l[i] != '\n'
  }

  /** What one header-line read did to response fields `h`: parsed one full line, or
      read none and either waited or met the close. */
  predicate Parsed(r: LineStep, h: Head)
  {
    && (r.framing != [] ==>
          && FullLine(r.framing) && r.eng.line == [] && (r.rv == 1 || r.rv == -1 || r.rv == -2)
          && (r.eng.head.rnext == h.rnext || r.eng.head.rnext == PhaseData)
          && (r.eng.head, r.rv) == ApplyLine(h, Strip(r.framing, Delim)))
    && (r.framing == [] ==>
          (r.rv == 0 && r.eng.head == h) || (r.rv == -1 && r.eng.head == h.(result := NotCompleted)))
  }

  lemma ReadHeaderParsed(e: EngVal)
    requires NoLF(e.line)
    ensures Parsed(ReadHeaderF(e), e.head)
  {
    var r := ReadHeaderF(e);
    HttpFacts.ApplyLineCodes(e.head, Strip(r.framing, Delim));
    ReadHeaderLine(e);
    ReadHeaderPartial(e);
  }

  /** The header loop parses, in order, exactly the lines it consumed: when it lets the
      caller go on, every one of them was accepted and the response fields are what
      `ApplyLines` makes of them. It stops either in the header phase, waiting for more
      bytes, or after the blank line, in the body phase with the line buffer empty and the
      window armed to the body size. When it gives up it returns to waiting, with NOTFIND
      only after a 404. */
  lemma HeaderLoopParses(e: EngVal)
    requires NoLF(e.line) && e.head.rnext == PhaseHeader
    ensures var r := HeaderLoopF(e);
      r.code.None? ==>
        && HttpFacts.ApplyLines(e.head, StripEach(HttpFacts.SplitLines(r.framing))) == (r.eng.head, 1)
        && (r.eng.head.rnext == PhaseHeader
            || (&& r.eng.head.rnext == PhaseData && r.eng.line == []
                && r.eng.sock.blocksize == r.eng.head.datasize
                && (r.eng.sock.endless <==> r.eng.head.datasize < 0)))
    ensures var r := HeaderLoopF(e);
      r.code.Some? ==>
        && r.eng.head.rnext == PhaseWait
        && (r.code.value == RecvClosed || r.code.value == RecvNotFind || r.code.value == RecvError)
        && (r.code.value == RecvNotFind ==> r.eng.head.result == NotFind)
        && (r.code.value == RecvError ==> r.eng.head.result != NotFind)
  {
    ReadHeaderParsed(e);
    ReadHeaderShrinks(e);
    HeaderLoopOnParses(ReadHeaderF(e), |Sock.Stream(e.sock)|, e.head);
  }

  lemma {:induction false} HeaderLoopOnParses(r: LineStep, bound: nat, h: Head)
    requires r.rv > 0 ==> |Sock.Stream(r.eng.sock)| < bound
    requires Parsed(r, h) && h.rnext == PhaseHeader
    ensures var o := HeaderLoopOn(r, bound);
      o.code.None? ==>
        && HttpFacts.ApplyLines(h, StripEach(HttpFacts.SplitLines(o.framing))) == (o.eng.head, 1)
        && (o.eng.head.rnext == PhaseHeader
            || (&& o.eng.head.rnext == PhaseData && o.eng.line == []
                && o.eng.sock.blocksize == o.eng.head.datasize
                && (o.eng.sock.endless <==> o.eng.head.datasize < 0)))
    ensures var o := HeaderLoopOn(r, bound);
      o.code.Some? ==>
        && o.eng.head.rnext == PhaseWait
        && (o.code.value == RecvClosed || o.code.value == RecvNotFind || o.code.value == RecvError)
        && (o.code.value == RecvNotFind ==> o.eng.head.result == NotFind)
        && (o.code.value == RecvError ==> o.eng.head.result != NotFind)
    decreases bound
  {
    var blank: seq<Byte> := [];
    if r.rv > 0 {
      var l := r.framing;
      LineOfLine(l, []);
      assert l + blank == l;
      assert StripEach([l]) == [Strip(l, Delim)] + StripEach([]);
      HttpFacts.ApplyLinesCons(h, Strip(l, Delim), []);
      if r.eng.head.rnext == PhaseHeader {
        var e := r.eng;
        ReadHeaderParsed(e);
        ReadHeaderShrinks(e);
        HeaderLoopOnParses(ReadHeaderF(e), |Sock.Stream(e.sock)|, e.head);
        var t := HeaderLoopF(e);
        assert HeaderLoopOn(r, bound) == HeaderOut(t.eng, t.code, l + t.framing);
        LineOfLine(l, t.framing);
        var rest := StripEach(HttpFacts.SplitLines(t.framing));
        assert StripEach([l] + HttpFacts.SplitLines(t.framing)) == [Strip(l, Delim)] + rest by {
          assert ([l] + HttpFacts.SplitLines(t.framing))[1..] == HttpFacts.SplitLines(t.framing);
        }
        HttpFacts.ApplyLinesCons(h, Strip(l, Delim), rest);
      }
    } else if r.rv == 0 {
      assert HttpFacts.SplitLines(blank) == [];
    }
  }

  // ---------------------------------------------------------------------------------
  // Reading the body

  /** The bounded read hands over the next bytes of the stream and nothing else: never
      more than asked, at least one when it reports a count, none otherwise; it never
      reports NOTFIND or ERROR, and it leaves the buffers alone. */
  lemma UnchunkedReads(e: EngVal, size: nat)
    ensures var r := ReadUnchunkedF(e, size);
      && Sock.Stream(e.sock) == r.data + Sock.Stream(r.eng.sock)
      && r.framing == [] && r.eng.line == e.line && r.eng.rheader == e.rheader
      && r.eng.host == e.host && r.eng.sheader == e.sheader
      && (r.code.Got? ==> 1 <= r.code.n <= size && |r.data| == r.code.n)
      && (!r.code.Got? ==> r.data == [])
      && r.code != RecvNotFind && r.code != RecvError
  {
    Sock.BlockRecvTakes(e.sock, size);
    var o := Sock.BlockRecvF(e.sock, size);
    assert ReadUnchunkedF(e, size) == UnchunkedOf(e, o);
    UnchunkedOfReads(e, o, size);
  }

  /** `UnchunkedReads` for any outcome that delivers the next bytes of the stream. */
  lemma UnchunkedOfReads(e: EngVal, o: Sock.BlockOut, size: nat)
    requires Sock.Stream(e.sock) == o.data + Sock.Stream(o.sock)
    requires o.res.Count? ==> 1 <= o.res.n <= size && |o.data| == o.res.n
    requires !o.res.Count? ==> o.data == []
    ensures var r := UnchunkedOf(e, o);
      && Sock.Stream(e.sock) == r.data + Sock.Stream(r.eng.sock)
      && r.framing == [] && r.eng.line == e.line && r.eng.rheader == e.rheader
      && r.eng.host == e.host && r.eng.sheader == e.sheader
      && (r.code.Got? ==> 1 <= r.code.n <= size && |r.data| == r.code.n)
      && (!r.code.Got? ==> r.data == [])
      && r.code != RecvNotFind && r.code != RecvError
  {
  }

  /** The close policy of the bounded read. A disarmed window on a closed socket stops the
      engine, returns to waiting and is DONE (result DONE) exactly when `CloseIsDone` holds,
      CLOSED (result NOT_COMPLETED) otherwise. A used-up window is DONE. Every other outcome
      leaves the engine state and the response fields alone. */
  lemma UnchunkedCloses(e: EngVal, size: nat)
    ensures var r := ReadUnchunkedF(e, size);
      !e.sock.endless && e.sock.blocksize < 0 && e.sock.state == Sock.Closed ==>
        && r.eng.state == HttpStop && r.eng.head.rnext == PhaseWait
        && (r.code == RecvDone || r.code == RecvClosed)
        && (r.code == RecvDone <==> CloseIsDone(e.sock.error, e.head))
        && r.eng.head == e.head.(rnext := PhaseWait,
                                 result := if r.code == RecvDone then ResultDone else NotCompleted)
    ensures var r := ReadUnchunkedF(e, size);
      !(!e.sock.endless && e.sock.blocksize < 0 && e.sock.state == Sock.Closed) ==>
        r.eng.state == e.state && r.eng.head == e.head
    ensures var r := ReadUnchunkedF(e, size);
      !e.sock.endless && e.sock.blocksize == 0 ==> r.code == RecvDone
  {
    Sock.BlockRecvWindow(e.sock, size);
  }

  /** The line-buffer discipline of the chunk reader: the buffer never holds a line feed,
      and it is empty whenever a chunk's bytes come next. */
  predicate ChunkLines(e: EngVal)
  {
    NoLF(e.line) && (e.head.cnext == ChunkData ==> e.line == [])
  }

  /** What one chunk-line read (`ChunkHeadF` or `ChunkTailF`) consumed: the response's next
      line when it completed one, and nothing when it waited or met the close. */
  predicate LineRead(e: EngVal, r: HeaderOut)
  {
    && Logical(e) == r.framing + Logical(r.eng)
    && NoLF(r.eng.line)
    && (r.code == None || r.code == Some(RecvAgain) || r.code == Some(RecvClosed))
    && (r.code.None? ==>
          && r.framing == LineOf(Logical(e)) && |r.framing| > 0 && r.framing[|r.framing| - 1] == '\n'
          && r.eng.line == [])
    && (r.code == Some(RecvAgain) ==> r.framing == [] && r.eng.head == e.head && r.eng.sock.state != Sock.Closed)
    && (r.code == Some(RecvClosed) ==>
          r.framing == [] && r.eng.head == e.head.(result := NotCompleted) && Sock.Stream(r.eng.sock) == [])
    && r.eng.state == e.state && r.eng.host == e.host && r.eng.sheader == e.sheader
    && r.eng.rheader == e.rheader
  }

  /** The socket read shared by both chunk-line readers. */
  lemma GetsLine(e: EngVal)
    requires NoLF(e.line)
    ensures var g := Sock.GetsF(e.sock);
      && e.line + Sock.Stream(e.sock) == (e.line + g.text) + Sock.Stream(g.sock)
      && (g.res == Sock.Done ==>
            && e.line + g.text == LineOf(e.line + Sock.Stream(e.sock))
            && |g.text| > 0 && (e.line + g.text)[|e.line + g.text| - 1] == '\n')
      && (g.res != Sock.Done ==> NoLF(e.line + g.text))
      && (g.res == Sock.Again || g.res == Sock.Done || g.res == Sock.BlockClosed)
      && (g.res == Sock.Again ==> g.sock.state != Sock.Closed)
      && (g.res == Sock.BlockClosed ==> Sock.Stream(g.sock) == [])
  {
    var g := Sock.GetsF(e.sock);
    Sock.GetsReadsLine(e.sock);
    Sock.GetsDoneShrinks(e.sock);
    AppendAssoc(e.line, g.text, Sock.Stream(g.sock));
    if g.res == Sock.Done {
      LineOfAfter(e.line, Sock.Stream(e.sock));
    } else {
      HttpFacts.NoLFJoin(e.line, g.text);
    }
  }

  /** A line of chunk framing is the response's next line when complete, and nothing
      otherwise; a complete line leaves the response fields alone. */
  lemma LineReads(e: EngVal)
    requires NoLF(e.line)
    ensures var r := LineF(e);
      LineRead(e, r) && (r.code.None? ==> r.eng.head == e.head)
  {
    GetsLine(e);
    var g := Sock.GetsF(e.sock);
    var line := e.line + g.text;
    var r := LineF(e);
    if g.res == Sock.Done {
      assert r == HeaderOut(e.(sock := g.sock, line := []), None, line);
      assert Logical(r.eng) == Sock.Stream(g.sock);
      assert NoLF(r.eng.line);
    } else {
      assert Logical(r.eng) == line + Sock.Stream(g.sock);
    }
  }

  /** The chunk-size line: once complete, its size (hex, up to the first space) becomes
      `chunksize`, the window is armed to exactly that many bytes, and the chunk's bytes come
      next; nothing else in the response changes. */
  lemma ChunkHeadReads(e: EngVal)
    requires NoLF(e.line)
    ensures var r := ChunkHeadF(e);
      && LineRead(e, r)
      && (r.code.None? ==>
            && r.eng.head == e.head.(chunksize := ChunkSizeOf(r.framing), cnext := ChunkData)
            && r.eng.sock.blocksize == ChunkSizeOf(r.framing)
            && (r.eng.sock.endless <==> ChunkSizeOf(r.framing) < 0))
  {
    LineReads(e);
    var r0 := LineF(e);
    var r := ChunkHeadOf(r0);
    if r0.code.None? {
      var n := ChunkSizeOf(r0.framing);
      assert r.framing == r0.framing && r.code == r0.code && r.eng.line == r0.eng.line;
      assert r.eng.head == r0.eng.head.(chunksize := n, cnext := ChunkData);
      assert Logical(r.eng) == Logical(r0.eng);
    }
  }

  /** The line after a chunk's bytes: once complete, the body ends after the zero-size
      chunk and the next chunk-size line follows any other. */
  lemma ChunkTailReads(e: EngVal)
    requires NoLF(e.line)
    ensures var r := ChunkTailF(e);
      && LineRead(e, r)
      && (r.code.None? ==>
            r.eng.head == e.head.(cnext := if e.head.chunksize == 0 then ChunkDone else ChunkHead))
  {
    LineReads(e);
    var r := LineF(e);
    var t := ChunkTailOf(e.head.chunksize, r);
    if r.code.None? {
      assert t.framing == r.framing && t.code == r.code && t.eng.line == r.eng.line;
      assert t.eng.sock == r.eng.sock && Logical(t.eng) == Logical(r.eng);
    }
  }

  /** A size line written `Hex(n)` followed by the line end (or by a space and an
      extension) arms the window to exactly `n` bytes. */
  lemma ChunkHeadArms(e: EngVal, n: nat, ext: seq<Byte>)
    requires NoLF(e.line)
    requires ext == [] || DigitValue(ext[0]) == 36
    requires ChunkHeadF(e).code.None? && ChunkHeadF(e).framing == Hex(n) + ext
    ensures ChunkHeadF(e).eng.head.chunksize == n && ChunkHeadF(e).eng.sock.blocksize == n
    ensures !ChunkHeadF(e).eng.sock.endless
  {
    ChunkHeadReads(e);
    HttpFacts.ChunkSizeLine(n, ext);
  }

  /** What a body reader delivered from `before`, the bytes it had to interpret: the
      framing it consumed, the bytes it wrote into the caller's buffer and what is left
      make up exactly `before`; a count is between 1 and `size` and matches the bytes. */
  predicate Delivered(before: seq<Byte>, r: Reply, size: nat)
  {
    && before == r.framing + r.data + Logical(r.eng)
    && (r.code.Got? ==> 1 <= r.code.n <= size && |r.data| == r.code.n)
    && (!r.code.Got? ==> r.data == [])
  }

  /** The codes a body reader can return: never NOTFIND or ERROR, which only the header
      loop reports. */
  predicate BodyCode(c: RecvCode)
  {
    c != RecvNotFind && c != RecvError
  }

  /** The chunk reader delivers the body bytes in stream order, the chunk framing in front
      of them, and keeps its line buffer in order. */
  lemma ChunkedReads(e: EngVal, size: nat)
    requires ChunkLines(e)
    ensures var r := ReadChunkedF(e, size);
      && Delivered(Logical(e), r, size) && BodyCode(r.code) && ChunkLines(r.eng)
      && r.eng.head.chunked == e.head.chunked
    decreases |Sock.Stream(e.sock)|, ChunkRank(e.head.cnext), 2
  {
    match e.head.cnext
    case ChunkHead => ChunkedAtHead(e, size);
    case ChunkData => ChunkedAtData(e, size);
    case ChunkTail => ChunkedAtTail(e, size);
    case ChunkDone =>
  }

  lemma ChunkedAtHead(e: EngVal, size: nat)
    requires ChunkLines(e) && e.head.cnext == ChunkHead
    ensures var r := ReadChunkedF(e, size);
      && Delivered(Logical(e), r, size) && BodyCode(r.code) && ChunkLines(r.eng)
      && r.eng.head.chunked == e.head.chunked
    decreases |Sock.Stream(e.sock)|, 0, 1
  {
    ChunkHeadReads(e);
    HeadShrinks(e);
    assert ReadChunkedF(e, size) == AfterChunkLine(ChunkHeadF(e), size, |Sock.Stream(e.sock)|);
    AfterLineReads(e, ChunkHeadF(e), size, |Sock.Stream(e.sock)|);
  }

  lemma ChunkedAtTail(e: EngVal, size: nat)
    requires ChunkLines(e) && e.head.cnext == ChunkTail
    ensures var r := ReadChunkedF(e, size);
      && Delivered(Logical(e), r, size) && BodyCode(r.code) && ChunkLines(r.eng)
      && r.eng.head.chunked == e.head.chunked
    decreases |Sock.Stream(e.sock)|, 0, 1
  {
    ChunkTailReads(e);
    TailShrinks(e);
    assert ReadChunkedF(e, size) == AfterChunkLine(ChunkTailF(e), size, |Sock.Stream(e.sock)|);
    AfterLineReads(e, ChunkTailF(e), size, |Sock.Stream(e.sock)|);
  }

  lemma ChunkedAtData(e: EngVal, size: nat)
    requires ChunkLines(e) && e.head.cnext == ChunkData
    ensures var r := ReadChunkedF(e, size);
      && Delivered(Logical(e), r, size) && BodyCode(r.code) && ChunkLines(r.eng)
      && r.eng.head.chunked == e.head.chunked
    decreases |Sock.Stream(e.sock)|, 1, 1
  {
    UnchunkedReads(e, size);
    UnchunkedShrinks(e, size);
    UnchunkedCloses(e, size);
    assert ReadChunkedF(e, size) == AfterChunkData(ReadUnchunkedF(e, size), size, |Sock.Stream(e.sock)|);
    AfterChunkDataReads(ReadUnchunkedF(e, size), size, |Sock.Stream(e.sock)|);
  }

  lemma AfterLineReads(e: EngVal, r: HeaderOut, size: nat, bound: nat)
    requires r.code.None? ==> |Sock.Stream(r.eng.sock)| < bound
    requires LineRead(e, r) && (r.eng.head.cnext == ChunkData ==> r.eng.line == [])
    requires r.eng.head.chunked == e.head.chunked
    ensures var t := AfterChunkLine(r, size, bound);
      && Delivered(Logical(e), t, size) && BodyCode(t.code) && ChunkLines(t.eng)
      && t.eng.head.chunked == e.head.chunked
    decreases bound, 0, 0
  {
    if r.code.None? {
      ChunkedReads(r.eng, size);
      var t := ReadChunkedF(r.eng, size);
      AppendAssoc(r.framing, t.framing, t.data + Logical(t.eng));
      AppendAssoc(t.framing, t.data, Logical(t.eng));
      AppendAssoc(r.framing + t.framing, t.data, Logical(t.eng));
    }
  }

  lemma AfterChunkDataReads(r: Reply, size: nat, bound: nat)
    requires |Sock.Stream(r.eng.sock)| <= bound
    requires r.framing == [] && r.eng.line == [] && r.eng.head.cnext == ChunkData
    requires r.code.Got? ==> 1 <= r.code.n <= size && |r.data| == r.code.n
    requires !r.code.Got? ==> r.data == []
    requires BodyCode(r.code)
    ensures var t := AfterChunkData(r, size, bound);
      && Delivered(r.data + Logical(r.eng), t, size) && BodyCode(t.code) && ChunkLines(t.eng)
      && t.eng.head.chunked == r.eng.head.chunked
    decreases bound, 1, 0
  {
    if r.code == RecvDone {
      var e2 := r.eng.(head := r.eng.head.(cnext := ChunkTail));
      ChunkedReads(e2, size);
    }
  }

  /** The line-buffer discipline of the engine: the buffer never holds a line feed, and it
      is empty whenever body bytes come next. */
  predicate LineInv(e: EngVal)
  {
    && NoLF(e.line)
    && (e.head.rnext == PhaseData ==>
          if e.head.chunked then e.head.cnext == ChunkData ==> e.line == [] else e.line == [])
  }

  /** The body part of `ihttplib_recv` delivers the body in stream order behind whatever
      framing it consumed, keeps the line buffer in order, and returns to waiting on DONE. */
  lemma RecvBodyReads(e: EngVal, size: nat)
    requires LineInv(e) && e.head.rnext == PhaseData
    ensures var r := RecvBodyF(e, size);
      && Delivered(Logical(e), r, size) && BodyCode(r.code) && LineInv(r.eng)
      && (r.code == RecvDone ==> r.eng.head.rnext == PhaseWait)
  {
    if e.head.chunked {
      ChunkedReads(e, size);
    } else {
      UnchunkedReads(e, size);
      UnchunkedCloses(e, size);
    }
  }

  /** `ihttplib_recv`: what it consumed (header lines, chunk framing, body bytes handed to
      the caller, in that order) and what the engine still holds make up what it had to
      read once its start had pushed the send queue and, when waiting, begun a response.
      A count is between 1 and `size`; DONE, NOTFIND and ERROR all return to waiting, and
      NOTFIND only after a 404. */
  lemma RecvReads(e: EngVal, size: nat)
    requires LineInv(e)
    ensures var r := RecvF(e, size);
      && Delivered(Logical(RecvStartF(e)), r, size) && LineInv(r.eng)
      && (r.code == RecvDone || r.code == RecvNotFind || r.code == RecvError ==> r.eng.head.rnext == PhaseWait)
      && (r.code == RecvNotFind ==> r.eng.head.result == NotFind)
  {
    var e1 := RecvStartF(e);
    assert LineInv(e1);
    if e1.head.rnext == PhaseHeader {
      HeaderLoopKeeps(e1);
      HeaderLoopParses(e1);
      RecvAfterHeaderReads(HeaderLoopF(e1), size);
    } else {
      RecvAfterHeaderReads(HeaderOut(e1, None, []), size);
    }
  }

  lemma RecvAfterHeaderReads(hl: HeaderOut, size: nat)
    requires LineInv(hl.eng)
    requires hl.code.Some? ==>
      && hl.eng.head.rnext == PhaseWait
      && (hl.code.value == RecvClosed || hl.code.value == RecvNotFind || hl.code.value == RecvError)
      && (hl.code.value == RecvNotFind ==> hl.eng.head.result == NotFind)
    ensures var r := RecvAfterHeader(hl, size);
      && Delivered(hl.framing + Logical(hl.eng), r, size) && LineInv(r.eng)
      && (r.code == RecvDone || r.code == RecvNotFind || r.code == RecvError ==> r.eng.head.rnext == PhaseWait)
      && (r.code == RecvNotFind ==> r.eng.head.result == NotFind)
  {
    if hl.code.None? && hl.eng.head.rnext == PhaseData {
      RecvBodyReads(hl.eng, size);
      var r := RecvBodyF(hl.eng, size);
      AppendAssoc(hl.framing, r.framing, r.data);
      AppendAssoc(hl.framing, r.framing + r.data, Logical(r.eng));
      AppendAssoc(hl.framing + r.framing, r.data, Logical(r.eng));
    }
  }

  // ---------------------------------------------------------------------------------
  // Connection and request facts

  /** `ihttplib_open` keeps the `Host` text of the split name, and its result says which
      step failed: -1 exactly when the name is not an address, -2 exactly when the socket
      could not be made. Success starts the connect with empty queues and leaves the engine
      waiting for a response; failure leaves it stopped with its socket closed. */
  lemma OpenConnects(e: EngVal, text: seq<Byte>, resolve: seq<Byte> -> bool, socketOk: bool,
                     peer: Sock.Peer)
    ensures var r := OpenF(e, text, resolve, socketOk, peer);
      var ep := HostSplit(text);
      && r.0.host == ep.hostHeader
      && (r.1 == -1 <==> !resolve(ep.name))
      && (r.1 == -2 <==> resolve(ep.name) && !socketOk)
      && (r.1 == 0 <==> resolve(ep.name) && socketOk)
      && (r.1 == 0 ==>
            && r.0.state == HttpConnecting && r.0.sock.state == Sock.Connecting
            && r.0.sock.sendQ == [] && r.0.sock.recvQ == [] && r.0.sock.peer == peer
            && r.0.head == e.head.(rnext := PhaseWait, keepalive := false, nosize := false, partial := false))
      && (r.1 != 0 ==> r.0.state == HttpStop && r.0.sock.state == Sock.Closed && r.0.head == e.head)
  {
  }

  /** Writing lines one after the other onto a reset header text gives exactly those lines,
      each ended by CRLF. */
  lemma {:induction false} HeaderWriteLines(e: EngVal, ls: seq<seq<Byte>>)
    ensures HeaderWriteAll(e, ls) == e.(sheader := e.sheader + Lines(ls))
    decreases |ls|
  {
    if ls != [] {
      var e1 := HeaderWriteF(e, ls[0]);
      HeaderWriteLines(e1, ls[1..]);
      AppendAssoc(e.sheader, Line(ls[0]), Lines(ls[1..]));
    }
  }

  /** `ihttplib_request` refuses exactly a GET with a body, changing nothing. Otherwise the
      header text is exactly the request's lines, and on a socket that is not closed the
      bytes queued or already on the wire grow by exactly the request: header, blank line
      and body. Only the header text and the socket change. */
  lemma RequestQueues(e: EngVal, m: Method, url: seq<Byte>, body: seq<Byte>, bodysize: int,
                      header: seq<Byte>)
    requires m == Post && bodysize >= 0 ==> bodysize <= |body|
    ensures var r := RequestF(e, m, url, body, bodysize, header);
      var extra := Strip(header, Delim);
      && (r.1 == -1 <==> m == Get && bodysize > 0)
      && (r.1 != -1 ==> r.1 == 0)
      && (r.1 == -1 ==> r.0 == e)
      && (r.1 == 0 ==>
            && r.0.sheader == Lines(RequestLines(m, url, e.host, extra, bodysize))
            && r.0 == e.(sheader := r.0.sheader, sock := r.0.sock)
            && (e.sock.state != Sock.Closed ==>
                  r.0.sock.wire + r.0.sock.sendQ
                    == e.sock.wire + e.sock.sendQ + RequestBytes(m, url, e.host, extra, body, bodysize)))
  {
    if !(bodysize > 0 && m == Get) {
      var extra := Strip(header, Delim);
      var ls := RequestLines(m, url, e.host, extra, bodysize);
      HeaderWriteLines(HeaderResetF(e), ls);
      var e0 := HeaderWriteAll(HeaderResetF(e), ls);
      assert e0 == e.(sheader := Lines(ls));
      var post := m == Post && bodysize >= 0;
      var tail := if post then body[..bodysize] else [];
      var e1 := if m == OtherMethod then e0 else QueueF(e0, tail, post);
      assert RequestF(e, m, url, body, bodysize, header) == (UpdateF(e1, 0).0, 0);
      UpdatePolls(e1, 0);
      if m != OtherMethod {
        SendQueues(e0, tail, post);
        var req := RequestBytes(m, url, e.host, extra, body, bodysize);
        assert req == Lines(ls) + "\r\n" + tail;
        var q := e.sock.wire + e.sock.sendQ;
        assert e.sock.state != Sock.Closed ==> e1.sock.wire + e1.sock.sendQ == q + req by {
          assert e0.sock == e.sock && e0.sheader == Lines(ls);
          assert e.sock.state != Sock.Closed ==> e1.sock.wire + e1.sock.sendQ == q + Lines(ls) + "\r\n" + tail;
          calc {
            q + Lines(ls) + "\r\n" + tail;
            { AppendAssoc(q, Lines(ls), "\r\n"); }
            q + (Lines(ls) + "\r\n") + tail;
            { AppendAssoc(q, Lines(ls) + "\r\n", tail); }
            q + req;
          }
        }
      }
    }
  }

  /** The header text, the blank line and, for a body, the body bytes, queued in turn. */
  function QueueF(e: EngVal, tail: seq<Byte>, post: bool): EngVal
  {
    var e1 := HeaderSendF(e);
    if post then SendF(e1, tail).0 else e1
  }

  lemma SendQueues(e: EngVal, tail: seq<Byte>, post: bool)
    requires !post ==> tail == []
    ensures var r := QueueF(e, tail, post);
      && r == e.(sock := r.sock)
      && (e.sock.state != Sock.Closed ==>
            r.sock.wire + r.sock.sendQ == e.sock.wire + e.sock.sendQ + e.sheader + "\r\n" + tail)
      && r.sock.state == e.sock.state && r.sock.wire == e.sock.wire
  {
    var s0 := e.sock;
    var s1 := Sock.SendF(s0, e.sheader).0;
    var s2 := Sock.SendF(s1, "\r\n").0;
    if s0.state != Sock.Closed {
      assert s2.sendQ == s0.sendQ + e.sheader + "\r\n";
      if post {
        assert Sock.SendF(s2, tail).0.sendQ == s0.sendQ + e.sheader + "\r\n" + tail;
      } else {
        assert s2.sendQ == s0.sendQ + e.sheader + "\r\n" + tail;
      }
      AppendAssoc(s0.wire, s0.sendQ, e.sheader + "\r\n" + tail);
      assert s0.sendQ + (e.sheader + "\r\n" + tail) == s0.sendQ + e.sheader + "\r\n" + tail;
    }
  }

  /** `ihttplib_update`: every byte queued is either still queued or on the wire, in order,
      the socket never offers more than before, and only the socket changes. With a wait,
      the poll watches for input and errors always, and for writability exactly while bytes
      are still queued or the connect is in progress after the first update. */
  lemma UpdatePolls(e: EngVal, wait: int)
    ensures var r := UpdateF(e, wait);
      && r.0.sock.wire + r.0.sock.sendQ == e.sock.wire + e.sock.sendQ
      && |Sock.Stream(r.0.sock)| <= |Sock.Stream(e.sock)|
      && r.0 == e.(sock := r.0.sock)
      && (wait <= 0 ==> r.1 == {})
      && (wait > 0 ==>
            var s1 := Sock.UpdateF(e.sock);
            && WantRecv in r.1 && WantError in r.1
            && (WantSend in r.1 <==> |s1.sendQ| > 0 || s1.state == Sock.Connecting))
  {
  }

  // ---------------------------------------------------------------------------------
  // Steps of the loops, for the class below

  /** A read never makes the socket offer more. */
  lemma ReadHeaderNoGrow(e: EngVal)
    ensures |Sock.Stream(ReadHeaderF(e).eng.sock)| <= |Sock.Stream(e.sock)|
  {
    LineNoGrow(e);
  }

  lemma LineNoGrow(e: EngVal)
    ensures |Sock.Stream(LineF(e).eng.sock)| <= |Sock.Stream(e.sock)|
    ensures LineF(e).code.None? ==> |Sock.Stream(LineF(e).eng.sock)| < |Sock.Stream(e.sock)|
  {
    Sock.GetsReadsLine(e.sock);
    Sock.GetsDoneShrinks(e.sock);
  }

  /** One turn of the header loop, case by case. */
  lemma HeaderStep(v: EngVal)
    ensures var r := ReadHeaderF(v);
      var o := HeaderLoopF(v);
      && |Sock.Stream(r.eng.sock)| <= |Sock.Stream(v.sock)|
      && (r.rv > 0 ==> r.eng.line == [])
      && (r.rv == 0 ==> o.eng == r.eng && o.code == None)
      && (r.rv == -1 ==> o.eng == r.eng.(head := r.eng.head.(rnext := PhaseWait)) && o.code == Some(RecvClosed))
      && (r.rv < -1 ==>
            && o.eng == r.eng.(head := r.eng.head.(rnext := PhaseWait))
            && o.code == Some(if r.eng.head.result == NotFind then RecvNotFind else RecvError))
      && (r.rv > 0 && r.eng.head.rnext != PhaseHeader ==>
            o.eng == r.eng.(sock := Sock.BlockSetF(r.eng.sock, r.eng.head.datasize)) && o.code == None)
      && (r.rv > 0 && r.eng.head.rnext == PhaseHeader ==>
            && o.eng == HeaderLoopF(r.eng).eng && o.code == HeaderLoopF(r.eng).code
            && |Sock.Stream(r.eng.sock)| < |Sock.Stream(v.sock)|)
  {
    ReadHeaderShrinks(v);
    ReadHeaderNoGrow(v);
    LineReadsAny(v);
  }

  /** A complete line empties the line buffer, whatever it held. */
  lemma LineReadsAny(e: EngVal)
    ensures LineF(e).code.None? ==> LineF(e).eng.line == []
  {
  }

  /** Two replies that agree on everything the caller sees. */
  predicate Same(a: Reply, b: Reply)
  {
    a.eng == b.eng && a.code == b.code && a.data == b.data
  }

  lemma ChunkedHeadStep(e: EngVal, size: nat)
    requires e.head.cnext == ChunkHead
    ensures var r := ChunkHeadF(e);
      && (r.code.Some? ==> Same(ReadChunkedF(e, size), Reply(r.eng, r.code.value, [], [])))
      && (r.code.None? ==> Same(ReadChunkedF(e, size), ReadChunkedF(r.eng, size)))
      && |Sock.Stream(r.eng.sock)| <= |Sock.Stream(e.sock)|
      && (r.code.None? ==> |Sock.Stream(r.eng.sock)| < |Sock.Stream(e.sock)|)
      && (r.code.Some? ==> r.eng.head.cnext == ChunkHead)
  {
    HeadShrinks(e);
    LineNoGrow(e);
  }

  lemma ChunkedDataStep(e: EngVal, size: nat)
    requires e.head.cnext == ChunkData
    ensures var r := ReadUnchunkedF(e, size);
      && (r.code != RecvDone ==> Same(ReadChunkedF(e, size), r))
      && (r.code == RecvDone ==>
            Same(ReadChunkedF(e, size), ReadChunkedF(r.eng.(head := r.eng.head.(cnext := ChunkTail)), size)))
      && |Sock.Stream(r.eng.sock)| <= |Sock.Stream(e.sock)|
      && r.eng.head.cnext == ChunkData
  {
    UnchunkedShrinks(e, size);
    UnchunkedCloses(e, size);
  }

  lemma ChunkedTailStep(e: EngVal, size: nat)
    requires e.head.cnext == ChunkTail
    ensures var r := ChunkTailF(e);
      && (r.code.Some? ==> Same(ReadChunkedF(e, size), Reply(r.eng, r.code.value, [], [])))
      && (r.code.None? ==> Same(ReadChunkedF(e, size), ReadChunkedF(r.eng, size)))
      && |Sock.Stream(r.eng.sock)| <= |Sock.Stream(e.sock)|
      && (r.code.None? ==> |Sock.Stream(r.eng.sock)| < |Sock.Stream(e.sock)|)
      && (r.code.Some? ==> r.eng.head.cnext == ChunkTail)
  {
    TailShrinks(e);
    LineNoGrow(e);
  }

  lemma {:induction false} LinesSnoc(ls: seq<seq<Byte>>, l: seq<Byte>)
    ensures Lines(ls + [l]) == Lines(ls) + Line(l)
    decreases |ls|
  {
    if ls == [] {
      assert [] + [l] == [l];
    } else {
      assert (ls + [l])[0] == ls[0] && (ls + [l])[1..] == ls[1..] + [l];
      LinesSnoc(ls[1..], l);
      AppendAssoc(Line(ls[0]), Lines(ls[1..]), Line(l));
    }
  }

  /** One more header line written onto a text that holds lines `w` after `s0`. */
  lemma WriteStep(s0: seq<Byte>, w: seq<seq<Byte>>, text: seq<Byte>, sh: seq<Byte>)
    requires sh == s0 + Lines(w)
    ensures sh + text + "\r\n" == s0 + Lines(w + [text])
  {
    LinesSnoc(w, text);
    AppendAssoc(sh, text, "\r\n");
    AppendAssoc(s0, Lines(w), Line(text));
  }

  // ---------------------------------------------------------------------------------
  // The object

  /** An `IHTTPLIB`: the engine fields it updates in place, and its socket. */
  class HttpLib {
    var state: HttpState
    var host: seq<Byte>
    var sheader: seq<Byte>
    var rheader: seq<Byte>
    var line: seq<Byte>
    var head: Head
    const sock: Sock.HttpSock

    function Val(): EngVal
      reads this, sock
    {
      EngVal(state, host, sheader, rheader, line, head, sock.Val())
    }

    /** `ihttplib_new`: stopped and waiting for a response, not chunked, with empty texts
        and a new closed socket. The response fields it leaves unset are unconstrained. */
    constructor ()
      ensures fresh(sock)
      ensures state == HttpStop && host == [] && sheader == [] && rheader == [] && line == []
      ensures head.rnext == PhaseWait && !head.chunked && head.ctype == []
      ensures sock.state == Sock.Closed && sock.sendQ == [] && sock.recvQ == []
      ensures sock.blocksize == -1 && !sock.endless
    {
      state := HttpStop;
      host := [];
      sheader := [];
      rheader := [];
      line := [];
      sock := new Sock.HttpSock();
      new;
      head := head.(rnext := PhaseWait, chunked := false, ctype := []);
    }

    /** `ihttplib_open`. */
    method Open(text: seq<Byte>, resolve: seq<Byte> -> bool, socketOk: bool, peer: Sock.Peer)
      returns (r: int)
      modifies this, sock
      ensures (Val(), r) == OpenF(old(Val()), text, resolve, socketOk, peer)
    {
      Close();
      var ep := HostSplit(text);
      host := ep.hostHeader;
      if !resolve(ep.name) {
        return -1;
      }
      var c := sock.Connect(socketOk, peer);
      if c != 0 {
        return -2;
      }
      state := HttpConnecting;
      head := head.(rnext := PhaseWait, keepalive := false, nosize := false, partial := false);
      return 0;
    }

    /** `ihttplib_close`. */
    method Close()
      modifies this, sock
      ensures Val() == CloseF(old(Val()))
    {
      sock.Close();
      state := HttpStop;
    }

    /** `ihttplib_update`: returns the engine state and, with a wait, the events it would
        poll for. */
    method Update(wait: int) returns (st: HttpState, mask: set<Interest>)
      modifies sock
      ensures (Val(), mask) == UpdateF(old(Val()), wait) && st == state
    {
      mask := {};
      if wait > 0 {
        sock.Update();
        mask := PollMask(sock.DSize(), sock.state == Sock.Connecting);
      }
      sock.Update();
      st := state;
    }

    /** `ihttplib_header_reset`. */
    method HeaderReset()
      modifies this
      ensures Val() == HeaderResetF(old(Val()))
    {
      sheader := [];
    }

    /** `ihttplib_header_write`. */
    method HeaderWrite(text: seq<Byte>)
      modifies this
      ensures Val() == HeaderWriteF(old(Val()), text)
      ensures sheader == old(sheader) + text + "\r\n"
      ensures state == old(state) && host == old(host) && rheader == old(rheader)
      ensures line == old(line) && head == old(head)
    {
      sheader := sheader + text + "\r\n";
    }

    /** `ihttplib_header_send`. */
    method HeaderSend()
      modifies sock
      ensures Val() == HeaderSendF(old(Val()))
    {
      var _ := sock.Send(sheader);
      var _ := sock.Send("\r\n");
    }

    /** `ihttplib_send`. */
    method Send(data: seq<Byte>) returns (n: nat)
      modifies sock
      ensures (Val(), n) == SendF(old(Val()), data)
    {
      var _ := sock.Send(data);
      n := sock.DSize();
    }

    /** `ihttplib_dsize`. */
    function DSize(): nat
      reads sock
    {
      sock.DSize()
    }

    /** `ihttplib_request`: the header lines are written one by one, as the source does. */
    method Request(m: Method, url: seq<Byte>, body: seq<Byte>, bodysize: int, header: seq<Byte>)
      returns (r: int)
      requires m == Post && bodysize >= 0 ==> bodysize <= |body|
      modifies this, sock
      ensures (Val(), r) == RequestF(old(Val()), m, url, body, bodysize, header)
    {
      var extra := Strip(header, Delim);
      if bodysize > 0 && m == Get {
        return -1;
      }
      ghost var e := Val();
      ghost var ls := RequestLines(m, url, host, extra, bodysize);
      ghost var post := m == Post && bodysize >= 0;
      ghost var tail := if post then body[..bodysize] else [];
      HeaderWriteLines(HeaderResetF(e), ls);
      ghost var e0 := HeaderWriteAll(HeaderResetF(e), ls);
      HeaderReset();
      if m != OtherMethod {
        WriteRequestLines(m, url, bodysize, extra);
        assert Val() == e0;
        HeaderSend();
        if m == Post && bodysize >= 0 {
          var _ := Send(body[..bodysize]);
        }
        assert Val() == QueueF(e0, tail, post);
      } else {
        assert Val() == e0;
      }
      assert RequestF(e, m, url, body, bodysize, header)
          == (UpdateF(if m == OtherMethod then e0 else QueueF(e0, tail, post), 0).0, 0);
      var _, _ := Update(0);
      return 0;
    }

    /** The header lines of `ihttplib_request`, written one by one onto the header text. */
    method WriteRequestLines(m: Method, url: seq<Byte>, bodysize: int, extra: seq<Byte>)
      requires m != OtherMethod
      modifies this
      ensures sheader == old(sheader) + Lines(RequestLines(m, url, host, extra, bodysize))
      ensures Val() == old(Val()).(sheader := sheader)
    {
      if m == Get {
        WriteGetLines(url, extra);
      } else {
        WritePostLines(url, bodysize, extra);
      }
    }

    /** The lines of a GET: request line, `Host`, `User-Agent`, then the extra text. */
    method WriteGetLines(url: seq<Byte>, extra: seq<Byte>)
      modifies this
      ensures sheader == old(sheader) + Lines(RequestLines(Get, url, host, extra, 0))
      ensures state == old(state) && host == old(host) && rheader == old(rheader)
      ensures line == old(line) && head == old(head)
    {
      ghost var target := RequestLines(Get, url, host, extra, 0);
      ghost var s0 := sheader;
      ghost var w: seq<seq<Byte>> := [];
      assert s0 + Lines(w) == s0;
      var first := "GET " + url + " HTTP/1.1";
      WriteStep(s0, w, first, sheader);
      HeaderWrite(first);
      w := w + [first];
      var hostLine := "Host: " + host;
      WriteStep(s0, w, hostLine, sheader);
      HeaderWrite(hostLine);
      w := w + [hostLine];
      WriteStep(s0, w, UserAgent, sheader);
      HeaderWrite(UserAgent);
      w := w + [UserAgent];
      if |extra| > 0 {
        WriteStep(s0, w, extra, sheader);
        HeaderWrite(extra);
        w := w + [extra];
      }
      assert w == target;
    }

    /** The lines of a POST: request line, `Host`, `Content-Length` when the size is not
        negative, then the extra text. */
    method WritePostLines(url: seq<Byte>, bodysize: int, extra: seq<Byte>)
      modifies this
      ensures sheader == old(sheader) + Lines(RequestLines(Post, url, host, extra, bodysize))
      ensures state == old(state) && host == old(host) && rheader == old(rheader)
      ensures line == old(line) && head == old(head)
    {
      ghost var target := RequestLines(Post, url, host, extra, bodysize);
      ghost var s0 := sheader;
      ghost var w: seq<seq<Byte>> := [];
      assert s0 + Lines(w) == s0;
      var first := "POST " + url + " HTTP/1.1";
      WriteStep(s0, w, first, sheader);
      HeaderWrite(first);
      w := w + [first];
      var hostLine := "Host: " + host;
      WriteStep(s0, w, hostLine, sheader);
      HeaderWrite(hostLine);
      w := w + [hostLine];
      if bodysize >= 0 {
        var length := "Content-Length: " + Decimal(bodysize);
        WriteStep(s0, w, length, sheader);
        HeaderWrite(length);
        w := w + [length];
      }
      if |extra| > 0 {
        WriteStep(s0, w, extra, sheader);
        HeaderWrite(extra);
        w := w + [extra];
      }
      assert w == target;
    }

    /** `ihttplib_read_header`. */
    method ReadHeader() returns (rv: int)
      modifies this, sock
      ensures var r := ReadHeaderF(old(Val())); Val() == r.eng && rv == r.rv
    {
      var h := head;
      var code, text := GetLine();
      if code == Some(RecvAgain) {
        return 0;
      }
      if code.Some? {
        return -1;
      }
      var l := Strip(text, Delim);
      rheader := rheader + l;
      var a := ApplyLine(h, l);
      head := a.0;
      return a.1;
    }

    /** The header loop of `ihttplib_recv`. */
    method HeaderLoop() returns (code: Option<RecvCode>)
      modifies this, sock
      ensures var r := HeaderLoopF(old(Val())); Val() == r.eng && code == r.code
    {
      ghost var goal := HeaderLoopF(Val());
      var stop := false;
      code := None;
      while !stop
        invariant !stop ==> goal.eng == HeaderLoopF(Val()).eng && goal.code == HeaderLoopF(Val()).code
        invariant !stop ==> code == None
        invariant stop ==> goal.eng == Val() && goal.code == code
        decreases |Sock.Stream(sock.Val())|, if stop then 0 else 1
      {
        ghost var v := Val();
        ghost var r := ReadHeaderF(v);
        HeaderStep(v);
        var rv := ReadHeader();
        assert Val() == r.eng && rv == r.rv;
        if rv == 0 {
          stop := true;
        } else if rv == -1 {
          head := head.(rnext := PhaseWait);
          code := Some(RecvClosed);
          assert Val() == r.eng.(head := r.eng.head.(rnext := PhaseWait));
          stop := true;
        } else if rv < 0 {
          head := head.(rnext := PhaseWait);
          code := Some(if head.result == NotFind then RecvNotFind else RecvError);
          assert Val() == r.eng.(head := r.eng.head.(rnext := PhaseWait));
          stop := true;
        } else {
          line := [];
          assert Val() == r.eng;
          if head.rnext != PhaseHeader {
            sock.BlockSet(head.datasize);
            assert Val() == r.eng.(sock := Sock.BlockSetF(r.eng.sock, r.eng.head.datasize));
            stop := true;
          }
        }
      }
    }

    /** `ihttplib_read_unchunked`. */
    method ReadUnchunked(size: nat) returns (code: RecvCode, data: seq<Byte>)
      modifies this, sock
      ensures var r := ReadUnchunkedF(old(Val()), size); Val() == r.eng && code == r.code && data == r.data
    {
      var h := head;
      ghost var e := Val();
      ghost var o := Sock.BlockRecvF(e.sock, size);
      var res;
      res, data := sock.BlockRecv(size);
      assert sock.Val() == o.sock && res == o.res && data == o.data;
      assert ReadUnchunkedF(e, size).eng.sock == o.sock;
      match res
      case Count(n) =>
        code := Got(n);
      case Again =>
        code, data := RecvAgain, [];
      case Done =>
        code, data := RecvDone, [];
      case StateClosed =>
        code, data := RecvClosed, [];
      case BlockClosed =>
        state := HttpStop;
        head := head.(rnext := PhaseWait, result := ResultDone);
        data := [];
        if CloseIsDone(sock.error, h) {
          code := RecvDone;
        } else {
          head := head.(result := NotCompleted);
          code := RecvClosed;
        }
    }

    /** A line of chunk framing; `text` is the completed line. */
    method GetLine() returns (code: Option<RecvCode>, text: seq<Byte>)
      modifies this, sock
      ensures var r := LineF(old(Val())); Val() == r.eng && code == r.code && text == r.framing
    {
      var res, out := sock.Gets(line);
      line := out;
      if res == Sock.Again {
        return Some(RecvAgain), [];
      }
      if res != Sock.Done {
        head := head.(result := NotCompleted);
        return Some(RecvClosed), [];
      }
      text := line;
      line := [];
      code := None;
    }

    /** The chunk-size line of `ihttplib_read_chunked`. */
    method ReadChunkHead() returns (code: Option<RecvCode>)
      modifies this, sock
      ensures var r := ChunkHeadF(old(Val())); Val() == r.eng && code == r.code
    {
      var text;
      code, text := GetLine();
      if code.None? {
        var n := ChunkSizeOf(text);
        sock.BlockSet(n);
        head := head.(chunksize := n, cnext := ChunkData);
      }
    }

    /** The line after a chunk's bytes in `ihttplib_read_chunked`. */
    method ReadChunkTail() returns (code: Option<RecvCode>)
      modifies this, sock
      ensures var r := ChunkTailF(old(Val())); Val() == r.eng && code == r.code
    {
      var text;
      code, text := GetLine();
      if code.None? {
        head := head.(cnext := if head.chunksize == 0 then ChunkDone else ChunkHead);
      }
    }

    /** `ihttplib_read_chunked`: each turn of the loop runs the phase the chunk reader is in. */
    method ReadChunked(size: nat) returns (code: RecvCode, data: seq<Byte>)
      modifies this, sock
      ensures var r := ReadChunkedF(old(Val()), size); Val() == r.eng && code == r.code && data == r.data
    {
      ghost var goal := ReadChunkedF(Val(), size);
      var stop := false;
      code, data := RecvAgain, [];
      while !stop
        invariant !stop ==> Same(goal, ReadChunkedF(Val(), size))
        invariant stop ==> goal.eng == Val() && goal.code == code && goal.data == data
        decreases |Sock.Stream(sock.Val())|, ChunkRank(head.cnext), if stop then 0 else 1
      {
        ghost var v := Val();
        if head.cnext == ChunkHead {
          ChunkedHeadStep(v, size);
          var c := ReadChunkHead();
          if c.Some? {
            code, data, stop := c.value, [], true;
          }
        } else if head.cnext == ChunkData {
          ChunkedDataStep(v, size);
          var c, d := ReadUnchunked(size);
          if c != RecvDone {
            code, data, stop := c, d, true;
          } else {
            head := head.(cnext := ChunkTail);
          }
        } else if head.cnext == ChunkTail {
          ChunkedTailStep(v, size);
          var c := ReadChunkTail();
          if c.Some? {
            code, data, stop := c.value, [], true;
          }
        } else {
          code, data, stop := RecvDone, [], true;
        }
      }
    }

    /** `ihttplib_recv`. */
    method Recv(size: nat) returns (code: RecvCode, data: seq<Byte>)
      modifies this, sock
      ensures var r := RecvF(old(Val()), size); Val() == r.eng && code == r.code && data == r.data
    {
      if sock.DSize() > 0 {
        sock.Update();
      }
      if head.rnext == PhaseWait {
        head := head.(rnext := PhaseHeader, result := NotStarted);
        line := [];
        rheader := [];
      }
      ghost var e1 := Val();
      assert e1 == RecvStartF(old(Val()));
      var hcode: Option<RecvCode> := None;
      if head.rnext == PhaseHeader {
        hcode := HeaderLoop();
      }
      if hcode.Some? {
        return hcode.value, [];
      }
      if head.rnext == PhaseData {
        if !head.chunked {
          code, data := ReadUnchunked(size);
        } else {
          code, data := ReadChunked(size);
        }
        if code == RecvDone {
          head := head.(rnext := PhaseWait);
        }
        return;
      }
      return RecvAgain, [];
    }
  }
}

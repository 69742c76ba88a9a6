/** The socket wrapper `IHTTPSOCK`: one non-blocking descriptor, an outbound and an inbound
    byte queue, and pseudo-blocking reads built from single-shot `irecv` calls (tri-state
    `recv`, one byte, one line, a bounded window).

    The descriptor itself is replaced by a `Peer`: the outcomes its successive `irecv`,
    `isend` and zero-timeout `ipollfd` calls report. Each operation is first a function on
    the value `SockVal`, where its properties are proved, and then a method of the class
    `HttpSock`, proved to change the object's fields exactly as that function says. */
module Sock {
  import opened Text

  datatype State = Closed | Connecting | Connected

  /** What one `irecv` reports: the bytes it read (none at all means the peer shut the
      connection down), that it would block, or a hard error. */
  datatype RecvEvent = Received(data: seq<Byte>) | WouldBlock | Failed

  /** What one `isend` reports: how many bytes it took, that it would block, or a hard error. */
  datatype SendEvent = Accepted(count: nat) | SendWouldBlock | SendFailed

  /** What the zero-timeout poll for writable-or-error reports while connecting. */
  datatype PollEvent = PollEvent(writable: bool, error: bool)

  /** The operating system's side of one descriptor. A script that has run out reports
      nothing new: `irecv`/`isend` would block and the poll sees no event. */
  datatype Peer = Peer(inbound: seq<RecvEvent>, outbound: seq<SendEvent>, polls: seq<PollEvent>)

  /** Every call on a descriptor that `socket()` failed to create reports an error. */
  const NoDescriptor := Peer([Failed], [SendFailed], [PollEvent(false, true)])

  /** The fields of an `IHTTPSOCK`, plus `peer` and `wire` (the bytes `isend` has taken). */
  datatype SockVal = SockVal(state: State, hasFd: bool, sendQ: seq<Byte>, recvQ: seq<Byte>,
                             blocksize: int, endless: bool, received: int, error: int,
                             peer: Peer, wire: seq<Byte>)

  /** The results of the bounded-window read: a byte count, `IHTTPSOCK_BLOCK_AGAIN`,
      `_DONE`, `_CLOSED`, and the `IHTTPSOCK_STATE_CLOSED` that the read returns when the
      underlying `recv` reports a closed socket. */
  datatype BlockResult = Count(n: nat) | Again | Done | BlockClosed | StateClosed

  /** The results of `ihttpsock_block_getch`. */
  datatype CharResult = Char(c: Byte) | CharAgain | CharClosed

  datatype RecvOut = RecvOut(sock: SockVal, rv: int, data: seq<Byte>)
  datatype GetsOut = GetsOut(sock: SockVal, res: BlockResult, text: seq<Byte>)
  datatype BlockOut = BlockOut(sock: SockVal, res: BlockResult, data: seq<Byte>)

  // ---------------------------------------------------------------------------------
  // The logical inbound stream

  /** The bytes the descriptor will still deliver before it reports end of stream or an error. */
  function Pending(evs: seq<RecvEvent>): seq<Byte>
  {
    if evs == [] then []
    else match evs[0]
      case Received(d) => if d == [] then [] else d + Pending(evs[1..])
      case WouldBlock => Pending(evs[1..])
      case Failed => []
  }

  /** Every byte a reader of this socket can still obtain, in order: the inbound queue and,
      unless the socket is closed, what the descriptor will deliver. */
  function Stream(s: SockVal): seq<Byte>
  {
    if s.state == Closed then s.recvQ else s.recvQ + Pending(s.peer.inbound)
  }

  // ---------------------------------------------------------------------------------
  // Connection set-up and tear-down

  /** `ihttpsock_close`: drops the descriptor; the queues are kept. */
  function CloseF(s: SockVal): SockVal
  {
    s.(state := Closed, hasFd := false)
  }

  /** `ihttpsock_connect`: clears both queues and the received count, leaves the window size
      alone, and starts a non-blocking connect (state Connecting) on a fresh descriptor whose
      behaviour is `peer`. When `socket()` fails it returns -2 and leaves `state` as it was. */
  function ConnectF(s: SockVal, socketOk: bool, peer: Peer): (r: (SockVal, int))
    ensures r.0.sendQ == [] && r.0.recvQ == [] && r.0.received == 0 && !r.0.endless
    ensures r.0.blocksize == s.blocksize
    ensures r.1 == 0 <==> socketOk
    ensures socketOk ==> r.0.state == Connecting && r.0.peer == peer && r.0.hasFd
    ensures !socketOk ==> r.1 == -2 && r.0.state == s.state && !r.0.hasFd
  {
    var s1 := s.(hasFd := false, endless := false, received := 0, sendQ := [], recvQ := []);
    if !socketOk then (s1.(peer := NoDescriptor), -2)
    else (s1.(hasFd := true, peer := peer, wire := [], state := Connecting), 0)
  }

  /** `ihttpsock_assign`: the same reset, adopting an already connected descriptor
      (state Connected); a negative descriptor returns -2 and leaves `state` as it was. */
  function AssignF(s: SockVal, fdOk: bool, peer: Peer): (r: (SockVal, int))
    ensures r.0.sendQ == [] && r.0.recvQ == [] && r.0.received == 0 && !r.0.endless
    ensures r.1 == 0 <==> fdOk
    ensures fdOk ==> r.0.state == Connected && r.0.recvQ == [] && r.0.peer == peer
    ensures !fdOk ==> r.1 == -2 && r.0.state == s.state && !r.0.hasFd
  {
    var s1 := s.(hasFd := false, endless := false, received := 0, sendQ := [], recvQ := []);
    if !fdOk then (s1.(peer := NoDescriptor), -2)
    else (s1.(hasFd := true, peer := peer, wire := [], state := Connected), 0)
  }

  /** `ihttpsock_try_connect`: while connecting, one zero-timeout poll; an error closes the
      socket, writability completes the connection. */
  function TryConnectF(s: SockVal): (r: SockVal)
    ensures s.state != Connecting ==> r == s
    ensures r.state == s.state || (s.state == Connecting && r.state != Connecting)
    ensures r.sendQ == s.sendQ && r.recvQ == s.recvQ && r.peer.inbound == s.peer.inbound
  {
    if s.state != Connecting || s.peer.polls == [] then s
    else
      var ev := s.peer.polls[0];
      var s1 := s.(peer := s.peer.(polls := s.peer.polls[1..]));
      if ev.error then CloseF(s1)
      else if ev.writable then s1.(state := Connected)
      else s1
  }

  // ---------------------------------------------------------------------------------
  // Sending

  /** `ihttpsock_send`: appends to the outbound queue, or, on a closed socket, empties the
      queue and fails with -1. */
  function SendF(s: SockVal, data: seq<Byte>): (r: (SockVal, int))
    ensures r.1 == -1 <==> s.state == Closed
    ensures r.1 == 0 ==> r.0.sendQ == s.sendQ + data
    ensures r.1 == -1 ==> r.0.sendQ == []
    ensures r.0.state == s.state && r.0.recvQ == s.recvQ && r.0.peer == s.peer
  {
    if s.state == Closed then (s.(sendQ := []), -1) else (s.(sendQ := s.sendQ + data), 0)
  }

  /** `ihttpsock_try_send`: while connected, hands the queue to `isend` until it is empty or
      a hard error closes the socket; a would-block drops nothing and tries again. Bytes leave
      the queue in order and appear on the wire in order. The loop also ends when the peer's
      script runs out, where the source would go on retrying. */
  function TrySendF(s: SockVal): (r: SockVal)
    ensures r.wire + r.sendQ == s.wire + s.sendQ
    ensures s.state == Connected ==> r.sendQ == [] || r.state == Closed || r.peer.outbound == []
    ensures r.state == s.state || r.state == Closed
    ensures r.recvQ == s.recvQ && r.blocksize == s.blocksize && r.endless == s.endless
    ensures r.peer.inbound == s.peer.inbound && r.received == s.received
    decreases |s.peer.outbound|
  {
    if s.state != Connected || s.sendQ == [] || s.peer.outbound == [] then s
    else
      var rest := s.peer.(outbound := s.peer.outbound[1..]);
      match s.peer.outbound[0]
      case Accepted(n) =>
        var k := Min(n, |s.sendQ|);
        assert s.wire + s.sendQ[..k] + s.sendQ[k..] == s.wire + s.sendQ;
        TrySendF(s.(sendQ := s.sendQ[k..], wire := s.wire + s.sendQ[..k], peer := rest))
      case SendWouldBlock => TrySendF(s.(peer := rest))
      case SendFailed => CloseF(s.(peer := rest)).(error := -1)
  }

  /** What leaves the inbound side alone and can only close the socket cannot lengthen the
      stream: closing drops what the descriptor had still to deliver. */
  lemma StreamNoGrow(s: SockVal, r: SockVal)
    requires r.recvQ == s.recvQ && r.peer.inbound == s.peer.inbound
    requires r.state != Closed ==> s.state != Closed
    ensures |Stream(r)| <= |Stream(s)|
  {
  }

  /** `ihttpsock_update`: a connecting socket polls for completion, a connected one drains
      its outbound queue, a closed one does nothing. */
  function UpdateF(s: SockVal): (r: SockVal)
    ensures r.wire + r.sendQ == s.wire + s.sendQ
    ensures r.recvQ == s.recvQ && r.peer.inbound == s.peer.inbound
    ensures r.state != Closed ==> s.state != Closed
    ensures r.blocksize == s.blocksize && r.endless == s.endless
  {
    match s.state
    case Closed => s
    case Connecting => TryConnectF(s)
    case Connected => TrySendF(s)
  }

  // ---------------------------------------------------------------------------------
  // Receiving

  /** What a read leaves alone: the outbound side, the window, and a state that can only
      fall to Closed. */
  predicate Keeps(s: SockVal, r: SockVal)
  {
    && r.sendQ == s.sendQ && r.wire == s.wire
    && r.blocksize == s.blocksize && r.endless == s.endless
    && (r.state == s.state || r.state == Closed)
  }

  /** `ihttpsock_try_recv`: while connected, one `irecv`; its bytes join the inbound queue,
      while end of stream and a hard error both close the socket and set `error` to -1. The
      stream a reader sees is unchanged by it. */
  function TryRecvF(s: SockVal): (r: SockVal)
    ensures |r.peer.inbound| <= |s.peer.inbound|
    ensures r.recvQ != s.recvQ ==> |r.peer.inbound| < |s.peer.inbound|
    ensures Keeps(s, r) && r.received == s.received
  {
    if s.state != Connected || s.peer.inbound == [] then s
    else
      var s1 := s.(peer := s.peer.(inbound := s.peer.inbound[1..]));
      match s.peer.inbound[0]
      case WouldBlock => s1
      case Failed => CloseF(s1).(error := -1)
      case Received(d) =>
        if d == [] then CloseF(s1.(error := -1))
        else
          s1.(recvQ := s.recvQ + d)
  }

  /** A receive moves bytes from the descriptor into the inbound queue and so leaves the
      stream as it was. */
  lemma TryRecvStream(s: SockVal)
    ensures Stream(TryRecvF(s)) == Stream(s)
  {
    if s.state == Connected && s.peer.inbound != [] && s.peer.inbound[0].Received? && s.peer.inbound[0].data != [] {
      var d := s.peer.inbound[0].data;
      AppendAssoc(s.recvQ, d, Pending(s.peer.inbound[1..]));
    }
  }

  /** End of stream and a hard error leave the socket in the same state, so nothing that
      reads the socket afterwards can tell them apart. */
  lemma EofLooksLikeError(s: SockVal, rest: seq<RecvEvent>)
    requires s.state == Connected
    ensures TryRecvF(s.(peer := s.peer.(inbound := [Received([])] + rest)))
         == TryRecvF(s.(peer := s.peer.(inbound := [Failed] + rest)))
    ensures TryRecvF(s.(peer := s.peer.(inbound := [Failed] + rest))).error == -1
    ensures TryRecvF(s.(peer := s.peer.(inbound := [Failed] + rest))).state == Closed
  {
    assert ([Received([])] + rest)[1..] == rest;
    assert ([Failed] + rest)[1..] == rest;
  }

  /** The loop of `ihttpsock_recv`: take what the queue holds (at most `remain` bytes),
      and while more is wanted, read once more and go on as long as that read brought data.
      The result is the socket afterwards and the bytes taken. */
  function RecvLoop(s: SockVal, remain: nat): (SockVal, seq<Byte>)
    decreases |s.peer.inbound|
  {
    var k := Min(|s.recvQ|, remain);
    if remain - k == 0 then (s.(recvQ := s.recvQ[k..]), s.recvQ[..k])
    else
      var s2 := RecvTurn(s, remain);
      if |s2.recvQ| == 0 then (s2, s.recvQ[..k])
      else
        var r := RecvLoop(s2, remain - k);
        (r.0, s.recvQ[..k] + r.1)
  }

  /** One more read of the loop, once it has taken the queue's `Min(|recvQ|, remain)` bytes;
      when that emptied the queue and the read refilled it, the read used up an event. */
  function RecvTurn(s: SockVal, remain: nat): (r: SockVal)
    ensures remain > |s.recvQ| && r.recvQ != [] ==> |r.peer.inbound| < |s.peer.inbound|
  {
    var s1 := s.(recvQ := s.recvQ[Min(|s.recvQ|, remain)..]);
    assert remain > |s.recvQ| ==> s1.recvQ == [];
    TryRecvF(s1)
  }

  /** One turn of the loop that goes on: what is still to come after the turn, appended
      to what the turn took, is what the whole loop takes. */
  lemma RecvLoopTurn(goal: (SockVal, seq<Byte>), s: SockVal, remain: nat, acc: seq<Byte>, s2: SockVal)
    requires goal == (RecvLoop(s, remain).0, acc + RecvLoop(s, remain).1)
    requires remain - Min(|s.recvQ|, remain) != 0
    requires s2 == RecvTurn(s, remain) && |s2.recvQ| != 0
    ensures var k := Min(|s.recvQ|, remain);
      goal == (RecvLoop(s2, remain - k).0, (acc + s.recvQ[..k]) + RecvLoop(s2, remain - k).1)
  {
    var k := Min(|s.recvQ|, remain);
    AppendAssoc(acc, s.recvQ[..k], RecvLoop(s2, remain - k).1);
  }

  /** The last turn of the loop: what it took completes what the whole loop takes. */
  lemma RecvLoopLast(goal: (SockVal, seq<Byte>), s: SockVal, remain: nat, acc: seq<Byte>, s2: SockVal)
    requires goal == (RecvLoop(s, remain).0, acc + RecvLoop(s, remain).1)
    requires if remain - Min(|s.recvQ|, remain) == 0 then s2 == s.(recvQ := s.recvQ[Min(|s.recvQ|, remain)..])
             else s2 == RecvTurn(s, remain) && |s2.recvQ| == 0
    ensures goal == (s2, acc + s.recvQ[..Min(|s.recvQ|, remain)])
  {
  }

  /** What a read of at most `remain` bytes did: the bytes taken, followed by what the
      socket still offers, are the stream it started from; a short read leaves the queue
      empty. */
  predicate Moved(s: SockVal, remain: nat, r: (SockVal, seq<Byte>))
  {
    && Stream(s) == r.1 + Stream(r.0)
    && |r.1| <= remain
    && (|r.1| < remain ==> r.0.recvQ == [])
  }

  /** Taking `k` bytes off the queue takes them off the stream. */
  lemma TakeFromQueue(s: SockVal, k: nat)
    requires k <= |s.recvQ|
    ensures Stream(s) == s.recvQ[..k] + Stream(s.(recvQ := s.recvQ[k..]))
  {
    var a := s.recvQ[..k];
    assert s.recvQ == a + s.recvQ[k..];
    if s.state != Closed {
      AppendAssoc(a, s.recvQ[k..], Pending(s.peer.inbound));
    }
  }

  lemma RecvLoopShort(s: SockVal, remain: nat)
    requires remain - Min(|s.recvQ|, remain) == 0 || |RecvTurn(s, remain).recvQ| == 0
    ensures Moved(s, remain, RecvLoop(s, remain))
  {
    var k := Min(|s.recvQ|, remain);
    TakeFromQueue(s, k);
  }

  lemma RecvLoopLong(s: SockVal, remain: nat)
    requires var s2 := RecvTurn(s, remain);
      remain - Min(|s.recvQ|, remain) != 0 && |s2.recvQ| != 0
      && Moved(s2, remain - Min(|s.recvQ|, remain), RecvLoop(s2, remain - Min(|s.recvQ|, remain)))
    ensures Moved(s, remain, RecvLoop(s, remain))
  {
    var k := Min(|s.recvQ|, remain);
    var s1 := s.(recvQ := s.recvQ[k..]);
    var s2 := RecvTurn(s, remain);
    var r := RecvLoop(s2, remain - k);
    var a := s.recvQ[..k];
    assert RecvLoop(s, remain) == (r.0, a + r.1);
    TakeFromQueue(s, k);
    TryRecvStream(s1);
    assert Stream(s) == (a + r.1) + Stream(r.0) by {
      assert Stream(s1) == r.1 + Stream(r.0);
      AppendAssoc(a, r.1, Stream(r.0));
    }
  }

  /** The bytes the loop takes are the next bytes of the stream, at most `remain` of them,
      and the stream loses exactly them; when it takes fewer the queue is left empty. */
  lemma {:induction false} RecvLoopMoves(s: SockVal, remain: nat)
    ensures Moved(s, remain, RecvLoop(s, remain))
    decreases |s.peer.inbound|
  {
    var k := Min(|s.recvQ|, remain);
    var s2 := RecvTurn(s, remain);
    if remain - k != 0 && |s2.recvQ| != 0 {
      RecvLoopMoves(s2, remain - k);
      RecvLoopLong(s, remain);
    } else {
      RecvLoopShort(s, remain);
    }
  }

  /** The loop leaves the outbound side, the window and the received count alone. */
  lemma {:induction false} RecvLoopKeeps(s: SockVal, remain: nat)
    ensures Keeps(s, RecvLoop(s, remain).0)
    ensures RecvLoop(s, remain).0.received == s.received
    decreases |s.peer.inbound|
  {
    var k := Min(|s.recvQ|, remain);
    if remain - k != 0 {
      var s2 := RecvTurn(s, remain);
      if |s2.recvQ| != 0 {
        RecvLoopKeeps(s2, remain - k);
      }
    }
  }

  /** `ihttpsock_recv`: 0 for a zero-size request; otherwise the bytes the loop took, with
      their count (added to `received`); with none taken, 0 while the socket is connecting
      or connected and -1 once it is closed. */
  function RecvF(s: SockVal, size: nat): RecvOut
  {
    if size == 0 then RecvOut(s, 0, []) else RecvResult(RecvLoop(s, size).0, RecvLoop(s, size).1)
  }

  /** The value `ihttpsock_recv` returns once its loop has taken `data`. */
  function RecvResult(s: SockVal, data: seq<Byte>): RecvOut
  {
    if |data| > 0 then RecvOut(s.(received := s.received + |data|), |data|, data)
    else if s.state == Connected || s.state == Connecting then RecvOut(s, 0, [])
    else RecvOut(s, -1, [])
  }

  /** The tri-state read: a positive count is the number of bytes delivered, which are the
      next bytes of the stream; 0 means nothing yet on an open socket; -1 means closed with
      nothing left to read. */
  lemma RecvDelivers(s: SockVal, size: nat)
    ensures var r := RecvF(s, size);
      && -1 <= r.rv <= size
      && (size == 0 ==> r.rv == 0 && r.sock == s)
      && (r.rv > 0 ==> |r.data| == r.rv && r.sock.received == s.received + r.rv)
      && (r.rv <= 0 ==> r.data == [] && r.sock.received == s.received)
      && (r.rv == 0 && size > 0 ==> r.sock.state != Closed)
      && (r.rv == -1 <==> size > 0 && r.data == [] && r.sock.state == Closed)
      && (r.rv == -1 ==> Stream(r.sock) == [])
      && Stream(s) == r.data + Stream(r.sock)
      && (0 <= r.rv < size ==> r.sock.recvQ == [])
      && Keeps(s, r.sock)
  {
    if size > 0 {
      RecvLoopMoves(s, size);
      RecvLoopKeeps(s, size);
    }
  }

  /** A request the inbound queue can already satisfy is met from the queue alone. */
  lemma RecvFromQueue(s: SockVal, size: nat)
    requires 0 < size <= |s.recvQ|
    ensures RecvF(s, size).rv == size && RecvF(s, size).data == s.recvQ[..size]
  {
  }

  /** `ihttpsock_block_getch`: one byte, or would-block, or closed. */
  function GetchF(s: SockVal): (SockVal, CharResult)
  {
    var o := RecvF(s, 1);
    RecvDelivers(s, 1);
    if o.rv == 1 then (o.sock, Char(o.data[0]))
    else if o.rv == 0 then (o.sock, CharAgain)
    else (o.sock, CharClosed)
  }

  /** A byte read is the head of the stream; would-block leaves the socket open, and closed
      means the stream is exhausted. */
  lemma GetchTakesHead(s: SockVal)
    ensures var g := GetchF(s);
      && (g.1.Char? ==> Stream(s) == [g.1.c] + Stream(g.0))
      && (!g.1.Char? ==> Stream(g.0) == Stream(s))
      && (g.1 == CharClosed ==> Stream(g.0) == [] && g.0.state == Closed)
      && (g.1 == CharAgain ==> g.0.state != Closed)
      && Keeps(s, g.0)
  {
    RecvDelivers(s, 1);
    var o := RecvF(s, 1);
    if o.rv == 1 {
      assert o.data == [o.data[0]];
    }
  }

  lemma GetchShrinks(s: SockVal)
    ensures GetchF(s).1.Char? ==> |Stream(GetchF(s).0)| < |Stream(s)|
  {
    GetchTakesHead(s);
  }

  /** `ihttpsock_block_gets`: reads bytes until a line feed (Done), a would-block (Again)
      or a close (BlockClosed); `text` of the result holds the bytes read, which the caller
      appends to its line buffer. */
  function GetsF(s: SockVal): GetsOut
    decreases |Stream(s)|
  {
    var g := GetchF(s);
    GetchTakesHead(s);
    match g.1
    case CharAgain => GetsOut(g.0, Again, [])
    case CharClosed => GetsOut(g.0, BlockClosed, [])
    case Char(ch) =>
      if ch == '\n' then GetsOut(g.0, Done, [ch])
      else
        var r := GetsF(g.0);
        r.(text := [ch] + r.text)
  }

  /** What one call of the line reader did: the bytes it read, followed by what the socket
      still offers, are the stream it started from; Done read exactly the stream's first
      line, anything else read bytes without a line feed, BlockClosed left nothing unread,
      and Again left the socket open. */
  predicate ReadLine(s: SockVal, r: GetsOut)
  {
    && (r.res == Again || r.res == Done || r.res == BlockClosed)
    && Stream(s) == r.text + Stream(r.sock)
    && (r.res == Done ==> r.text == LineOf(Stream(s)))
    && (r.res != Done ==> NoLF(r.text))
    && (r.res == BlockClosed ==> Stream(r.sock) == [] && r.sock.state == Closed)
    && (r.res == Again ==> r.sock.state != Closed)
    && Keeps(s, r.sock)
  }

  /** A byte other than a line feed in front of what a later call read. */
  lemma ConsLine(ch: Byte, t: seq<Byte>, rest: seq<Byte>, done: bool)
    requires ch != '\n'
    requires done ==> t == LineOf(rest)
    requires !done ==> NoLF(t)
    ensures done ==> [ch] + t == LineOf([ch] + rest)
    ensures !done ==> NoLF([ch] + t)
  {
    if done {
      LineOfAfter([ch], rest);
    } else {
      assert forall i :: 1 <= i < |[ch] + t| ==> ([ch] + t)[i] == t[i - 1];
    }
  }

  lemma GetsStep(s: SockVal)
    requires GetchF(s).1.Char? && GetchF(s).1.c != '\n'
    requires ReadLine(GetchF(s).0, GetsF(GetchF(s).0))
    ensures ReadLine(s, GetsF(s))
  {
    var g := GetchF(s);
    var r := GetsF(g.0);
    GetchTakesHead(s);
    assert GetsF(s) == r.(text := [g.1.c] + r.text);
    ConsRead(s, g.0, g.1.c, r);
  }

  /** A byte other than a line feed, read in front of what a later call read. */
  lemma ConsRead(s: SockVal, s1: SockVal, ch: Byte, r: GetsOut)
    requires ch != '\n'
    requires Stream(s) == [ch] + Stream(s1) && Keeps(s, s1)
    requires ReadLine(s1, r)
    ensures ReadLine(s, r.(text := [ch] + r.text))
  {
    var t := r.(text := [ch] + r.text);
    assert Stream(s) == t.text + Stream(t.sock) by {
      assert Stream(s) == [ch] + (r.text + Stream(r.sock));
    }
    assert (t.res == Done ==> t.text == LineOf(Stream(s))) && (t.res != Done ==> NoLF(t.text)) by {
      ConsLine(ch, r.text, Stream(s1), r.res == Done);
    }
    assert Keeps(s, t.sock);
  }

  /** The line reader reads the stream's first line, or a part of it without a line feed. */
  lemma {:induction false} GetsReadsLine(s: SockVal)
    ensures ReadLine(s, GetsF(s))
    decreases |Stream(s)|
  {
    GetchTakesHead(s);
    var g := GetchF(s);
    if g.1.Char? {
      if g.1.c == '\n' {
        assert LineOf(Stream(s)) == [g.1.c];
      } else {
        GetsReadsLine(g.0);
        GetsStep(s);
      }
    }
  }

  /** The line reader is resumable: after a would-block, the partial text plus the first
      line of what remains is the stream's first line, and a later call that completes the
      line yields exactly what is missing from it, however the bytes arrived. */
  lemma GetsResumes(s: SockVal)
    ensures var r := GetsF(s);
      r.res == Again ==> r.text + LineOf(Stream(r.sock)) == LineOf(Stream(s))
    ensures var r := GetsF(s);
      r.res == Again && GetsF(r.sock).res == Done ==>
        r.text + GetsF(r.sock).text == LineOf(Stream(s))
  {
    GetsReadsLine(s);
    var r := GetsF(s);
    if r.res == Again {
      LineOfAfter(r.text, Stream(r.sock));
      GetsReadsLine(r.sock);
    }
  }

  /** A line read to its end takes at least its line feed off the stream, and ends with it. */
  lemma {:induction false} GetsDoneShrinks(s: SockVal)
    ensures var r := GetsF(s);
      r.res == Done ==> |r.text| > 0 && r.text[|r.text| - 1] == '\n' && |Stream(r.sock)| < |Stream(s)|
    decreases |Stream(s)|
  {
    GetchTakesHead(s);
    var g := GetchF(s);
    if g.1.Char? {
      var ch := g.1.c;
      if ch == '\n' {
        assert GetsF(s) == GetsOut(g.0, Done, [ch]);
      } else {
        var r := GetsF(g.0);
        assert GetsF(s) == r.(text := [ch] + r.text);
        GetsDoneShrinks(g.0);
        if r.res == Done {
          assert ([ch] + r.text)[|r.text|] == r.text[|r.text| - 1];
        }
      }
    }
  }

  // ---------------------------------------------------------------------------------
  // The bounded-read window

  /** `ihttpsock_block_set`: arms the window; a negative size means no bound at all. */
  function BlockSetF(s: SockVal, size: int): (r: SockVal)
    ensures r.endless <==> size < 0
    ensures r.blocksize == size && r.state == s.state && r.recvQ == s.recvQ && r.peer == s.peer
  {
    s.(blocksize := size, endless := size < 0)
  }

  /** `ihttpsock_block_recv`. */
  function BlockRecvF(s: SockVal, size: nat): BlockOut
  {
    if s.blocksize == 0 && !s.endless then BlockOut(s.(blocksize := -1), Done, [])
    else if s.blocksize < 0 && !s.endless then
      BlockOut(s, if s.state != Closed then Done else BlockClosed, [])
    else if size == 0 then BlockOut(s, Again, [])
    else
      var want: nat := if size > s.blocksize && !s.endless then s.blocksize else size;
      var o := RecvF(s, want);
      if o.rv == 0 then BlockOut(o.sock, Again, [])
      else if o.rv < 0 then BlockOut(o.sock.(blocksize := -1), StateClosed, [])
      else if !s.endless then BlockOut(o.sock.(blocksize := o.sock.blocksize - o.rv), Count(o.rv), o.data)
      else BlockOut(o.sock, Count(o.rv), o.data)
  }

  /** The bytes the bounded read returns are the next bytes of the stream, as many as its
      count says, and at most as many as requested. */
  lemma BlockRecvTakes(s: SockVal, size: nat)
    ensures var r := BlockRecvF(s, size);
      && Stream(s) == r.data + Stream(r.sock)
      && (r.res.Count? ==> 1 <= r.res.n <= size && |r.data| == r.res.n)
      && (!r.res.Count? ==> r.data == [])
  {
    if (s.endless || s.blocksize > 0) && size > 0 {
      var want: nat := if size > s.blocksize && !s.endless then s.blocksize else size;
      RecvDelivers(s, want);
    }
  }

  /** A used-up window reports Done once and disarms itself; a disarmed one reports Done
      until the socket closes. Otherwise the request is capped to the window, which shrinks
      by exactly the count returned. */
  lemma BlockRecvWindow(s: SockVal, size: nat)
    ensures var r := BlockRecvF(s, size);
      && (!s.endless && s.blocksize == 0 ==> r.res == Done && r.sock == s.(blocksize := -1))
      && (!s.endless && s.blocksize < 0 ==>
            r.sock == s && r.res == (if s.state != Closed then Done else BlockClosed))
      && ((s.endless || s.blocksize > 0) && size == 0 ==> r.res == Again && r.sock == s)
      && (r.res.Count? && !s.endless ==>
            r.res.n <= s.blocksize && r.sock.blocksize == s.blocksize - r.res.n)
      && (r.res == StateClosed ==> r.sock.blocksize == -1 && r.sock.state == Closed)
      && (r.res == Again ==> r.sock.blocksize == s.blocksize)
      && r.sock.endless == s.endless && r.sock.sendQ == s.sendQ
      && (r.sock.state == s.state || r.sock.state == Closed)
  {
    if (s.endless || s.blocksize > 0) && size > 0 {
      var want: nat := if size > s.blocksize && !s.endless then s.blocksize else size;
      RecvDelivers(s, want);
    }
  }

  /** A window the stream can fill never reports a close: armed to `W` bytes with at least
      `W` still to come, the bounded read is Done exactly when the window is used up, and
      otherwise hands over the next bytes of the stream, at most `W` and at most as many as
      requested, or would block; the window shrinks by exactly what it handed over. */
  lemma BlockRecvLive(s: SockVal, size: nat)
    requires !s.endless && 0 <= s.blocksize <= |Stream(s)|
    ensures var r := BlockRecvF(s, size);
      && (r.res == Done <==> s.blocksize == 0)
      && (r.res == Done || r.res == Again || r.res.Count?)
      && (r.res != Done ==> r.sock.blocksize == s.blocksize - |r.data|)
      && Stream(s) == r.data + Stream(r.sock)
      && (r.res.Count? ==> 1 <= r.res.n <= size && r.res.n <= s.blocksize && |r.data| == r.res.n)
      && (!r.res.Count? ==> r.data == [])
      && r.sock.endless == s.endless && r.sock.sendQ == s.sendQ
  {
    BlockRecvTakes(s, size);
    BlockRecvWindow(s, size);
    if s.blocksize > 0 && size > 0 {
      var want: nat := if size > s.blocksize then s.blocksize else size;
      RecvDelivers(s, want);
    }
  }

  /** A run of bounded reads with the given request sizes, stopping at the first Done:
      the final socket, the bytes delivered, and whether Done was reached. */
  function ReadWindow(s: SockVal, sizes: seq<nat>): (SockVal, seq<Byte>, bool)
    decreases |sizes|
  {
    if sizes == [] then (s, [], false)
    else
      var o := BlockRecvF(s, sizes[0]);
      if o.res == Done then (o.sock, o.data, true)
      else
        var r := ReadWindow(o.sock, sizes[1..]);
        (r.0, o.data + r.1, r.2)
  }

  /** What a run of bounded reads on a window armed to `W` did: the bytes delivered,
      followed by what the socket still offers, are the stream it started from; at most `W`
      bytes were delivered, and exactly `W` if Done was reached. */
  predicate Delivered(s: SockVal, r: (SockVal, seq<Byte>, bool))
  {
    && Stream(s) == r.1 + Stream(r.0)
    && (s.blocksize >= 0 ==> |r.1| <= s.blocksize)
    && (r.2 ==> s.blocksize >= 0 && |r.1| == s.blocksize)
    && (s.blocksize < 0 ==> r.1 == [] && !r.2)
  }

  /** Two consecutive stretches of a run of bounded reads make one. */
  lemma CombineWindow(st0: seq<Byte>, d0: seq<Byte>, st1: seq<Byte>, d1: seq<Byte>,
                      st2: seq<Byte>, bs: int, bs1: int, done: bool)
    requires st0 == d0 + st1 && st1 == d1 + st2
    requires bs >= 0 ==> |d0| <= bs && (bs1 >= 0 ==> |d0| + bs1 == bs) && (bs1 < 0 ==> d0 == [])
    requires bs < 0 ==> d0 == [] && bs1 < 0
    requires bs1 >= 0 ==> |d1| <= bs1
    requires done ==> bs1 >= 0 && |d1| == bs1
    requires bs1 < 0 ==> d1 == [] && !done
    ensures st0 == (d0 + d1) + st2
    ensures bs >= 0 ==> |d0 + d1| <= bs
    ensures done ==> bs >= 0 && |d0 + d1| == bs
    ensures bs < 0 ==> d0 + d1 == [] && !done
  {
    assert d0 + (d1 + st2) == (d0 + d1) + st2;
  }

  lemma WindowStep(s: SockVal, sizes: seq<nat>)
    requires !s.endless && (s.blocksize >= 0 || s.state == Closed) && sizes != []
    requires BlockRecvF(s, sizes[0]).res != Done
    requires Delivered(BlockRecvF(s, sizes[0]).sock, ReadWindow(BlockRecvF(s, sizes[0]).sock, sizes[1..]))
    ensures Delivered(s, ReadWindow(s, sizes))
  {
    var o := BlockRecvF(s, sizes[0]);
    var r := ReadWindow(o.sock, sizes[1..]);
    assert ReadWindow(s, sizes) == (r.0, o.data + r.1, r.2);
    assert Stream(s) == o.data + Stream(o.sock) by {
      BlockRecvTakes(s, sizes[0]);
    }
    assert s.blocksize >= 0 ==>
      && |o.data| <= s.blocksize
      && (o.sock.blocksize >= 0 ==> |o.data| + o.sock.blocksize == s.blocksize)
      && (o.sock.blocksize < 0 ==> o.data == [])
    by {
      BlockRecvTakes(s, sizes[0]);
      BlockRecvWindow(s, sizes[0]);
    }
    assert s.blocksize < 0 ==> o.data == [] && o.sock.blocksize < 0 by {
      BlockRecvTakes(s, sizes[0]);
      BlockRecvWindow(s, sizes[0]);
    }
    CombineWindow(Stream(s), o.data, Stream(o.sock), r.1, Stream(r.0),
                  s.blocksize, o.sock.blocksize, r.2);
  }

  /** However the reads are sized and however the bytes arrive, a window armed to `W`
      delivers the next bytes of the stream, at most `W` of them, and reports Done only once
      it has delivered exactly `W`. */
  lemma {:induction false} WindowDeliversPrefix(s: SockVal, sizes: seq<nat>)
    requires !s.endless && (s.blocksize >= 0 || s.state == Closed)
    ensures Delivered(s, ReadWindow(s, sizes))
    decreases |sizes|
  {
    if sizes != [] {
      BlockRecvWindow(s, sizes[0]);
      var o := BlockRecvF(s, sizes[0]);
      if o.res != Done {
        WindowDeliversPrefix(o.sock, sizes[1..]);
        WindowStep(s, sizes);
      }
    }
  }

  // ---------------------------------------------------------------------------------
  // The object

  class HttpSock {
    var state: State
    var hasFd: bool
    var sendQ: seq<Byte>
    var recvQ: seq<Byte>
    var blocksize: int
    var endless: bool
    var received: int
    var error: int
    var peer: Peer
    var wire: seq<Byte>

    function Val(): SockVal
      reads this
    {
      SockVal(state, hasFd, sendQ, recvQ, blocksize, endless, received, error, peer, wire)
    }

    /** `ihttpsock_new`: closed, no descriptor, empty queues, a disarmed window. Like the
        source it leaves `received` and `error` unset. */
    constructor ()
      ensures state == Closed && !hasFd && sendQ == [] && recvQ == []
      ensures blocksize == -1 && !endless && wire == []
    {
      state := Closed;
      hasFd := false;
      sendQ := [];
      recvQ := [];
      blocksize := -1;
      endless := false;
      peer := Peer([], [], []);
      wire := [];
    }

    /** `ihttpsock_connect`. */
    method Connect(socketOk: bool, remote: Peer) returns (r: int)
      modifies this
      ensures (Val(), r) == ConnectF(old(Val()), socketOk, remote)
    {
      hasFd := false;
      endless := false;
      received := 0;
      sendQ := [];
      recvQ := [];
      if !socketOk {
        peer := NoDescriptor;
        return -2;
      }
      hasFd := true;
      peer := remote;
      wire := [];
      state := Connecting;
      return 0;
    }

    /** `ihttpsock_assign`. */
    method Assign(fdOk: bool, remote: Peer) returns (r: int)
      modifies this
      ensures (Val(), r) == AssignF(old(Val()), fdOk, remote)
    {
      hasFd := false;
      endless := false;
      received := 0;
      sendQ := [];
      recvQ := [];
      if !fdOk {
        peer := NoDescriptor;
        return -2;
      }
      hasFd := true;
      peer := remote;
      wire := [];
      state := Connected;
      return 0;
    }

    /** `ihttpsock_close`. */
    method Close()
      modifies this
      ensures Val() == CloseF(old(Val()))
    {
      hasFd := false;
      state := Closed;
    }

    /** `ihttpsock_try_connect`. */
    method TryConnect()
      modifies this
      ensures Val() == TryConnectF(old(Val()))
    {
      if state == Connecting && peer.polls != [] {
        var ev := peer.polls[0];
        peer := peer.(polls := peer.polls[1..]);
        if ev.error {
          Close();
        } else if ev.writable {
          state := Connected;
        }
      }
    }

    /** `ihttpsock_try_send`. */
    method TrySend()
      modifies this
      ensures Val() == TrySendF(old(Val()))
    {
      if state != Connected {
        return;
      }
      while true
        invariant state == Connected
        invariant TrySendF(Val()) == TrySendF(old(Val()))
        decreases |peer.outbound|
      {
        if |sendQ| == 0 || peer.outbound == [] {
          break;
        }
        var ev := peer.outbound[0];
        peer := peer.(outbound := peer.outbound[1..]);
        if ev.SendFailed? {
          Close();
          error := -1;
          break;
        }
        if ev.Accepted? {
          var sent := Min(ev.count, |sendQ|);
          wire := wire + sendQ[..sent];
          sendQ := sendQ[sent..];
        }
      }
    }

    /** `ihttpsock_try_recv`. */
    method TryRecv()
      modifies this
      ensures Val() == TryRecvF(old(Val()))
    {
      if state != Connected || peer.inbound == [] {
        return;
      }
      var ev := peer.inbound[0];
      peer := peer.(inbound := peer.inbound[1..]);
      match ev
      case WouldBlock =>
      case Failed =>
        Close();
        error := -1;
      case Received(d) =>
        if d == [] {
          error := -1;
          Close();
        } else {
          recvQ := recvQ + d;
        }
    }

    /** `ihttpsock_update`. */
    method Update()
      modifies this
      ensures Val() == UpdateF(old(Val()))
    {
      match state
      case Closed =>
      case Connecting => TryConnect();
      case Connected => TrySend();
    }

    /** `ihttpsock_dsize`: the bytes not yet sent. */
    function DSize(): nat
      reads this
    {
      |sendQ|
    }

    /** `ihttpsock_send`. */
    method Send(data: seq<Byte>) returns (r: int)
      modifies this
      ensures (Val(), r) == SendF(old(Val()), data)
    {
      if state == Closed {
        sendQ := [];
        return -1;
      }
      sendQ := sendQ + data;
      return 0;
    }

    /** `ihttpsock_recv`; `data` is what the call writes into the caller's buffer. */
    method Recv(size: nat) returns (r: int, data: seq<Byte>)
      modifies this
      ensures RecvOut(Val(), r, data) == RecvF(old(Val()), size)
    {
      if size == 0 {
        return 0, [];
      }
      data := TakeUpTo(size);
      ghost var result := RecvResult(Val(), data);
      assert RecvF(old(Val()), size) == result;
      if |data| > 0 {
        received := received + |data|;
        assert RecvOut(Val(), |data|, data) == result;
        return |data|, data;
      }
      if state == Connected || state == Connecting {
        assert RecvOut(Val(), 0, []) == result;
        return 0, [];
      }
      assert RecvOut(Val(), -1, []) == result;
      return -1, [];
    }

    /** The loop of `ihttpsock_recv`. */
    method TakeUpTo(size: nat) returns (data: seq<Byte>)
      requires size > 0
      modifies this
      ensures (Val(), data) == RecvLoop(old(Val()), size)
    {
      ghost var goal := RecvLoop(old(Val()), size);
      var remain: nat := size;
      data := [];
      assert data + RecvLoop(Val(), remain).1 == RecvLoop(Val(), remain).1;
      var stop := false;
      while !stop
        invariant !stop ==> remain > 0 && goal == (RecvLoop(Val(), remain).0, data + RecvLoop(Val(), remain).1)
        invariant stop ==> goal == (Val(), data)
        decreases |peer.inbound|, if stop then 0 else 1
      {
        ghost var v0, d0, rem0 := Val(), data, remain;
        var canread := |recvQ|;
        if canread > remain {
          canread := remain;
        }
        if canread > 0 {
          data := data + recvQ[..canread];
          recvQ := recvQ[canread..];
          remain := remain - canread;
        } else {
          assert recvQ[0..] == recvQ && data + recvQ[..0] == data;
        }
        assert Val() == v0.(recvQ := v0.recvQ[canread..]) && data == d0 + v0.recvQ[..canread];
        if remain == 0 {
          RecvLoopLast(goal, v0, rem0, d0, Val());
          stop := true;
        } else {
          TryRecv();
          assert Val() == RecvTurn(v0, rem0);
          if |recvQ| == 0 {
            RecvLoopLast(goal, v0, rem0, d0, Val());
            stop := true;
          } else {
            RecvLoopTurn(goal, v0, rem0, d0, Val());
          }
        }
      }
    }

    /** `ihttpsock_block_getch`. */
    method Getch() returns (c: CharResult)
      modifies this
      ensures (Val(), c) == GetchF(old(Val()))
    {
      var r, d := Recv(1);
      if r == 1 {
        return Char(d[0]);
      }
      if r == 0 {
        return CharAgain;
      }
      return CharClosed;
    }

    /** `ihttpsock_block_gets`: `text` is what the caller's line buffer holds, `out` what it
        holds afterwards. */
    method Gets(text: seq<Byte>) returns (res: BlockResult, out: seq<Byte>)
      modifies this
      ensures var g := GetsF(old(Val())); Val() == g.sock && res == g.res && out == text + g.text
    {
      out := text;
      ghost var got: seq<Byte> := [];
      while true
        invariant out == text + got
        invariant GetsF(old(Val())) == GetsF(Val()).(text := got + GetsF(Val()).text)
        decreases |Stream(Val())|
      {
        ghost var before := Val();
        var c := Getch();
        GetchShrinks(before);
        if c == CharAgain {
          assert got + [] == got;
          return Again, out;
        }
        if c == CharClosed {
          assert got + [] == got;
          break;
        }
        ghost var r := GetsF(Val());
        assert c.c != '\n' ==> GetsF(before) == r.(text := [c.c] + r.text);
        AppendAssoc(got, [c.c], r.text);
        out := out + [c.c];
        got := got + [c.c];
        if c.c == '\n' {
          return Done, out;
        }
      }
      return BlockClosed, out;
    }

    /** `ihttpsock_block_set`. */
    method BlockSet(size: int)
      modifies this
      ensures Val() == BlockSetF(old(Val()), size)
    {
      blocksize := size;
      endless := size < 0;
    }

    /** `ihttpsock_block_recv`. */
    method BlockRecv(size: nat) returns (res: BlockResult, data: seq<Byte>)
      modifies this
      ensures BlockOut(Val(), res, data) == BlockRecvF(old(Val()), size)
    {
      if blocksize == 0 && !endless {
        blocksize := -1;
        return Done, [];
      }
      if blocksize < 0 && !endless {
        if state != Closed {
          return Done, [];
        }
        return BlockClosed, [];
      }
      if size == 0 {
        return Again, [];
      }
      var want: nat := size;
      if want > blocksize && !endless {
        want := blocksize;
      }
      ghost var before := Val();
      var r;
      r, data := Recv(want);
      RecvDelivers(before, want);
      if r == 0 {
        return Again, [];
      }
      if r < 0 {
        blocksize := -1;
        return StateClosed, [];
      }
      if !endless {
        blocksize := blocksize - r;
      }
      return Count(r), data;
    }
  }
}

/** The URL façade `IURLD`: opens an `http://` address (directly or through an HTTP proxy)
    on a fresh `IHTTPLIB`, queues a GET or a POST, and then reads the response body with an
    optional wait budget, reporting the end of the body exactly once. */
module InetUrl {
  import opened Text
  import opened Http
  import UrlUtil
  import Sock
  import Engine

  /** The header line `ineturl_open` always puts in front of the caller's extra header text. */
  const CloseLine: seq<Byte> := "Connection: Close\r\n"

  /** The fields of an `IURLD`: the request target, the origin `host[:port]`, the proxy
      text (empty without one), the end-of-body latch, and the engine as a value. */
  datatype Handle = Handle(url: seq<Byte>, host: seq<Byte>, proxy: seq<Byte>, done: nat,
                           http: Engine.EngVal)

  /** The engine as `ihttplib_new` leaves it. */
  predicate Initial(e: Engine.EngVal)
  {
    && e.state == Engine.HttpStop && e.host == [] && e.sheader == [] && e.rheader == []
    && e.line == [] && e.head.rnext == PhaseWait && !e.head.chunked
    && e.sock.state == Sock.Closed && e.sock.sendQ == [] && e.sock.recvQ == []
    && e.sock.blocksize == -1 && !e.sock.endless
  }

  /** What a façade handle keeps true between calls: the engine's line-buffer discipline,
      and a latch that is 0, 1 or 2. */
  predicate Good(h: Handle)
  {
    Engine.LineInv(h.http) && h.done <= 2
  }

  // ---------------------------------------------------------------------------------
  // ineturl_open

  /** The request body handed to `ihttplib_request`: a missing `data` is the empty text. */
  function Body(data: Option<seq<Byte>>): seq<Byte>
  {
    if data.Some? then data.value else []
  }

  /** POST exactly when there is data and a size that is not negative. */
  function MethodOf(data: Option<seq<Byte>>, size: int): Method
  {
    if data.Some? && size >= 0 then Post else Get
  }

  /** The header text `ineturl_open` passes on: the close line, then the caller's text. */
  function HeaderOf(header: Option<seq<Byte>>): seq<Byte>
  {
    CloseLine + (if header.Some? then header.value else [])
  }

  /** `ineturl_open`, on the engine `e0` that `ihttplib_new` made: anything but the `http`
      protocol is refused; the engine connects to the proxy when there is one (then asking
      for the whole URL, with the origin as `Host`) or else to the URL's host (asking for its
      path); a failed open is refused; then the request is queued, whatever
      `ihttplib_request` answers, and the socket updated. `resolve` and `socketOk` stand for
      the address parser and the socket call; `peer` is the remote side's script. */
  function OpenF(e0: Engine.EngVal, url: seq<Byte>, data: Option<seq<Byte>>, size: int,
                 header: Option<seq<Byte>>, proxy: Option<seq<Byte>>,
                 resolve: seq<Byte> -> bool, socketOk: bool, peer: Sock.Peer): Option<Handle>
    requires data.Some? && size >= 0 ==> size <= |data.value|
  {
    var p := UrlUtil.Split(url);
    if p.protocol != "http" then None
    else
      var o := Engine.OpenF(e0, if proxy.Some? then proxy.value else p.host, resolve, socketOk, peer);
      if o.1 != 0 then None
      else
        var e1 := if proxy.Some? then o.0.(host := p.host) else o.0;
        var target := if proxy.Some? then url else p.path;
        var e2 := Engine.RequestF(e1, MethodOf(data, size), target, Body(data), size, HeaderOf(header)).0;
        Some(Handle(target, p.host, if proxy.Some? then proxy.value else [], 0, Engine.UpdateF(e2, 0).0))
  }

  /** `ineturl_open` returns no handle exactly when the protocol is not `http`, the name it
      connects to (the proxy, or else the URL's host) is not an address, or the socket cannot
      be made. A handle starts with the latch at 0, keeps the URL's host, asks for the whole
      URL through a proxy and for the path otherwise, sends the origin as `Host` through a
      proxy and the split host's `Host` text otherwise, and is connecting and waiting for a
      response. */
  lemma OpenOutcome(e0: Engine.EngVal, url: seq<Byte>, data: Option<seq<Byte>>, size: int,
                    header: Option<seq<Byte>>, proxy: Option<seq<Byte>>,
                    resolve: seq<Byte> -> bool, socketOk: bool, peer: Sock.Peer)
    requires data.Some? && size >= 0 ==> size <= |data.value|
    ensures var o := OpenF(e0, url, data, size, header, proxy, resolve, socketOk, peer);
      var p := UrlUtil.Split(url);
      var connect := if proxy.Some? then proxy.value else p.host;
      && (o.None? <==> p.protocol != "http" || !resolve(HostSplit(connect).name) || !socketOk)
      && (o.Some? ==>
            && o.value.done == 0 && o.value.host == p.host
            && o.value.url == (if proxy.Some? then url else p.path)
            && o.value.proxy == (if proxy.Some? then proxy.value else [])
            && o.value.http.host == (if proxy.Some? then p.host else HostSplit(p.host).hostHeader)
            && o.value.http.state == Engine.HttpConnecting
            && o.value.http.head.rnext == PhaseWait)
  {
    var p := UrlUtil.Split(url);
    if p.protocol == "http" {
      var connect := if proxy.Some? then proxy.value else p.host;
      Engine.OpenConnects(e0, connect, resolve, socketOk, peer);
      var o := Engine.OpenF(e0, connect, resolve, socketOk, peer);
      if o.1 == 0 {
        var e1 := if proxy.Some? then o.0.(host := p.host) else o.0;
        var target := if proxy.Some? then url else p.path;
        Engine.RequestQueues(e1, MethodOf(data, size), target, Body(data), size, HeaderOf(header));
        var e2 := Engine.RequestF(e1, MethodOf(data, size), target, Body(data), size, HeaderOf(header)).0;
        Engine.UpdatePolls(e2, 0);
      }
    }
  }

  /** What a new handle has sent or queued is exactly one request: the GET or POST line for
      its target, `Host`, the fixed lines, the extra header text (the close line and the
      caller's text, stripped), the blank line and the POST body. The one exception is a GET
      given a positive size without data, which `ihttplib_request` refuses; the refusal is
      ignored, and the handle is returned with nothing to send. */
  lemma OpenSends(e0: Engine.EngVal, url: seq<Byte>, data: Option<seq<Byte>>, size: int,
                  header: Option<seq<Byte>>, proxy: Option<seq<Byte>>,
                  resolve: seq<Byte> -> bool, socketOk: bool, peer: Sock.Peer)
    requires data.Some? && size >= 0 ==> size <= |data.value|
    ensures var o := OpenF(e0, url, data, size, header, proxy, resolve, socketOk, peer);
      o.Some? ==>
        var h := o.value;
        var m := MethodOf(data, size);
        var extra := Strip(HeaderOf(header), Delim);
        && (m == Get && size > 0 ==> h.http.sock.wire + h.http.sock.sendQ == [])
        && (!(m == Get && size > 0) ==>
              && h.http.sheader == Lines(RequestLines(m, h.url, h.http.host, extra, size))
              && h.http.sock.wire + h.http.sock.sendQ
                   == RequestBytes(m, h.url, h.http.host, extra, Body(data), size))
  {
    var p := UrlUtil.Split(url);
    if p.protocol == "http" {
      var connect := if proxy.Some? then proxy.value else p.host;
      Engine.OpenConnects(e0, connect, resolve, socketOk, peer);
      var o := Engine.OpenF(e0, connect, resolve, socketOk, peer);
      if o.1 == 0 {
        assert o.0.sock.wire == [] && o.0.sock.sendQ == [];
        var e1 := if proxy.Some? then o.0.(host := p.host) else o.0;
        var target := if proxy.Some? then url else p.path;
        var m := MethodOf(data, size);
        Engine.RequestQueues(e1, m, target, Body(data), size, HeaderOf(header));
        var e2 := Engine.RequestF(e1, m, target, Body(data), size, HeaderOf(header)).0;
        Engine.UpdatePolls(e2, 0);
        assert e1.sock.wire + e1.sock.sendQ == [];
      }
    }
  }

  /** The extra header text of every request the façade makes starts with
      `Connection: Close`: the close line survives the stripping of the header text. */
  lemma CloseLineKept(header: Option<seq<Byte>>)
    ensures var extra := Strip(HeaderOf(header), Delim);
      |extra| >= 17 && extra[..17] == "Connection: Close"
  {
    var s := HeaderOf(header);
    assert s[0] == 'C' && s[16] == 'e';
    assert TrimLeft(s, Delim) == s;
    TrimRightSpec(s, Delim);
    var r := TrimRight(s, Delim);
    assert |r| > 16;
    assert r[..17] == s[..17] == CloseLine[..17];
  }

  /** `OpenF` once the protocol is accepted and the open succeeded: `e1` is the engine
      after the open (with the origin as `Host` through a proxy) and `target` what is asked
      for. */
  lemma OpenIs(e0: Engine.EngVal, url: seq<Byte>, data: Option<seq<Byte>>, size: int,
               header: Option<seq<Byte>>, proxy: Option<seq<Byte>>,
               resolve: seq<Byte> -> bool, socketOk: bool, peer: Sock.Peer,
               target: seq<Byte>, e1: Engine.EngVal)
    requires data.Some? && size >= 0 ==> size <= |data.value|
    requires UrlUtil.Split(url).protocol == "http"
    requires var o := Engine.OpenF(e0, if proxy.Some? then proxy.value else UrlUtil.Split(url).host,
                                   resolve, socketOk, peer);
      && o.1 == 0
      && e1 == (if proxy.Some? then o.0.(host := UrlUtil.Split(url).host) else o.0)
    requires target == if proxy.Some? then url else UrlUtil.Split(url).path
    ensures OpenF(e0, url, data, size, header, proxy, resolve, socketOk, peer)
         == Some(Handle(target, UrlUtil.Split(url).host, if proxy.Some? then proxy.value else [], 0,
                        Engine.UpdateF(Engine.RequestF(e1, MethodOf(data, size), target, Body(data), size,
                                                       HeaderOf(header)).0, 0).0))
  {
  }

  /** A handle made on a new engine keeps the engine's line discipline and a valid latch. */
  lemma OpenGood(e0: Engine.EngVal, url: seq<Byte>, data: Option<seq<Byte>>, size: int,
                 header: Option<seq<Byte>>, proxy: Option<seq<Byte>>,
                 resolve: seq<Byte> -> bool, socketOk: bool, peer: Sock.Peer)
    requires data.Some? && size >= 0 ==> size <= |data.value|
    requires Initial(e0)
    ensures var o := OpenF(e0, url, data, size, header, proxy, resolve, socketOk, peer);
      o.Some? ==> Good(o.value) && o.value.http.line == []
  {
    var p := UrlUtil.Split(url);
    if p.protocol == "http" {
      var connect := if proxy.Some? then proxy.value else p.host;
      var o := Engine.OpenF(e0, connect, resolve, socketOk, peer);
      if o.1 == 0 {
        var e1 := if proxy.Some? then o.0.(host := p.host) else o.0;
        var target := if proxy.Some? then url else p.path;
        Engine.RequestQueues(e1, MethodOf(data, size), target, Body(data), size, HeaderOf(header));
      }
    }
  }

  // ---------------------------------------------------------------------------------
  // ineturl_read

  /** An `IUINT32` clock reading. */
  type U32 = n: nat | n < 0x1_0000_0000

  /** The `(IINT32)` cast of a 32-bit difference. */
  function AsInt32(t: U32): (r: int)
    ensures -0x8000_0000 <= r < 0x8000_0000
    ensures r % 0x1_0000_0000 == t
  {
    if t < 0x8000_0000 then t else t - 0x1_0000_0000
  }

  /** The clock around one wait: `ticks` holds the successive `t2 - t1` differences, modulo
      2^32, of the `iclock` readings taken around each `ihttplib_update`; the elapsed time is
      their signed value, capped at the budget. An exhausted clock counts the whole budget
      as spent. */
  function Elapsed(ticks: seq<U32>, waitms: int): (delta: int)
    ensures delta <= waitms
    ensures ticks == [] ==> delta == waitms
  {
    if ticks == [] then waitms else Min(AsInt32(ticks[0]), waitms)
  }

  function Rest(ticks: seq<U32>): seq<U32>
  {
    if ticks == [] then [] else ticks[1..]
  }

  /** Where the read loop of `ineturl_read` stops: the engine, the code it stopped on, the
      bytes read in all, whether a DONE came after some bytes, and the wait budget left. */
  datatype Loop = Loop(eng: Engine.EngVal, code: Engine.RecvCode, data: seq<Byte>, doneHit: bool,
                       waitms: int)

  /** What one `ihttplib_recv` of the loop hands back, as `Engine.RecvReads` proves it: the
      engine keeps its line discipline, a count is between 1 and `size` and matches the
      bytes, other codes bring no bytes, and DONE leaves the engine waiting. */
  predicate Step(eng: Engine.EngVal, code: Engine.RecvCode, got: seq<Byte>, size: nat)
  {
    && Engine.LineInv(eng)
    && (code.Got? ==> 1 <= code.n <= size && |got| == code.n)
    && (!code.Got? ==> got == [])
    && (code == Engine.RecvDone ==> eng.head.rnext == PhaseWait)
  }

  lemma RecvStep(e: Engine.EngVal, size: nat)
    requires Engine.LineInv(e)
    ensures var r := Engine.RecvF(e, size); Step(r.eng, r.code, r.data, size)
  {
    Engine.RecvReads(e, size);
  }

  /** The read loop of `ineturl_read`, with `data` read so far and `size` still wanted: a
      full buffer stops with the count; otherwise the loop takes a turn. */
  function ReadLoop(e: Engine.EngVal, size: nat, waitms: int, ticks: seq<U32>, data: seq<Byte>): Loop
    requires Engine.LineInv(e)
    decreases size, |ticks|, if waitms > 0 then 1 else 0, 2
  {
    if size == 0 then Loop(e, Engine.Got(|data|), data, false, waitms)
    else Turn(e, size, waitms, ticks, data)
  }

  /** A turn of the loop: the engine is read for at most `size` bytes, and `LoopAfter` goes
      on from what it returned. */
  function Turn(e: Engine.EngVal, size: nat, waitms: int, ticks: seq<U32>, data: seq<Byte>): Loop
    requires Engine.LineInv(e) && size > 0
    decreases size, |ticks|, if waitms > 0 then 1 else 0, 1
  {
    RecvStep(e, size);
    var r := Engine.RecvF(e, size);
    LoopAfter(r.eng, r.code, r.data, size, waitms, ticks, data)
  }

  /** One turn of the loop after `ihttplib_recv` returned `code` with the bytes `got`: bytes
      are added and the loop goes on; AGAIN waits on the engine while budget is left, paying
      the elapsed time, and stops otherwise; DONE stops, noting whether bytes came before
      it; any other code stops. */
  function LoopAfter(eng: Engine.EngVal, code: Engine.RecvCode, got: seq<Byte>, size: nat,
                     waitms: int, ticks: seq<U32>, data: seq<Byte>): Loop
    requires size > 0 && Step(eng, code, got, size)
    decreases size, |ticks|, if waitms > 0 then 1 else 0, 0
  {
    match code
    case Got(n) => ReadLoop(eng, size - n, waitms, ticks, data + got)
    case RecvAgain =>
      if waitms > 0 then
        ReadLoop(Engine.UpdateF(eng, waitms).0, size, waitms - Elapsed(ticks, waitms), Rest(ticks), data)
      else Loop(eng, Engine.RecvAgain, data, false, waitms)
    case RecvDone => Loop(eng, Engine.RecvDone, data, |data| > 0, waitms)
    case _ => Loop(eng, code, data, false, waitms)
  }

  /** The turns of the loop that go on: a count, and AGAIN with budget left. */
  lemma LoopAfterGot(eng: Engine.EngVal, n: nat, got: seq<Byte>, size: nat, waitms: int,
                     ticks: seq<U32>, data: seq<Byte>)
    requires size > 0 && Step(eng, Engine.Got(n), got, size)
    ensures LoopAfter(eng, Engine.Got(n), got, size, waitms, ticks, data)
         == ReadLoop(eng, size - n, waitms, ticks, data + got)
  {
  }

  lemma LoopAfterWait(eng: Engine.EngVal, got: seq<Byte>, size: nat, waitms: int,
                      ticks: seq<U32>, data: seq<Byte>)
    requires size > 0 && waitms > 0 && Step(eng, Engine.RecvAgain, got, size)
    ensures LoopAfter(eng, Engine.RecvAgain, got, size, waitms, ticks, data)
         == ReadLoop(Engine.UpdateF(eng, waitms).0, size, waitms - Elapsed(ticks, waitms), Rest(ticks), data)
  {
  }

  /** The turns of the loop that stop: every code but a count, and AGAIN with no budget. */
  lemma LoopAfterStop(eng: Engine.EngVal, code: Engine.RecvCode, got: seq<Byte>, size: nat, waitms: int,
                      ticks: seq<U32>, data: seq<Byte>)
    requires size > 0 && Step(eng, code, got, size) && !code.Got? && !(code == Engine.RecvAgain && waitms > 0)
    ensures LoopAfter(eng, code, got, size, waitms, ticks, data)
         == Loop(eng, code, data, code == Engine.RecvDone && |data| > 0, waitms)
  {
  }

  /** Reading the engine once and going on from its reply is the loop. */
  lemma LoopUnfold(e: Engine.EngVal, size: nat, waitms: int, ticks: seq<U32>, data: seq<Byte>)
    requires Engine.LineInv(e) && size > 0
    ensures var r := Engine.RecvF(e, size);
      && Step(r.eng, r.code, r.data, size)
      && ReadLoop(e, size, waitms, ticks, data) == LoopAfter(r.eng, r.code, r.data, size, waitms, ticks, data)
  {
    RecvStep(e, size);
    assert ReadLoop(e, size, waitms, ticks, data) == Turn(e, size, waitms, ticks, data);
  }

  /** A read: the handle after it, what `ineturl_read` returns, and the bytes it wrote. */
  datatype ReadOut = ReadOut(h: Handle, ret: Engine.RecvCode, data: seq<Byte>)

  /** `ineturl_read`: queued bytes are pushed on; a latched end of body is reported as DONE
      once (the latch moves to 2); otherwise the read loop runs, and any bytes read are
      returned as a count in place of the code it stopped on, a DONE after bytes setting the
      latch. */
  function ReadF(h: Handle, size: nat, waitms: int, ticks: seq<U32>): ReadOut
    requires Engine.LineInv(h.http)
  {
    var e0 := if |h.http.sock.sendQ| > 0 then Engine.UpdateF(h.http, 0).0 else h.http;
    if h.done == 1 then ReadOut(h.(done := 2, http := e0), Engine.RecvDone, [])
    else
      var l := ReadLoop(e0, size, waitms, ticks, []);
      ReadOut(h.(done := if l.doneHit then 1 else h.done, http := l.eng),
              if |l.data| > 0 then Engine.Got(|l.data|) else l.code, l.data)
  }

  /** Where the loop, started with `data` read, `size` wanted and a budget of `waitms`, may
      stop: with the engine's line discipline; having added at most `size` bytes to `data`,
      and exactly `size` when it stops with a count, which is the number of bytes read in
      all; with `doneHit` exactly when DONE came after bytes; on DONE with the engine waiting
      for a response; on AGAIN only with no budget left; and with a positive budget never
      overspent and a spent one untouched. */
  predicate Bounded(l: Loop, size: nat, waitms: int, data: seq<Byte>)
  {
    && Engine.LineInv(l.eng)
    && data <= l.data && |l.data| <= |data| + size
    && (l.code.Got? ==> l.code.n == |l.data| == |data| + size)
    && (l.doneHit <==> l.code == Engine.RecvDone && |l.data| > 0)
    && (l.code == Engine.RecvDone ==> l.eng.head.rnext == PhaseWait)
    && (l.code == Engine.RecvAgain ==> l.waitms <= 0)
    && (waitms > 0 ==> l.waitms >= 0)
    && (waitms <= 0 ==> l.waitms == waitms)
  }

  /** The read loop stops only where `Bounded` allows. */
  lemma {:induction false} ReadLoopBounds(e: Engine.EngVal, size: nat, waitms: int, ticks: seq<U32>,
                                          data: seq<Byte>)
    requires Engine.LineInv(e)
    ensures Bounded(ReadLoop(e, size, waitms, ticks, data), size, waitms, data)
    decreases size, |ticks|, if waitms > 0 then 1 else 0, 1
  {
    if size > 0 {
      LoopUnfold(e, size, waitms, ticks, data);
      var r := Engine.RecvF(e, size);
      LoopAfterBounds(r.eng, r.code, r.data, size, waitms, ticks, data);
    }
  }

  lemma {:induction false} LoopAfterBounds(eng: Engine.EngVal, code: Engine.RecvCode, got: seq<Byte>,
                                           size: nat, waitms: int, ticks: seq<U32>, data: seq<Byte>)
    requires size > 0 && Step(eng, code, got, size)
    ensures Bounded(LoopAfter(eng, code, got, size, waitms, ticks, data), size, waitms, data)
    decreases size, |ticks|, if waitms > 0 then 1 else 0, 0
  {
    match code
    case Got(n) =>
      ReadLoopBounds(eng, size - n, waitms, ticks, data + got);
      var l := ReadLoop(eng, size - n, waitms, ticks, data + got);
      assert data <= data + got <= l.data;
    case RecvAgain =>
      if waitms > 0 {
        ReadLoopBounds(Engine.UpdateF(eng, waitms).0, size, waitms - Elapsed(ticks, waitms), Rest(ticks), data);
      }
    case RecvDone =>
    case _ =>
  }

  /** `ineturl_read` returns a count exactly when it read bytes or was asked for none, never
      more than `size` bytes, and never a zero count for a positive size; it keeps the
      handle's discipline and its texts; a code other than a count comes with no bytes. */
  lemma ReadBounds(h: Handle, size: nat, waitms: int, ticks: seq<U32>)
    requires Good(h)
    ensures var r := ReadF(h, size, waitms, ticks);
      && Good(r.h)
      && |r.data| <= size
      && (r.ret.Got? ==> r.ret.n == |r.data| && (r.ret.n == 0 ==> size == 0))
      && (r.data != [] ==> r.ret == Engine.Got(|r.data|))
      && (size == 0 && h.done != 1 ==> r.ret == Engine.Got(0))
      && (r.h.url, r.h.host, r.h.proxy) == (h.url, h.host, h.proxy)
  {
    var e0 := if |h.http.sock.sendQ| > 0 then Engine.UpdateF(h.http, 0).0 else h.http;
    assert Engine.LineInv(e0);
    ReadLoopBounds(e0, size, waitms, ticks, []);
  }

  /** A read gives up on AGAIN only once its budget is spent: the budget left after the
      loop is 0 when it started positive. */
  lemma ReadAgainSpent(h: Handle, size: nat, waitms: int, ticks: seq<U32>)
    requires Good(h) && h.done != 1 && waitms > 0
    ensures var e0 := if |h.http.sock.sendQ| > 0 then Engine.UpdateF(h.http, 0).0 else h.http;
      var l := ReadLoop(e0, size, waitms, ticks, []);
      && ReadF(h, size, waitms, ticks).ret == Engine.RecvAgain ==> l.waitms == 0
  {
    var e0 := if |h.http.sock.sendQ| > 0 then Engine.UpdateF(h.http, 0).0 else h.http;
    assert Engine.LineInv(e0);
    ReadLoopBounds(e0, size, waitms, ticks, []);
  }

  /** The end of the body is reported exactly once: a latched handle returns DONE with no
      bytes and moves the latch to 2 (so the next read reads again); a read that sets the
      latch returned bytes, and left the engine waiting for the next response, so the read
      after it reports DONE; a DONE with no bytes leaves the latch alone. */
  lemma ReadLatch(h: Handle, size: nat, waitms: int, ticks: seq<U32>)
    requires Good(h)
    ensures var r := ReadF(h, size, waitms, ticks);
      && (h.done == 1 ==> r.ret == Engine.RecvDone && r.data == [] && r.h.done == 2)
      && (h.done != 1 && r.h.done == 1 ==>
            && r.data != [] && r.ret == Engine.Got(|r.data|)
            && r.h.http.head.rnext == PhaseWait && Good(r.h))
      && (h.done != 1 && r.ret == Engine.RecvDone ==> r.data == [] && r.h.done == h.done)
  {
    var e0 := if |h.http.sock.sendQ| > 0 then Engine.UpdateF(h.http, 0).0 else h.http;
    assert Engine.LineInv(e0);
    ReadLoopBounds(e0, size, waitms, ticks, []);
  }

  // ---------------------------------------------------------------------------------
  // ineturl_write and ineturl_flush

  /** `ineturl_write`: with data, queues it and updates the socket; the result is what is
      still queued. */
  function WriteF(h: Handle, data: Option<seq<Byte>>): (Handle, nat)
  {
    var e := if data.Some? then Engine.UpdateF(Engine.SendF(h.http, data.value).0, 0).0 else h.http;
    (h.(http := e), |e.sock.sendQ|)
  }

  /** A write without data changes nothing. With data on an open socket, the bytes sent and
      still queued grow by exactly the data, in order; only the socket changes, and the
      result is the queue that is left. */
  lemma WriteQueues(h: Handle, data: Option<seq<Byte>>)
    ensures var r := WriteF(h, data);
      && r.1 == |r.0.http.sock.sendQ|
      && (data.None? ==> r.0 == h)
      && r.0 == h.(http := h.http.(sock := r.0.http.sock))
      && (data.Some? && h.http.sock.state != Sock.Closed ==>
            r.0.http.sock.wire + r.0.http.sock.sendQ
              == h.http.sock.wire + h.http.sock.sendQ + data.value)
  {
    if data.Some? {
      var e1 := Engine.SendF(h.http, data.value).0;
      Engine.UpdatePolls(e1, 0);
      if h.http.sock.state != Sock.Closed {
        AppendAssoc(h.http.sock.wire, h.http.sock.sendQ, data.value);
      }
    }
  }

  /** `ineturl_flush`. */
  function FlushF(h: Handle): Handle
  {
    h.(http := Engine.UpdateF(h.http, 0).0)
  }

  /** A flush only moves queued bytes onto the wire, in order, and keeps the handle's
      discipline. */
  lemma FlushMoves(h: Handle)
    requires Good(h)
    ensures var r := FlushF(h);
      && r.http.sock.wire + r.http.sock.sendQ == h.http.sock.wire + h.http.sock.sendQ
      && r == h.(http := h.http.(sock := r.http.sock))
      && Good(r)
  {
    Engine.UpdatePolls(h.http, 0);
  }

  // ---------------------------------------------------------------------------------
  // The object

  /** An `IURLD`: its texts and latch, updated in place, and its engine. */
  class UrlHandle {
    var url: seq<Byte>
    var host: seq<Byte>
    var proxy: seq<Byte>
    var done: nat
    const http: Engine.HttpLib

    function Val(): Handle
      reads this, http, http.sock
    {
      Handle(url, host, proxy, done, http.Val())
    }

    predicate Valid()
      reads this, http, http.sock
    {
      Good(Val())
    }

    /** The handle `ineturl_open` builds around its engine: its texts, and the latch at 0. */
    constructor (lib: Engine.HttpLib, url: seq<Byte>, host: seq<Byte>, proxy: seq<Byte>)
      ensures this.http == lib && this.url == url && this.host == host && this.proxy == proxy
      ensures done == 0
    {
      this.url := url;
      this.host := host;
      this.proxy := proxy;
      done := 0;
      http := lib;
    }

    /** `ineturl_read`. */
    method Read(size: nat, waitms: int, ticks: seq<U32>) returns (ret: Engine.RecvCode, data: seq<Byte>)
      requires Valid()
      modifies this, http, http.sock
      ensures var r := ReadF(old(Val()), size, waitms, ticks); Val() == r.h && ret == r.ret && data == r.data
      ensures Valid()
    {
      if http.DSize() > 0 {
        var _, _ := http.Update(0);
      }
      if done == 1 {
        done := 2;
        return Engine.RecvDone, [];
      }
      var hit;
      ret, data, hit := Collect(size, waitms, ticks);
      if hit {
        done := 1;
      }
      if |data| > 0 {
        ret := Engine.Got(|data|);
      }
    }

    /** The loop of `ineturl_read`: reads until `size` bytes came, the engine has nothing
        more within the wait budget, or the response ends or fails; `hit` says a DONE came
        after bytes. */
    method Collect(size: nat, waitms: int, ticks: seq<U32>) returns (ret: Engine.RecvCode, data: seq<Byte>, hit: bool)
      requires Engine.LineInv(http.Val())
      modifies http, http.sock
      ensures Engine.LineInv(http.Val())
      ensures var l := ReadLoop(old(http.Val()), size, waitms, ticks, []);
        http.Val() == l.eng && ret == l.code && data == l.data && hit == l.doneHit
    {
      ghost var goal := ReadLoop(http.Val(), size, waitms, ticks, []);
      var remain, wait, clock := size, waitms, ticks;
      data, ret, hit := [], Engine.Got(0), false;
      var stop := false;
      while !stop
        invariant Engine.LineInv(http.Val())
        invariant !stop ==> !hit && goal == ReadLoop(http.Val(), remain, wait, clock, data)
        invariant stop ==> goal == Loop(http.Val(), ret, data, hit, wait)
        decreases remain, |clock|, (if wait > 0 then 1 else 0), (if stop then 0 else 1)
      {
        if remain == 0 {
          ret, stop := Engine.Got(|data|), true;
        } else {
          var code, d := Pull(remain, wait, clock, data);
          ghost var v := http.Val();
          match code {
            case Got(n) =>
              LoopAfterGot(v, n, d, remain, wait, clock, data);
              data := data + d;
              remain := remain - n;
              assert goal == ReadLoop(http.Val(), remain, wait, clock, data);
            case RecvAgain =>
              if wait > 0 {
                LoopAfterWait(v, d, remain, wait, clock, data);
                var _, _ := http.Update(wait);
                var delta := Elapsed(clock, wait);
                wait := wait - delta;
                clock := Rest(clock);
                assert goal == ReadLoop(http.Val(), remain, wait, clock, data);
              } else {
                LoopAfterStop(v, code, d, remain, wait, clock, data);
                ret, stop := Engine.RecvAgain, true;
              }
            case RecvDone =>
              LoopAfterStop(v, code, d, remain, wait, clock, data);
              ret, hit, stop := Engine.RecvDone, |data| > 0, true;
            case _ =>
              LoopAfterStop(v, code, d, remain, wait, clock, data);
              ret, stop := code, true;
          }
        }
      }
    }

    /** The `ihttplib_recv` call of the read loop, stated as the loop's next turn. */
    method Pull(remain: nat, ghost wait: int, ghost clock: seq<U32>, ghost data: seq<Byte>)
      returns (code: Engine.RecvCode, d: seq<Byte>)
      requires remain > 0 && Engine.LineInv(http.Val())
      modifies http, http.sock
      ensures Step(http.Val(), code, d, remain)
      ensures ReadLoop(old(http.Val()), remain, wait, clock, data)
           == LoopAfter(http.Val(), code, d, remain, wait, clock, data)
    {
      LoopUnfold(http.Val(), remain, wait, clock, data);
      ghost var r := Engine.RecvF(http.Val(), remain);
      code, d := http.Recv(remain);
      assert http.Val() == r.eng && code == r.code && d == r.data;
    }

    /** `ineturl_write`: returns what is still queued. */
    method Write(data: Option<seq<Byte>>) returns (n: nat)
      requires Valid()
      modifies http.sock
      ensures (Val(), n) == WriteF(old(Val()), data)
      ensures Valid()
    {
      WriteQueues(Val(), data);
      if data.Some? {
        var _ := http.Send(data.value);
        var _, _ := http.Update(0);
      }
      n := http.DSize();
    }

    /** `ineturl_flush`. */
    method Flush()
      requires Valid()
      modifies http.sock
      ensures Val() == FlushF(old(Val()))
      ensures Valid()
    {
      FlushMoves(Val());
      var _, _ := http.Update(0);
    }
  }

  /** `ineturl_open`, as the source orders it: a new engine, the split, the protocol check,
      the open (through the proxy when given), the request and an update. No handle comes
      back exactly when `OpenF` refuses; `e0` is the new engine it started from. */
  method Open(url: seq<Byte>, data: Option<seq<Byte>>, size: int, header: Option<seq<Byte>>,
              proxy: Option<seq<Byte>>, resolve: seq<Byte> -> bool, socketOk: bool, peer: Sock.Peer)
    returns (h: UrlHandle?, ghost e0: Engine.EngVal)
    requires data.Some? && size >= 0 ==> size <= |data.value|
    ensures Initial(e0)
    ensures h == null <==> OpenF(e0, url, data, size, header, proxy, resolve, socketOk, peer).None?
    ensures h != null ==>
      && fresh(h) && fresh(h.http) && fresh(h.http.sock)
      && h.Val() == OpenF(e0, url, data, size, header, proxy, resolve, socketOk, peer).value
      && h.Valid()
  {
    var lib := new Engine.HttpLib();
    e0 := lib.Val();
    var p := UrlUtil.Split(url);
    if p.protocol != "http" {
      return null, e0;
    }
    var target := if proxy.Some? then url else p.path;
    var connect := if proxy.Some? then proxy.value else p.host;
    var r := lib.Open(connect, resolve, socketOk, peer);
    lib.host := if proxy.Some? then p.host else lib.host;
    ghost var o := Engine.OpenF(e0, connect, resolve, socketOk, peer);
    assert r == o.1;
    if r != 0 {
      return null, e0;
    }
    ghost var e1 := lib.Val();
    assert e1 == if proxy.Some? then o.0.(host := p.host) else o.0;
    var m, body, extra := MethodOf(data, size), Body(data), HeaderOf(header);
    ghost var q := Engine.RequestF(e1, m, target, body, size, extra);
    var _ := lib.Request(m, target, body, size, extra);
    assert lib.Val() == q.0;
    var _, _ := lib.Update(0);
    ghost var e3 := Engine.UpdateF(q.0, 0).0;
    assert lib.Val() == e3;
    h := new UrlHandle(lib, target, p.host, if proxy.Some? then proxy.value else []);
    OpenIs(e0, url, data, size, header, proxy, resolve, socketOk, peer, target, e1);
    OpenGood(e0, url, data, size, header, proxy, resolve, socketOk, peer);
  }
}

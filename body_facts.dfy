/** What successive calls of `ihttplib_recv` hand over while a response body is read: a
    body announced by `Content-Length` and a body sent in the chunked transfer coding each
    come out exactly, whatever buffer sizes the caller passes and however the bytes arrive. */
module BodyFacts {
  import opened Text
  import opened Http
  import Sock
  import opened Engine

  // ---------------------------------------------------------------------------------
  // The chunked transfer coding

  const Crlf: seq<Byte> := "\r\n"

  /** Every chunk holds at least one byte (a zero-size chunk would end the body). */
  predicate NonEmpty(cs: seq<seq<Byte>>)
  {
    forall i :: 0 <= i < |cs| ==> |cs[i]| > 0
  }

  /** The payload the chunks carry, in order. */
  function Flatten(cs: seq<seq<Byte>>): seq<Byte>
  {
    if cs == [] then [] else cs[0] + Flatten(cs[1..])
  }

  /** The chunked transfer coding of the payload cut into `cs`: each chunk behind its size
      in hexadecimal and a CRLF and followed by a CRLF, then the zero-size chunk and the
      CRLF that end the body. */
  function ChunkEncode(cs: seq<seq<Byte>>): seq<Byte>
  {
    if cs == [] then Hex(0) + Crlf + Crlf
    else Hex(|cs[0]|) + Crlf + cs[0] + Crlf + ChunkEncode(cs[1..])
  }

  /** What follows the CRLF after the current chunk: nothing of the body after the
      zero-size chunk, the coding of the remaining chunks otherwise. */
  function Later(e: EngVal, cs: seq<seq<Byte>>, rest: seq<Byte>): seq<Byte>
  {
    if e.head.chunksize == 0 then rest else ChunkEncode(cs) + rest
  }

  /** The chunk reader `e` stands at a point of the coding of the chunks `cs` followed by
      `rest`, with `d` of the current chunk still to hand over: the bytes it has yet to
      interpret are exactly the rest of that coding, and in the data phase the window is
      armed to exactly `d`. */
  predicate Decoding(e: EngVal, d: seq<Byte>, cs: seq<seq<Byte>>, rest: seq<Byte>)
  {
    && ChunkLines(e) && NonEmpty(cs)
    && (e.head.cnext == ChunkHead ==> d == [] && Logical(e) == ChunkEncode(cs) + rest)
    && (e.head.cnext == ChunkData ==>
          && !e.sock.endless && e.sock.blocksize == |d| && e.head.chunksize >= 0
          && (e.head.chunksize == 0 ==> d == [] && cs == [])
          && Logical(e) == d + Crlf + Later(e, cs, rest))
    && (e.head.cnext == ChunkTail ==>
          && d == [] && e.head.chunksize >= 0 && (e.head.chunksize == 0 ==> cs == [])
          && Logical(e) == Crlf + Later(e, cs, rest))
    && (e.head.cnext == ChunkDone ==> d == [] && cs == [] && Logical(e) == rest)
  }

  /** What one call of the chunk reader did from a point where `p` was left to hand over:
      it returned a count, AGAIN or DONE (never a close); a count is between 1 and `size`;
      DONE comes only once all of `p` is out, with exactly `rest` left unread; otherwise
      the bytes it handed over begin `p` and the reader stands at the point of the coding
      where the rest of `p`, namely `d2` and then `cs2`, is left. */
  predicate Decoded(e: EngVal, p: seq<Byte>, rest: seq<Byte>, r: Reply, size: nat,
                    d2: seq<Byte>, cs2: seq<seq<Byte>>)
  {
    && (r.code.Got? || r.code == RecvAgain || r.code == RecvDone)
    && (r.code.Got? ==> 1 <= r.code.n <= size && |r.data| == r.code.n)
    && (!r.code.Got? ==> r.data == [])
    && (r.code == RecvDone ==> p == [] && r.eng.head.cnext == ChunkDone && Logical(r.eng) == rest)
    && (r.code != RecvDone ==> Decoding(r.eng, d2, cs2, rest) && p == r.data + (d2 + Flatten(cs2)))
    && r.eng.head.chunked == e.head.chunked && r.eng.head.rnext == e.head.rnext
    && r.eng.sock.sendQ == e.sock.sendQ
  }

  /** The first line of the coding is the size line of the first chunk (0 for none). */
  lemma EncodeSizeLine(cs: seq<seq<Byte>>, rest: seq<Byte>)
    ensures FullLine(SizeLine(cs)) && ChunkEncode(cs) + rest == SizeLine(cs) + AfterSizeLine(cs, rest)
  {
    var n := if cs == [] then 0 else |cs[0]|;
    HexLine(n);
    if cs == [] {
      Regroup3(Hex(0), Crlf, Crlf, rest);
    } else {
      Regroup5(Hex(n), Crlf, cs[0], Crlf, ChunkEncode(cs[1..]), rest);
    }
  }

  /** A chunk size in hexadecimal and a CRLF make one complete line. */
  lemma HexLine(n: nat)
    ensures FullLine(Hex(n) + Crlf)
  {
    var h := Hex(n);
    var l := h + Crlf;
    assert forall i :: 0 <= i < |l| - 1 ==> l[i] != '\n' by {
      forall i | 0 <= i < |l| - 1 ensures l[i] != '\n' {
        if i < |h| { assert l[i] == h[i] && DigitValue(h[i]) < 16; }
      }
    }
  }

  lemma Regroup3(a: seq<Byte>, b: seq<Byte>, c: seq<Byte>, x: seq<Byte>)
    ensures a + b + c + x == (a + b) + (c + x)
  {
  }

  lemma Regroup5(a: seq<Byte>, b: seq<Byte>, c: seq<Byte>, d: seq<Byte>, f: seq<Byte>, x: seq<Byte>)
    ensures a + b + c + d + f + x == (a + b) + (c + d + f + x)
  {
  }

  /** Bytes that hold a line feed cannot all sit in a line buffer that holds none. */
  lemma LineFeedAt(x: seq<Byte>, i: nat)
    requires i < |x| && x[i] == '\n'
    ensures !NoLF(x)
  {
  }

  /** `a + s1 == b + s2` with `a` no longer than `b`: `a` begins `b`. */
  lemma SplitFront(a: seq<Byte>, s1: seq<Byte>, b: seq<Byte>, s2: seq<Byte>)
    requires a + s1 == b + s2 && |a| <= |b|
    ensures b == a + b[|a|..] && s1 == b[|a|..] + s2
  {
    assert (a + s1)[..|a|] == a;
    assert (b + s2)[..|a|] == b[..|a|];
    assert b == b[..|a|] + b[|a|..];
    assert (a + s1)[|a|..] == s1;
    assert (b + s2)[|a|..] == b[|a|..] + s2;
  }

  // ---------------------------------------------------------------------------------
  // One call of the chunk reader, phase by phase

  /** One call of `ihttplib_read_chunked` from any point of the coding. */
  lemma DecodeStep(e: EngVal, d: seq<Byte>, cs: seq<seq<Byte>>, rest: seq<Byte>, size: nat)
      returns (d2: seq<Byte>, cs2: seq<seq<Byte>>)
    requires Decoding(e, d, cs, rest)
    ensures Decoded(e, d + Flatten(cs), rest, ReadChunkedF(e, size), size, d2, cs2)
    decreases |Sock.Stream(e.sock)|, ChunkRank(e.head.cnext), 2
  {
    match e.head.cnext
    case ChunkHead => d2, cs2 := DecodeAtHead(e, cs, rest, size);
    case ChunkData => d2, cs2 := DecodeAtData(e, d, cs, rest, size);
    case ChunkTail => d2, cs2 := DecodeAtTail(e, cs, rest, size);
    case ChunkDone => d2, cs2 := [], [];
  }

  lemma DecodeAtHead(e: EngVal, cs: seq<seq<Byte>>, rest: seq<Byte>, size: nat)
      returns (d2: seq<Byte>, cs2: seq<seq<Byte>>)
    requires Decoding(e, [], cs, rest) && e.head.cnext == ChunkHead
    ensures Decoded(e, Flatten(cs), rest, ReadChunkedF(e, size), size, d2, cs2)
    decreases |Sock.Stream(e.sock)|, 0, 1
  {
    HeadLine(e, cs, rest);
    var r := ChunkHeadF(e);
    HeadShrinks(e);
    assert ReadChunkedF(e, size) == AfterChunkLine(r, size, |Sock.Stream(e.sock)|);
    if r.code.None? {
      FlattenFirst(cs);
      d2, cs2 := DecodeAfterLine(e, r, First(cs), Others(cs), rest, size, |Sock.Stream(e.sock)|);
    } else {
      d2, cs2 := [], cs;
    }
  }

  lemma DecodeAtTail(e: EngVal, cs: seq<seq<Byte>>, rest: seq<Byte>, size: nat)
      returns (d2: seq<Byte>, cs2: seq<seq<Byte>>)
    requires Decoding(e, [], cs, rest) && e.head.cnext == ChunkTail
    ensures Decoded(e, Flatten(cs), rest, ReadChunkedF(e, size), size, d2, cs2)
    decreases |Sock.Stream(e.sock)|, 0, 1
  {
    TailLine(e, cs, rest);
    var r := ChunkTailF(e);
    TailShrinks(e);
    assert ReadChunkedF(e, size) == AfterChunkLine(r, size, |Sock.Stream(e.sock)|);
    d2, cs2 := [], cs;
    if r.code.None? {
      d2, cs2 := DecodeAfterLine(e, r, [], cs, rest, size, |Sock.Stream(e.sock)|);
    }
  }

  /** The current chunk, and the chunks after it. */
  function First(cs: seq<seq<Byte>>): seq<Byte> { if cs == [] then [] else cs[0] }
  function Others(cs: seq<seq<Byte>>): seq<seq<Byte>> { if cs == [] then [] else cs[1..] }

  lemma FlattenFirst(cs: seq<seq<Byte>>)
    ensures Flatten(cs) == First(cs) + Flatten(Others(cs))
  {
  }

  /** What a chunk-line read keeps: the chunking flag, the phase and the send queue. */
  predicate LineKeeps(e: EngVal, r: HeaderOut)
  {
    r.eng.head.chunked == e.head.chunked && r.eng.head.rnext == e.head.rnext
    && r.eng.sock.sendQ == e.sock.sendQ
  }

  /** The size line of the coding: it waits or it is read whole, and then the window is
      armed to the chunk it announces; it never meets a close, since a line feed is still
      to come. */
  lemma HeadLine(e: EngVal, cs: seq<seq<Byte>>, rest: seq<Byte>)
    requires Decoding(e, [], cs, rest) && e.head.cnext == ChunkHead
    ensures var r := ChunkHeadF(e);
      && (r.code == None || r.code == Some(RecvAgain)) && LineKeeps(e, r)
      && (r.code == Some(RecvAgain) ==> r.framing == [] && Decoding(r.eng, [], cs, rest))
      && (r.code == None ==> Decoding(r.eng, First(cs), Others(cs), rest))
  {
    HeadCodes(e, cs, rest);
    var r := ChunkHeadF(e);
    if r.code.None? {
      HeadRead(e, cs, rest);
    } else {
      assert r.framing == [] && Decoding(r.eng, [], cs, rest) by {
        ChunkHeadReads(e);
        assert Logical(r.eng) == Logical(e);
      }
    }
  }

  /** The size line's bytes: its hexadecimal size, a CRLF, then the rest of the coding. */
  function SizeLine(cs: seq<seq<Byte>>): seq<Byte>
  {
    Hex(if cs == [] then 0 else |cs[0]|) + Crlf
  }

  function AfterSizeLine(cs: seq<seq<Byte>>, rest: seq<Byte>): seq<Byte>
  {
    if cs == [] then Crlf + rest else cs[0] + Crlf + ChunkEncode(cs[1..]) + rest
  }

  lemma HeadCodes(e: EngVal, cs: seq<seq<Byte>>, rest: seq<Byte>)
    requires Decoding(e, [], cs, rest) && e.head.cnext == ChunkHead
    ensures var r := ChunkHeadF(e);
      (r.code == None || r.code == Some(RecvAgain)) && LineKeeps(e, r)
  {
    var r := ChunkHeadF(e);
    assert LineKeeps(e, r) by {
      Sock.GetsReadsLine(e.sock);
    }
    assert r.code != Some(RecvClosed) by {
      EncodeSizeLine(cs, rest);
      ChunkHeadReads(e);
      NeverClosed(e, r, SizeLine(cs), AfterSizeLine(cs, rest));
    }
    assert r.code == None || r.code == Some(RecvAgain) || r.code == Some(RecvClosed) by {
      ChunkHeadReads(e);
    }
  }

  lemma HeadRead(e: EngVal, cs: seq<seq<Byte>>, rest: seq<Byte>)
    requires Decoding(e, [], cs, rest) && e.head.cnext == ChunkHead
    requires ChunkHeadF(e).code.None?
    ensures Decoding(ChunkHeadF(e).eng, First(cs), Others(cs), rest)
  {
    var n := if cs == [] then 0 else |cs[0]|;
    HeadSize(e, cs, rest, n);
    HeadArmed(ChunkHeadF(e).eng, cs, rest, n);
  }

  /** A size line read whole arms the window to the size it announces, and leaves the
      bytes after it to interpret. */
  lemma HeadSize(e: EngVal, cs: seq<seq<Byte>>, rest: seq<Byte>, n: nat)
    requires NoLF(e.line) && Logical(e) == ChunkEncode(cs) + rest
    requires n == (if cs == [] then 0 else |cs[0]|)
    requires ChunkHeadF(e).code.None?
    ensures var r := ChunkHeadF(e);
      && r.eng.line == [] && r.eng.head.cnext == ChunkData && r.eng.head.chunksize == n
      && r.eng.sock.blocksize == n && !r.eng.sock.endless && Logical(r.eng) == AfterSizeLine(cs, rest)
  {
    var l, x := SizeLine(cs), AfterSizeLine(cs, rest);
    var r := ChunkHeadF(e);
    assert Logical(e) == l + x && LineOf(l + x) == l by {
      EncodeSizeLine(cs, rest);
      LineOfLine(l, x);
    }
    assert && r.framing == LineOf(Logical(e)) && Logical(e) == r.framing + Logical(r.eng)
           && r.eng.line == [] && r.eng.head.cnext == ChunkData
           && r.eng.head.chunksize == ChunkSizeOf(r.framing) && r.eng.sock.blocksize == ChunkSizeOf(r.framing)
           && (r.eng.sock.endless <==> ChunkSizeOf(r.framing) < 0) by {
      ChunkHeadReads(e);
    }
    SizeLineReads(n);
    assert Logical(r.eng) == x by {
      Cancel(l, x, Logical(r.eng));
    }
  }

  /** A size line of the coding reads back as its size. */
  lemma SizeLineReads(n: nat)
    ensures ChunkSizeOf(Hex(n) + Crlf) == n
  {
    assert DigitValue(Crlf[0]) == 36;
    HttpFacts.ChunkSizeLine(n, Crlf);
  }

  /** A line read from bytes that hold a complete line does not meet the close. */
  lemma NeverClosed(e: EngVal, r: HeaderOut, l: seq<Byte>, x: seq<Byte>)
    requires FullLine(l) && Logical(e) == l + x && LineRead(e, r)
    ensures r.code != Some(RecvClosed)
  {
    if r.code == Some(RecvClosed) {
      assert Logical(e) == r.eng.line + [];
      LineFeedAt(Logical(e), |l| - 1);
    }
  }

  /** The same bytes in front of two texts make them equal only if they were. */
  lemma Cancel(a: seq<Byte>, b: seq<Byte>, c: seq<Byte>)
    requires a + b == a + c
    ensures b == c
  {
    assert b == (a + b)[|a|..];
    assert c == (a + c)[|a|..];
  }

  lemma HeadArmed(e: EngVal, cs: seq<seq<Byte>>, rest: seq<Byte>, n: nat)
    requires NonEmpty(cs) && n == (if cs == [] then 0 else |cs[0]|)
    requires e.line == [] && e.head.cnext == ChunkData && e.head.chunksize == n
    requires e.sock.blocksize == n && !e.sock.endless && Logical(e) == AfterSizeLine(cs, rest)
    ensures Decoding(e, First(cs), Others(cs), rest)
  {
    if cs != [] {
      assert NonEmpty(Others(cs)) by {
        forall i | 0 <= i < |cs[1..]| ensures |cs[1..][i]| > 0 { assert cs[1..][i] == cs[i + 1]; }
      }
      assert AfterSizeLine(cs, rest) == First(cs) + Crlf + Later(e, Others(cs), rest);
    }
  }

  /** The CRLF after a chunk: it waits or it is read whole, and then the body ends after
      the zero-size chunk and the next size line follows any other. */
  lemma TailLine(e: EngVal, cs: seq<seq<Byte>>, rest: seq<Byte>)
    requires Decoding(e, [], cs, rest) && e.head.cnext == ChunkTail
    ensures var r := ChunkTailF(e);
      && (r.code == None || r.code == Some(RecvAgain)) && LineKeeps(e, r)
      && (r.code == Some(RecvAgain) ==> r.framing == [] && Decoding(r.eng, [], cs, rest))
      && (r.code == None ==> Decoding(r.eng, [], cs, rest))
  {
    TailCodes(e, cs, rest);
    var r := ChunkTailF(e);
    if r.code.None? {
      TailRead(e, cs, rest);
    } else {
      assert r.framing == [] && Decoding(r.eng, [], cs, rest) by {
        ChunkTailReads(e);
        assert Logical(r.eng) == Logical(e);
      }
    }
  }

  lemma TailCodes(e: EngVal, cs: seq<seq<Byte>>, rest: seq<Byte>)
    requires Decoding(e, [], cs, rest) && e.head.cnext == ChunkTail
    ensures var r := ChunkTailF(e);
      (r.code == None || r.code == Some(RecvAgain)) && LineKeeps(e, r)
  {
    var r := ChunkTailF(e);
    assert LineKeeps(e, r) by {
      Sock.GetsReadsLine(e.sock);
    }
    assert r.code != Some(RecvClosed) by {
      assert FullLine(Crlf);
      ChunkTailReads(e);
      NeverClosed(e, r, Crlf, Later(e, cs, rest));
    }
    assert r.code == None || r.code == Some(RecvAgain) || r.code == Some(RecvClosed) by {
      ChunkTailReads(e);
    }
  }

  lemma TailRead(e: EngVal, cs: seq<seq<Byte>>, rest: seq<Byte>)
    requires Decoding(e, [], cs, rest) && e.head.cnext == ChunkTail
    requires ChunkTailF(e).code.None?
    ensures Decoding(ChunkTailF(e).eng, [], cs, rest)
  {
    var x := Later(e, cs, rest);
    var r := ChunkTailF(e);
    assert LineOf(Crlf + x) == Crlf by {
      assert FullLine(Crlf);
      LineOfLine(Crlf, x);
    }
    ChunkTailReads(e);
    assert r.framing == Crlf;
    assert Logical(r.eng) == x by {
      Cancel(Crlf, x, Logical(r.eng));
    }
  }

  lemma DecodeAfterLine(e: EngVal, r: HeaderOut, d: seq<Byte>, cs: seq<seq<Byte>>, rest: seq<Byte>,
                        size: nat, bound: nat)
      returns (d2: seq<Byte>, cs2: seq<seq<Byte>>)
    requires r.code.None? && |Sock.Stream(r.eng.sock)| < bound
    requires Decoding(r.eng, d, cs, rest)
    requires r.eng.head.chunked == e.head.chunked && r.eng.head.rnext == e.head.rnext
    requires r.eng.sock.sendQ == e.sock.sendQ
    ensures Decoded(e, d + Flatten(cs), rest, AfterChunkLine(r, size, bound), size, d2, cs2)
    decreases bound, 0, 0
  {
    d2, cs2 := DecodeStep(r.eng, d, cs, rest, size);
  }

  lemma DecodeAtData(e: EngVal, d: seq<Byte>, cs: seq<seq<Byte>>, rest: seq<Byte>, size: nat)
      returns (d2: seq<Byte>, cs2: seq<seq<Byte>>)
    requires Decoding(e, d, cs, rest) && e.head.cnext == ChunkData
    ensures Decoded(e, d + Flatten(cs), rest, ReadChunkedF(e, size), size, d2, cs2)
    decreases |Sock.Stream(e.sock)|, 1, 1
  {
    DataRead(e, d, cs, rest, size);
    UnchunkedShrinks(e, size);
    var r := ReadUnchunkedF(e, size);
    assert ReadChunkedF(e, size) == AfterChunkData(r, size, |Sock.Stream(e.sock)|);
    if r.code == RecvDone {
      d2, cs2 := DecodeAfterData(e, r, cs, rest, size, |Sock.Stream(e.sock)|);
    } else {
      d2, cs2 := d[|r.data|..], cs;
      assert d + Flatten(cs) == r.data + (d2 + Flatten(cs)) by {
        AppendAssoc(r.data, d2, Flatten(cs));
      }
    }
  }

  /** A bounded read of a chunk's bytes: DONE exactly when none are left, and then the
      CRLF after the chunk comes next; otherwise the next bytes of the chunk or none. */
  lemma DataRead(e: EngVal, d: seq<Byte>, cs: seq<seq<Byte>>, rest: seq<Byte>, size: nat)
    requires Decoding(e, d, cs, rest) && e.head.cnext == ChunkData
    ensures var r := ReadUnchunkedF(e, size);
      && (r.code.Got? || r.code == RecvAgain || r.code == RecvDone)
      && (r.code.Got? ==> 1 <= r.code.n <= size && |r.data| == r.code.n)
      && (!r.code.Got? ==> r.data == [])
      && r.eng.head == e.head && r.eng.sock.sendQ == e.sock.sendQ
      && (r.code == RecvDone <==> d == [])
      && (r.code == RecvDone ==> Decoding(r.eng.(head := r.eng.head.(cnext := ChunkTail)), [], cs, rest))
      && (r.code != RecvDone ==> |r.data| <= |d| && d == r.data + d[|r.data|..]
                                 && Decoding(r.eng, d[|r.data|..], cs, rest))
  {
    var o := Sock.BlockRecvF(e.sock, size);
    var r := ReadUnchunkedF(e, size);
    var tail := Crlf + Later(e, cs, rest);
    assert Sock.Stream(e.sock) == d + tail by {
      AppendAssoc(d, Crlf, Later(e, cs, rest));
      assert Logical(e) == [] + Sock.Stream(e.sock);
    }
    Sock.BlockRecvLive(e.sock, size);
    assert r == UnchunkedOf(e, o);
    assert r.eng == e.(sock := o.sock) && r.data == o.data;
    if o.res.Count? {
      SplitFront(o.data, Sock.Stream(o.sock), d, tail);
    }
  }

  lemma DecodeAfterData(e: EngVal, r: Reply, cs: seq<seq<Byte>>, rest: seq<Byte>, size: nat, bound: nat)
      returns (d2: seq<Byte>, cs2: seq<seq<Byte>>)
    requires |Sock.Stream(r.eng.sock)| <= bound
    requires r.code == RecvDone && r.data == []
    requires Decoding(r.eng.(head := r.eng.head.(cnext := ChunkTail)), [], cs, rest)
    requires r.eng.head.chunked == e.head.chunked && r.eng.head.rnext == e.head.rnext
    requires r.eng.sock.sendQ == e.sock.sendQ
    ensures Decoded(e, Flatten(cs), rest, AfterChunkData(r, size, bound), size, d2, cs2)
    decreases bound, 1, 0
  {
    var e2 := r.eng.(head := r.eng.head.(cnext := ChunkTail));
    d2, cs2 := DecodeStep(e2, [], cs, rest, size);
  }

  // ---------------------------------------------------------------------------------
  // Successive calls of ihttplib_recv

  /** How a run of `ihttplib_recv` calls ended: the engine after it, the body bytes it
      handed over, and the first code that was neither a count nor AGAIN (None when the
      request sizes ran out first). */
  datatype Run = Run(eng: EngVal, data: seq<Byte>, stop: Option<RecvCode>)

  /** Calls of `ihttplib_recv` with the given buffer sizes, one after the other, as long
      as each returns a count or AGAIN. */
  function RecvRun(e: EngVal, sizes: seq<nat>): Run
    decreases |sizes|
  {
    if sizes == [] then Run(e, [], None)
    else
      var r := RecvF(e, sizes[0]);
      if r.code.Got? || r.code == RecvAgain then
        var t := RecvRun(r.eng, sizes[1..]);
        t.(data := r.data + t.data)
      else Run(r.eng, r.data, Some(r.code))
  }

  /** In the body phase with nothing left to send, `ihttplib_recv` is its body reader. */
  lemma RecvInBody(e: EngVal, size: nat)
    requires e.head.rnext == PhaseData && e.sock.sendQ == []
    ensures RecvF(e, size) == RecvBodyF(e, size)
  {
    assert RecvStartF(e) == e;
    var r := RecvBodyF(e, size);
    assert r.(framing := [] + r.framing) == r;
  }

  // ---------------------------------------------------------------------------------
  // A body of Content-Length bytes

  /** The engine reads a plain body with `d` of it still to come and `rest` behind it: the
      window is armed to exactly `d` and the stream holds `d` and then `rest`. */
  predicate Counting(e: EngVal, d: seq<Byte>, rest: seq<Byte>)
  {
    && !e.head.chunked && e.head.rnext == PhaseData && e.line == []
    && !e.sock.endless && e.sock.blocksize == |d| && Sock.Stream(e.sock) == d + rest
  }

  /** One call of `ihttplib_recv` on a plain body: a count of the next bytes of the body,
      between 1 and `size`, or AGAIN, or (exactly when none of it is left) DONE, which
      returns to waiting with the bytes behind the body unread. It never reports a close. */
  lemma CountStep(e: EngVal, d: seq<Byte>, rest: seq<Byte>, size: nat)
    requires Counting(e, d, rest) && e.sock.sendQ == []
    ensures var r := RecvF(e, size);
      && (r.code.Got? || r.code == RecvAgain || r.code == RecvDone)
      && (r.code.Got? ==> 1 <= r.code.n <= size && |r.data| == r.code.n)
      && (!r.code.Got? ==> r.data == [])
      && (r.code == RecvDone <==> d == [])
      && (r.code == RecvDone ==>
            Sock.Stream(r.eng.sock) == rest && r.eng.head.rnext == PhaseWait && r.eng.line == [])
      && (r.code != RecvDone ==>
            && |r.data| <= |d| && d == r.data + d[|r.data|..]
            && Counting(r.eng, d[|r.data|..], rest) && r.eng.sock.sendQ == [])
  {
    RecvInBody(e, size);
    var o := Sock.BlockRecvF(e.sock, size);
    Sock.BlockRecvLive(e.sock, size);
    assert ReadUnchunkedF(e, size) == UnchunkedOf(e, o);
    if o.res.Count? {
      SplitFront(o.data, Sock.Stream(o.sock), d, rest);
    }
  }

  /** However many calls and whatever buffer sizes, a body announced as `|body|` bytes
      comes out as a prefix of `body` and never more; a run never meets a close; it ends in
      DONE only once all of `body` is out, back to waiting with exactly `rest` unread; and
      until then the engine goes on reading the rest of `body`. */
  lemma {:induction false} LengthRoundTrip(e: EngVal, body: seq<Byte>, rest: seq<Byte>, sizes: seq<nat>)
    requires Counting(e, body, rest) && e.sock.sendQ == []
    ensures var t := RecvRun(e, sizes);
      && |t.data| <= |body| && t.data == body[..|t.data|]
      && (t.stop == None || t.stop == Some(RecvDone))
      && (t.stop == Some(RecvDone) ==>
            && t.data == body && Sock.Stream(t.eng.sock) == rest
            && t.eng.head.rnext == PhaseWait && t.eng.line == [])
      && (t.stop == None ==> Counting(t.eng, body[|t.data|..], rest) && t.eng.sock.sendQ == [])
    decreases |sizes|
  {
    if sizes != [] {
      CountStep(e, body, rest, sizes[0]);
      var r := RecvF(e, sizes[0]);
      if r.code.Got? || r.code == RecvAgain {
        var b1 := body[|r.data|..];
        LengthRoundTrip(r.eng, b1, rest, sizes[1..]);
        var t := RecvRun(r.eng, sizes[1..]);
        assert RecvRun(e, sizes) == t.(data := r.data + t.data);
        assert b1 == t.data + b1[|t.data|..];
        assert body == (r.data + t.data) + b1[|t.data|..] by {
          AppendAssoc(r.data, t.data, b1[|t.data|..]);
        }
        assert body[|r.data + t.data|..] == b1[|t.data|..];
      }
    }
  }

  // ---------------------------------------------------------------------------------
  // A chunked body

  /** One call of `ihttplib_recv` on a chunked body, from any point of its coding: what
      the chunk reader makes of it, with DONE returning to waiting. */
  lemma DecodeRecv(e: EngVal, d: seq<Byte>, cs: seq<seq<Byte>>, rest: seq<Byte>, size: nat)
      returns (d2: seq<Byte>, cs2: seq<seq<Byte>>)
    requires Decoding(e, d, cs, rest)
    requires e.head.rnext == PhaseData && e.head.chunked && e.sock.sendQ == []
    ensures var r := RecvF(e, size);
      && (r.code.Got? || r.code == RecvAgain || r.code == RecvDone)
      && (r.code.Got? ==> 1 <= r.code.n <= size && |r.data| == r.code.n)
      && (!r.code.Got? ==> r.data == [])
      && (r.code == RecvDone ==>
            && d + Flatten(cs) == [] && Logical(r.eng) == rest
            && r.eng.head.cnext == ChunkDone && r.eng.head.rnext == PhaseWait)
      && (r.code != RecvDone ==>
            && Decoding(r.eng, d2, cs2, rest) && d + Flatten(cs) == r.data + (d2 + Flatten(cs2))
            && r.eng.head.rnext == PhaseData && r.eng.head.chunked && r.eng.sock.sendQ == [])
  {
    RecvInBody(e, size);
    d2, cs2 := DecodeStep(e, d, cs, rest, size);
  }

  /** Successive calls of `ihttplib_recv` from any point of the coding: the bytes handed
      over begin the payload left; a close is never met; DONE comes only once all of it is
      out, back to waiting with exactly `rest` unread; otherwise the engine stands at the
      point of the coding where the remainder, `d2` then `cs2`, is left. */
  lemma {:induction false} DecodeRun(e: EngVal, d: seq<Byte>, cs: seq<seq<Byte>>, rest: seq<Byte>,
                                     sizes: seq<nat>)
      returns (d2: seq<Byte>, cs2: seq<seq<Byte>>)
    requires Decoding(e, d, cs, rest)
    requires e.head.rnext == PhaseData && e.head.chunked && e.sock.sendQ == []
    ensures var t := RecvRun(e, sizes);
      && (t.stop == None || t.stop == Some(RecvDone))
      && (t.stop == Some(RecvDone) ==>
            && t.data == d + Flatten(cs) && Logical(t.eng) == rest
            && t.eng.head.cnext == ChunkDone && t.eng.head.rnext == PhaseWait)
      && (t.stop == None ==>
            && Decoding(t.eng, d2, cs2, rest) && d + Flatten(cs) == t.data + (d2 + Flatten(cs2))
            && t.eng.head.rnext == PhaseData && t.eng.head.chunked && t.eng.sock.sendQ == [])
    decreases |sizes|
  {
    d2, cs2 := d, cs;
    if sizes != [] {
      var d1, cs1 := DecodeRecv(e, d, cs, rest, sizes[0]);
      var r := RecvF(e, sizes[0]);
      if r.code != RecvDone {
        d2, cs2 := DecodeRun(r.eng, d1, cs1, rest, sizes[1..]);
        var t := RecvRun(r.eng, sizes[1..]);
        assert RecvRun(e, sizes) == t.(data := r.data + t.data);
        if t.stop == None {
          AppendAssoc(r.data, t.data, d2 + Flatten(cs2));
        } else {
          assert d + Flatten(cs) == r.data + t.data + [];
        }
      } else {
        assert RecvRun(e, sizes) == Run(r.eng, r.data, Some(r.code));
      }
    }
  }

  /** The chunked coding of any payload, cut into any non-empty chunks and followed by any
      bytes, comes back out of successive `ihttplib_recv` calls exactly, whatever the
      buffer sizes and however the bytes arrive: the bytes handed over are always a prefix
      of the payload, a close is never met, and DONE comes only once the whole payload is
      out, back to waiting with the bytes after the coding unread. */
  lemma ChunkRoundTrip(e: EngVal, cs: seq<seq<Byte>>, rest: seq<Byte>, sizes: seq<nat>)
    requires e.head.rnext == PhaseData && e.head.chunked && e.head.cnext == ChunkHead
    requires NoLF(e.line) && e.sock.sendQ == []
    requires NonEmpty(cs) && Logical(e) == ChunkEncode(cs) + rest
    ensures var t := RecvRun(e, sizes);
      && |t.data| <= |Flatten(cs)| && t.data == Flatten(cs)[..|t.data|]
      && (t.stop == None || t.stop == Some(RecvDone))
      && (t.stop == Some(RecvDone) ==>
            t.data == Flatten(cs) && Logical(t.eng) == rest && t.eng.head.rnext == PhaseWait)
      && (t.stop == None ==> exists d2, cs2 :: Decoding(t.eng, d2, cs2, rest)
                                && Flatten(cs) == t.data + (d2 + Flatten(cs2)))
  {
    var d2, cs2 := DecodeRun(e, [], cs, rest, sizes);
    var t := RecvRun(e, sizes);
    assert [] + Flatten(cs) == Flatten(cs);
    if t.stop == None {
      assert Flatten(cs)[..|t.data|] == t.data;
    }
  }

  // ---------------------------------------------------------------------------------
  // From the header to the body

  lemma ReadHeaderSendQ(e: EngVal)
    ensures ReadHeaderF(e).eng.sock.sendQ == e.sock.sendQ
  {
    Sock.GetsReadsLine(e.sock);
  }

  /** The header loop only reads: the send queue is as it was. */
  lemma {:induction false} HeaderLoopSendQ(e: EngVal)
    ensures HeaderLoopF(e).eng.sock.sendQ == e.sock.sendQ
    decreases |Sock.Stream(e.sock)|, 1
  {
    ReadHeaderSendQ(e);
    ReadHeaderShrinks(e);
    HeaderLoopOnSendQ(ReadHeaderF(e), |Sock.Stream(e.sock)|);
  }

  lemma {:induction false} HeaderLoopOnSendQ(r: LineStep, bound: nat)
    requires r.rv > 0 ==> |Sock.Stream(r.eng.sock)| < bound
    ensures HeaderLoopOn(r, bound).eng.sock.sendQ == r.eng.sock.sendQ
    decreases bound, 0
  {
    if r.rv > 0 && r.eng.head.rnext == PhaseHeader {
      HeaderLoopSendQ(r.eng);
    }
  }

  /** A call of `ihttplib_recv` whose header loop reaches the body goes on, in the same
      call, exactly as a call made in the body phase would. */
  lemma HeaderThenBody(e: EngVal, size: nat)
    requires e.head.rnext == PhaseHeader && e.sock.sendQ == []
    requires HeaderLoopF(e).code.None? && HeaderLoopF(e).eng.head.rnext == PhaseData
    ensures var hl := HeaderLoopF(e);
      && hl.eng.sock.sendQ == []
      && RecvF(e, size).eng == RecvF(hl.eng, size).eng
      && RecvF(e, size).code == RecvF(hl.eng, size).code
      && RecvF(e, size).data == RecvF(hl.eng, size).data
  {
    var hl := HeaderLoopF(e);
    HeaderLoopSendQ(e);
    assert RecvStartF(e) == e;
    assert RecvF(e, size) == RecvAfterHeader(hl, size);
    RecvInBody(hl.eng, size);
  }

  /** A run that starts with the call completing the header is the run from the body
      phase, as far as the body is concerned. */
  lemma RunFromHeader(e: EngVal, sizes: seq<nat>)
    requires e.head.rnext == PhaseHeader && e.sock.sendQ == [] && sizes != []
    requires HeaderLoopF(e).code.None? && HeaderLoopF(e).eng.head.rnext == PhaseData
    ensures RecvRun(e, sizes) == RecvRun(HeaderLoopF(e).eng, sizes)
  {
    HeaderThenBody(e, sizes[0]);
  }

  /** A response whose header announces `Content-Length: |body|`, read from the call that
      completes its header on: its body comes out as a prefix of `body`, no close is met,
      and DONE comes only once all of `body` is out, back to waiting with `rest` unread. */
  lemma LengthAfterHeader(e: EngVal, body: seq<Byte>, rest: seq<Byte>, sizes: seq<nat>)
    requires NoLF(e.line) && e.head.rnext == PhaseHeader && e.sock.sendQ == []
    requires var hl := HeaderLoopF(e);
      && hl.code.None? && hl.eng.head.rnext == PhaseData && !hl.eng.head.chunked
      && hl.eng.head.datasize == |body| && Logical(hl.eng) == body + rest
    ensures var t := RecvRun(e, sizes);
      && |t.data| <= |body| && t.data == body[..|t.data|]
      && (t.stop == None || t.stop == Some(RecvDone))
      && (t.stop == Some(RecvDone) ==>
            t.data == body && Sock.Stream(t.eng.sock) == rest && t.eng.head.rnext == PhaseWait)
  {
    if sizes != [] {
      var hl := HeaderLoopF(e);
      HeaderLoopParses(e);
      HeaderLoopSendQ(e);
      assert Logical(hl.eng) == [] + Sock.Stream(hl.eng.sock);
      assert Counting(hl.eng, body, rest);
      RunFromHeader(e, sizes);
      LengthRoundTrip(hl.eng, body, rest, sizes);
    }
  }

  /** A chunked response, read from the call that completes its header on: the coding of
      any payload cut into non-empty chunks comes back out exactly, as in `ChunkRoundTrip`. */
  lemma ChunkedAfterHeader(e: EngVal, cs: seq<seq<Byte>>, rest: seq<Byte>, sizes: seq<nat>)
    requires NoLF(e.line) && e.head.rnext == PhaseHeader && e.sock.sendQ == []
    requires var hl := HeaderLoopF(e);
      && hl.code.None? && hl.eng.head.rnext == PhaseData && hl.eng.head.chunked
      && hl.eng.head.cnext == ChunkHead
    requires NonEmpty(cs) && Logical(HeaderLoopF(e).eng) == ChunkEncode(cs) + rest
    ensures var t := RecvRun(e, sizes);
      && |t.data| <= |Flatten(cs)| && t.data == Flatten(cs)[..|t.data|]
      && (t.stop == None || t.stop == Some(RecvDone))
      && (t.stop == Some(RecvDone) ==>
            t.data == Flatten(cs) && Logical(t.eng) == rest && t.eng.head.rnext == PhaseWait)
  {
    if sizes != [] {
      var hl := HeaderLoopF(e);
      HeaderLoopKeeps(e);
      HeaderLoopSendQ(e);
      RunFromHeader(e, sizes);
      ChunkRoundTrip(hl.eng, cs, rest, sizes);
    }
  }
}

# ineturl — a verified model of a non-blocking HTTP/1.1 client

`ineturl.c` is a small HTTP/1.1 client in three layers:

- **`IHTTPSOCK`** (module `Sock`) wraps one non-blocking TCP descriptor. It has an outbound
  queue, an inbound queue and pseudo-blocking reads built from single-shot `irecv` calls:
  - a tri-state `recv`;
  - one byte (`block_getch`);
  - one line (`block_gets`);
  - a bounded window (`block_set` / `block_recv`).
- **`IHTTPLIB`** (module `Engine`) runs one exchange over one socket. It opens the
  connection, queues a GET or POST request, then reads the response's header lines and its
  body, plain or chunked, without ever blocking. The text-level parts are in module `Http`:
  - the header-line parser;
  - the chunk-size line;
  - the `host[:port]` split;
  - the request bytes;
  - the poll mask.

  Module `HttpFacts` proves what they do with well-formed text.
- **`IURLD`** (module `InetUrl`) is the façade:
  - `ineturl_open` opens an `http://` URL, directly or through an HTTP proxy;
  - `ineturl_read` reads the body with an optional wait budget and reports the end of the
    body exactly once;
  - `ineturl_write` and `ineturl_flush` push more request bytes.

  The URL helpers `ineturl_split` and `ineturl_get_absurl` are in module `UrlUtil`.
  The string and number helpers the code calls (`it_strsub`, `it_strfindc2`, `it_strstrip`,
  `it_stricmpc`, `istrtol`, `iltoa`) are in module `Text`.

The operating system is replaced by a script, `Sock.Peer`. It lists the outcomes that the
successive `irecv`, `isend` and zero-timeout `ipollfd` calls on the descriptor report. The
recv-side properties are stated against `Sock.Stream`: every byte a reader can still obtain,
in order. The stream is the inbound queue followed by what the descriptor will still deliver.

Each component has two layers:

- a value datatype (`SockVal`, `EngVal`, `Handle`) with pure functions, where the
  properties are proved;
- a class (`HttpSock`, `HttpLib`, `UrlHandle`) whose fields are updated in place. Each
  method is proved to change the object's fields exactly as the function says
  (`ensures Val() == F(old(Val()), …)`).

Module `BodyFacts` follows a response body across successive `ihttplib_recv` calls (the
function `RecvRun`):

- a body of `Content-Length` bytes comes out exactly, whatever the buffer sizes;
- so does the chunked transfer coding of any payload cut into non-empty chunks
  (`ChunkEncode`).

Loops in the source are loops in the methods, with invariants tying each step to the
function that specifies it:

- the recv loop of `ihttpsock_recv`;
- the line reader of `ihttpsock_block_gets`;
- the header loop of `ihttplib_recv`;
- the chunk loop of `ihttplib_read_chunked`;
- the read loop of `ineturl_read`.

## Model

| member | source | states |
|---|---|---|
| Text.Sub | ineturl.c:540 | `it_strsub` returns the slice `[start, endup)` when both bounds lie within the text, and the tail when the end bound runs past it. |
| Text.FindFrom | ineturl.c:1020 | `it_strfindc2` returns -1 or a position at or after `from` where the pattern occurs. |
| Text.FindFromFirst | ineturl.c:1020 | That position is the first occurrence; -1 means there is none at all. |
| Text.FindCharAt | ineturl.c:422 | A single-character search returns -1 exactly when the character does not occur. Otherwise it returns its first position. |
| Text.FindFirst | ineturl.c:603 | The first `:` of `name:value` is found right after a name that holds none. |
| Text.FindLast | ineturl.c:983 | `it_strfindr` for one character returns -1 exactly when the character is absent. Otherwise it returns its last position. |
| Text.TrimLeftSpec | ineturl.c:536 | Stripping the front keeps a suffix that does not start with a delimiter, and drops only delimiters. |
| Text.TrimRightSpec | ineturl.c:536 | Stripping the end keeps a prefix that does not end with a delimiter, and drops only delimiters. |
| Text.StripKeeps | ineturl.c:607-608 | `it_strstrip` leaves text without delimiters at its ends unchanged. |
| Text.StripAfterSpace | ineturl.c:608 | The space after a header colon is stripped away. |
| Text.DigitRun | ineturl.c:431 | `istrtol` reads the longest prefix of digits of the base, and stops at the first character that is not one. |
| Text.ToDigits | ineturl.c:882 | `iltoa` writes at least one digit of the base, with no leading zero except for 0 itself. |
| Text.DigitsToIntOf | ineturl.c:882 | The digits written for `n` denote `n`. |
| Text.DigitRunOf | ineturl.c:613 | A run of digits followed by a non-digit is read exactly as that run. |
| Text.ParseIntUnsigned | ineturl.c:613 | Text that starts with a digit (and no `0x`) is read as one run of digits, in the detected base. |
| Text.LeadingZero | ineturl.c:882 | A written number starts with `0` exactly when it is zero. |
| Text.ParseIntOf | ineturl.c:613 | A number written in decimal (read with base detection) or in hex (read in base 16) reads back as itself, whatever non-alphanumeric text follows it. |
| Text.LineOf | ineturl.c:285-299 | The first line of a text is a prefix that ends with its only line feed. Without a line feed it is the whole text. |
| Text.LineOfAfter | ineturl.c:285-299 | A partial line without a line feed, followed by the stream, extends to the stream's first line. |
| Sock.ConnectF | ineturl.c:51-71 | `ihttpsock_connect` clears both queues and the received count, and keeps the window size. It returns 0 exactly when the socket is made, then starts connecting on the new descriptor. Otherwise it returns -2 and keeps the state. |
| Sock.AssignF | ineturl.c:74-92 | `ihttpsock_assign` does the same reset and adopts a connected descriptor. A bad descriptor gives -2. |
| Sock.TryConnectF | ineturl.c:103-116 | Only a connecting socket changes. It either stays connecting or leaves that state, and its queues are untouched. |
| Sock.SendF | ineturl.c:224-234 | `ihttpsock_send` returns -1 exactly on a closed socket, and then empties the queue. Otherwise it appends the data to the outbound queue. |
| Sock.TrySendF | ineturl.c:119-145 | Bytes sent plus bytes still queued are the bytes queued before, in order. A connected socket ends with an empty queue, or closed, or with its script exhausted. The inbound side is untouched. |
| Sock.StreamNoGrow | ineturl.c:173-186 | A step that leaves the inbound side alone and can only close the socket never lengthens the stream. |
| Sock.UpdateF | ineturl.c:173-186 | `ihttpsock_update` conserves the outbound bytes (sent plus queued) and leaves the inbound side and the window alone. It never reopens a closed socket. |
| Sock.TryRecvF | ineturl.c:148-170 | `ihttpsock_try_recv` consumes at most one `irecv` outcome, and the inbound queue changes only when it does. It can only close the socket. |
| Sock.TryRecvStream | ineturl.c:148-170 | A receive moves bytes from the descriptor to the queue, so the stream is unchanged. |
| Sock.EofLooksLikeError | ineturl.c:155-167 | End of stream and a hard error leave the same socket: closed, with error -1. |
| Sock.RecvTurn | ineturl.c:208-210 | When the queue was emptied, a read that refills it used up one descriptor event. |
| Sock.RecvLoopMoves | ineturl.c:199-211 | The recv loop takes the next bytes of the stream, at most `remain` of them, and the stream loses exactly those. A short read leaves the queue empty. |
| Sock.RecvLoopKeeps | ineturl.c:199-211 | The recv loop leaves the outbound side, the window and the received count alone. |
| Sock.RecvDelivers | ineturl.c:191-221 | `ihttpsock_recv` returns a value between -1 and `size`. A positive count is the number of bytes, which are the next bytes of the stream, and is added to `received`. 0 means nothing yet on an open socket. -1 means closed with the stream exhausted. A zero size changes nothing. |
| Sock.RecvFromQueue | ineturl.c:199-208 | A request the queue can already satisfy is met from the queue alone. |
| Sock.GetchTakesHead | ineturl.c:271-280 | `ihttpsock_block_getch` returns the stream's head byte. AGAIN leaves the socket open, and CLOSED means the stream is exhausted. |
| Sock.GetchShrinks | ineturl.c:271-280 | Reading a byte shortens the stream. |
| Sock.GetsReadsLine | ineturl.c:285-299 | `ihttpsock_block_gets` returns DONE with exactly the stream's first line. Otherwise it returns bytes without a line feed, with CLOSED only when the stream is exhausted and AGAIN only on an open socket. The bytes read followed by the remaining stream are the original stream. |
| Sock.GetsResumes | ineturl.c:285-299 | After AGAIN, the partial text plus what a later call completes is the stream's first line, however the bytes arrived. |
| Sock.GetsDoneShrinks | ineturl.c:285-299 | A completed line ends with its line feed and shortens the stream. |
| Sock.BlockSetF | ineturl.c:302-308 | `ihttpsock_block_set` arms the window. A negative size means no bound. |
| Sock.BlockRecvTakes | ineturl.c:314-349 | `ihttpsock_block_recv` delivers the next bytes of the stream, between 1 and `size` of them with a count, and none otherwise. |
| Sock.BlockRecvWindow | ineturl.c:314-349 | A used-up window reports DONE once and disarms itself. A disarmed window reports DONE until the socket closes, then CLOSED. A zero size is AGAIN. A count shrinks the window by exactly that count. A closed recv disarms the window and returns the state-closed code. |
| Sock.BlockRecvLive | ineturl.c:314-349 | A window the stream can fill never reports a close. It is DONE exactly when the window is used up. Otherwise it returns AGAIN with no bytes, or a count of the next bytes of the stream, at most `size` and at most the window, and the window shrinks by exactly that count. |
| Sock.WindowDeliversPrefix | ineturl.c:314-349 | A window armed to W, however the reads are sized and however the bytes arrive, delivers the next bytes of the stream, at most W of them. It reports DONE only after exactly W. |
| Sock.HttpSock.constructor | ineturl.c:18-33 | `ihttpsock_new` makes a closed socket with no descriptor, empty queues and a disarmed window. |
| Sock.HttpSock.Connect | ineturl.c:51-71 | Changes the fields exactly as `ConnectF`. |
| Sock.HttpSock.Assign | ineturl.c:74-92 | Changes the fields exactly as `AssignF`. |
| Sock.HttpSock.Close | ineturl.c:95-100 | Drops the descriptor and keeps the queues. |
| Sock.HttpSock.TryConnect | ineturl.c:103-116 | Changes the fields exactly as `TryConnectF`. |
| Sock.HttpSock.TrySend | ineturl.c:119-145 | The send loop changes the fields exactly as `TrySendF`. |
| Sock.HttpSock.TryRecv | ineturl.c:148-170 | Changes the fields exactly as `TryRecvF`. |
| Sock.HttpSock.Update | ineturl.c:173-186 | Changes the fields exactly as `UpdateF`. |
| Sock.HttpSock.Send | ineturl.c:224-234 | Changes the fields exactly as `SendF`. |
| Sock.HttpSock.Recv | ineturl.c:191-221 | Returns, and changes the fields, exactly as `RecvF`. |
| Sock.HttpSock.TakeUpTo | ineturl.c:199-211 | The recv loop, proved against `RecvLoop`. |
| Sock.HttpSock.Getch | ineturl.c:271-280 | Exactly as `GetchF`. |
| Sock.HttpSock.Gets | ineturl.c:285-299 | The line loop appends to the caller's text exactly what `GetsF` reads. |
| Sock.HttpSock.BlockSet | ineturl.c:302-308 | Exactly as `BlockSetF`. |
| Sock.HttpSock.BlockRecv | ineturl.c:314-349 | Exactly as `BlockRecvF`. |
| HttpFacts.DecimalInjective | ineturl.c:882 | Different numbers are written differently. |
| HttpFacts.SpelledAs | ineturl.c:548-570 | A written number compares equal, ignoring case, to the spelling of a status code exactly when it is that code. |
| HttpFacts.StatusFields | ineturl.c:545-546 | The code at offsets 9-11 and the minor version at offset 7 are read back from a status line. |
| HttpFacts.StatusOutcome | ineturl.c:545-588 | By code: 404 and 416 give up (-2) with NOT_FIND or OUT_RANGE. 301 is a redirect with length 0. 200 and 206 reset length, range and chunking and note partial. Anything else is HTTP_ERROR. The reason text never matters. |
| HttpFacts.FieldLine | ineturl.c:600-608 | A `name: value` line reaches the field handler with the name and value as written. |
| HttpFacts.FieldNames | ineturl.c:609-654 | The known field names are pairwise different, ignoring case. |
| HttpFacts.ContentLengthLine | ineturl.c:612-613 | `Content-Length: N` sets the length to N. |
| HttpFacts.RangeSpanOf | ineturl.c:634-639 | `A-B` gives the first and last byte. |
| HttpFacts.RangeSpecOf | ineturl.c:623-639 | `A-B/T` gives the first byte, the last byte and the total. |
| HttpFacts.ContentRangeOf | ineturl.c:616-645 | `bytes A-B/T` sets start A, end B and total T. |
| HttpFacts.ContentRangeLine | ineturl.c:616-645 | The same, read as a header line. |
| HttpFacts.ItemRangeRefused | ineturl.c:616-621 | A `Content-Range` value whose first five bytes are not `bytes`, in any case, is UNSUPPORT and returns -1, for every such value. |
| HttpFacts.ChunkedLine | ineturl.c:646-652 | A `Transfer-Encoding` of `identity`, in any case, turns chunked reading off. Every other value turns it on, starting from a size line. |
| HttpFacts.ConnectionLine | ineturl.c:654-660 | `Connection` keeps the connection alive exactly for `Keep-Alive`, in any case. |
| HttpFacts.BlankLine | ineturl.c:589-599 | The blank line ends the header. |
| HttpFacts.ApplyLineCodes | ineturl.c:519-669 | A header line returns 1, -1 or -2 and nothing else. Only the blank line moves on to the body. |
| HttpFacts.OkWithLength | ineturl.c:589-599 | `200` with `Content-Length: N` gives a body of N bytes, the range [0, N-1] of N. |
| HttpFacts.OkWithoutLength | ineturl.c:589-599 | `200` without a length gives a body that runs to the end of the connection. |
| HttpFacts.RedirectHasEmptyBody | ineturl.c:556-567 | `301` makes an empty range and an empty body. |
| HttpFacts.PartialWithRange | ineturl.c:589-599 | `206` with a range and a length keeps the announced range, with a body of N bytes. |
| HttpFacts.OkChunked | ineturl.c:646-650 | `200` chunked gives a chunked body of unknown size, read from its first size line. |
| HttpFacts.ChunkSizeLine | ineturl.c:723-726 | A chunk size written in hex reads back, whatever extension or line end follows it. |
| HttpFacts.HostWithoutPort | ineturl.c:420-441 | A plain host connects to port 80 and is its own `Host` value. |
| HttpFacts.HostWithPort | ineturl.c:420-441 | `name:port` connects to that port. The `Host` value drops the port only when it is 80. |
| HttpFacts.LinesReadBack | ineturl.c:496-500 | Header lines without line feeds read back one by one, each with its CRLF. |
| HttpFacts.RequestLinesNoLF | ineturl.c:858-890 | The request lines hold no line feed when the URL, host and extra text hold none. |
| HttpFacts.HeaderReadsBack | ineturl.c:502-507 | Header lines followed by the blank line read back as those lines, then the blank line. |
| HttpFacts.RequestReadsBack | ineturl.c:836-907 | A request's bytes read back as its lines, the blank line, then the body. |
| HttpFacts.PostLengthMatchesBody | ineturl.c:879-893 | A POST's `Content-Length`, read by the same header parser, equals the number of body bytes queued. |
| HttpFacts.GetHasNoBody | ineturl.c:858-868 | A GET announces no length and queues no body. |
| UrlUtil.SplitProtocol | ineturl.c:1019-1028 | The protocol is the text before the first `://`, or `http` when there is none. |
| UrlUtil.SplitHostPath | ineturl.c:1030-1040 | The host runs up to the first `/` after the scheme, and the path is the rest. Without a `/`, the host is everything and the path is `/`. |
| UrlUtil.AbsUrlAbsolute | ineturl.c:965-969 | A reference starting with `http://` is kept as it is. |
| UrlUtil.AbsUrlRooted | ineturl.c:970-979 | A rooted reference replaces the base's path (from the first `/` at offset 7 or later), or is appended when the base has none. |
| UrlUtil.AbsUrlRelative | ineturl.c:980-994 | Any other reference replaces what follows the base's last `/` at offset 7 or later. Otherwise it is joined to the base with a `/`. |
| UrlUtil.SplitHttpHost | ineturl.c:1009-1042 | For an `http://` URL, the host is the text from offset 7 up to the first `/`. |
| UrlUtil.AbsUrlKeepsOrigin | ineturl.c:954-997 | A redirect to a reference that is not absolute stays on the base's protocol and host. |
| UrlUtil.AbsUrlRootedPath | ineturl.c:970-979 | A rooted reference becomes the whole path of the result. |
| UrlUtil.NoSchemeWithoutColon | ineturl.c:1020-1026 | A URL without `:` has no scheme. |
| UrlUtil.SplitExampleFull | ineturl.c:1009-1042 | `http://host:80/path` splits into `http`, `host:80` and `/path`. |
| UrlUtil.SplitExampleNoScheme | ineturl.c:1009-1042 | `host/path` splits into `http`, `host` and `/path`. |
| UrlUtil.SplitExampleHostOnly | ineturl.c:1009-1042 | `host` splits into `http`, `host` and `/`. |
| UrlUtil.AbsUrlExampleRelative | ineturl.c:980-994 | `z` against `http://a.com/x/y` gives `http://a.com/x/z`. |
| UrlUtil.AbsUrlExampleRooted | ineturl.c:970-979 | `/z` against `http://a.com/x/y` gives `http://a.com/z`. |
| UrlUtil.AbsUrlExampleAbsolute | ineturl.c:965-969 | An absolute reference is taken as it is. |
| Engine.ReadHeaderKeeps | ineturl.c:519-531 | `ihttplib_read_header` reads exactly the next line, however its bytes arrive. What it consumed plus what it holds is what it had to read, and the line buffer never holds a line feed. |
| Engine.ReadHeaderLine | ineturl.c:533-669 | A complete line is parsed by `ApplyLine` and appended, stripped, to the header text, and the line buffer is emptied. |
| Engine.ReadHeaderPartial | ineturl.c:524-530 | A would-block returns 0 and keeps the fields with the socket open. A close reads everything left, sets NOT_COMPLETED and returns -1. |
| Engine.HeaderLoopKeeps | ineturl.c:785-806 | The header loop consumes whole lines, and the line buffer never holds a line feed. |
| Engine.HeaderLoopParses | ineturl.c:785-806 | The header loop parses, in order, exactly the lines it consumed. If it goes on, every line was accepted and the fields are what `ApplyLines` gives. It stops waiting in the header phase, or after the blank line with the window armed to the body size. When it gives up it returns to waiting, with NOTFIND only after a 404. |
| Engine.UnchunkedReads | ineturl.c:672-706 | The bounded read hands over the next bytes of the stream, 1 to `size` with a count and none otherwise. It never returns NOTFIND or ERROR. |
| Engine.UnchunkedCloses | ineturl.c:683-700 | A closed window stops the engine and returns to waiting. It is DONE exactly when the close counts as the end of the body (an error with no length on HTTP/1.0, or no length and no range), and CLOSED with NOT_COMPLETED otherwise. A used-up window is DONE. |
| Engine.LineReads | ineturl.c:716-721 | A chunk-framing line is the response's next line when complete, and nothing otherwise. |
| Engine.ChunkHeadReads | ineturl.c:715-729 | A complete size line sets `chunksize` (hex, up to the first space) and arms the window to exactly that many bytes. The chunk's bytes come next. |
| Engine.ChunkTailReads | ineturl.c:742-755 | After a chunk's bytes the line is dropped. The body ends after the zero-size chunk; otherwise the next size line follows. |
| Engine.ChunkHeadArms | ineturl.c:723-728 | A size line written `Hex(n)` arms the window to exactly n. |
| Engine.ChunkedReads | ineturl.c:709-765 | On any bytes, the chunk reader delivers the body bytes in stream order, behind the framing it consumed. It keeps its line buffer in order and never returns NOTFIND or ERROR. On the coding of a payload, `BodyFacts.ChunkRoundTrip` gives the round trip. |
| Engine.RecvBodyReads | ineturl.c:807-823 | The body part of `ihttplib_recv` delivers the body in order, and returns to waiting on DONE. |
| Engine.RecvReads | ineturl.c:773-826 | `ihttplib_recv` consumes, in order, header lines, framing and the body bytes it hands over, and nothing else. A count is 1 to `size`. DONE, NOTFIND and ERROR return to waiting, and NOTFIND comes only after a 404. |
| Engine.OpenConnects | ineturl.c:408-467 | `ihttplib_open` keeps the `Host` text of the split name. It returns -1 exactly when the name is not an address, and -2 exactly when the socket cannot be made. Success starts connecting with empty queues and waits for a response; failure leaves the engine stopped and closed. |
| Engine.HeaderWriteLines | ineturl.c:496-500 | Lines written onto a reset header text give exactly those lines, each ended by CRLF. |
| Engine.RequestQueues | ineturl.c:836-907 | `ihttplib_request` refuses exactly a GET with a positive size, changing nothing. Otherwise the header text is exactly the request's lines, and on an open socket the bytes queued or sent grow by exactly the request (header, blank line, body). Only the header text and the socket change. |
| Engine.SendQueues | ineturl.c:502-513 | The header text, the blank line and the body are queued in turn. |
| Engine.UpdatePolls | ineturl.c:476-489 | `ihttplib_update` conserves the queued-or-sent bytes, never lets the socket offer more, and changes only the socket. With a wait, the poll watches input and errors, and writability exactly while bytes are queued or the connect is in progress. |
| Engine.HttpLib.constructor | ineturl.c:357-389 | `ihttplib_new` makes an engine that is stopped and waiting, not chunked, with empty texts (host, headers, line buffer and content type) and a new closed socket. |
| Engine.HttpLib.Open | ineturl.c:408-467 | Exactly as `OpenF`. |
| Engine.HttpLib.Close | ineturl.c:469-474 | Closes the socket and stops the engine. |
| Engine.HttpLib.Update | ineturl.c:476-489 | Exactly as `UpdateF`, returning the state. |
| Engine.HttpLib.HeaderReset | ineturl.c:491-494 | Empties the header text. |
| Engine.HttpLib.HeaderWrite | ineturl.c:496-500 | Appends the line and CRLF. |
| Engine.HttpLib.HeaderSend | ineturl.c:502-507 | Queues the header text and the blank line. |
| Engine.HttpLib.Send | ineturl.c:509-513 | Queues the data and returns what is left to send. |
| Engine.HttpLib.Request | ineturl.c:836-907 | Writes the lines one by one, exactly as `RequestF`. |
| Engine.HttpLib.WriteGetLines | ineturl.c:858-868 | Writes the GET lines. |
| Engine.HttpLib.WritePostLines | ineturl.c:870-890 | Writes the POST lines. |
| Engine.HttpLib.ReadHeader | ineturl.c:519-669 | Exactly as `ReadHeaderF`. |
| Engine.HttpLib.HeaderLoop | ineturl.c:785-806 | The header loop, proved against `HeaderLoopF`. |
| Engine.HttpLib.ReadUnchunked | ineturl.c:672-706 | Exactly as `ReadUnchunkedF`. |
| Engine.HttpLib.ReadChunked | ineturl.c:709-765 | The chunk loop, proved against `ReadChunkedF`. |
| Engine.HttpLib.Recv | ineturl.c:773-826 | Exactly as `RecvF`. |
| BodyFacts.EncodeSizeLine | ineturl.c:715-729 | The chunked coding starts with one complete line: the first chunk's size in hexadecimal, or 0 when there are no chunks, then CRLF. |
| BodyFacts.SizeLineReads | ineturl.c:723-726 | The size line written for n reads back as n. |
| BodyFacts.HeadLine | ineturl.c:715-729 | On the coding, the size-line read never meets a close. It either waits, keeping its place, or reads the whole line and arms the window to exactly the first chunk, with that chunk's bytes next. |
| BodyFacts.TailLine | ineturl.c:742-755 | On the coding, the CRLF after a chunk never meets a close. It either waits, keeping its place, or reads it. The next size line follows, or the end of the body after the zero-size chunk. |
| BodyFacts.DataRead | ineturl.c:733-740 | On the coding, a chunk's bytes come out in order through the bounded read, never more than are left. It is DONE exactly when none are left, and the CRLF then follows. |
| BodyFacts.DecodeStep | ineturl.c:709-765 | One call of `ihttplib_read_chunked` from any point of the coding never meets a close. A count hands over the next 1 to `size` bytes of the payload. DONE comes only with the whole payload out and exactly the bytes after the coding unread. Otherwise the reader stands at the point of the coding where the rest of the payload is left. |
| BodyFacts.RecvInBody | ineturl.c:773-823 | In the body phase with nothing left to send, `ihttplib_recv` is exactly its body reader. |
| BodyFacts.DecodeRecv | ineturl.c:807-823 | One `ihttplib_recv` call on a chunked body does what the chunk reader does, and DONE returns to waiting. |
| BodyFacts.DecodeRun | ineturl.c:709-823 | Successive `ihttplib_recv` calls from any point of the coding never meet a close. The bytes handed over begin the payload left. DONE comes only once all of it is out, back to waiting with exactly the bytes after the coding unread. |
| BodyFacts.ChunkRoundTrip | ineturl.c:709-823 | Any payload, cut into non-empty chunks, coded and followed by any bytes, comes back out exactly. The bytes handed over are always a prefix of the payload, no close is met, and DONE comes only with the whole payload out and the bytes after the coding unread. |
| BodyFacts.CountStep | ineturl.c:672-706 | One call on a `Content-Length` body: a count of the next 1 to `size` bytes of the body, or AGAIN, or DONE. DONE comes exactly when none of the body is left, back to waiting with the bytes after it unread. No close is met. |
| BodyFacts.LengthRoundTrip | ineturl.c:672-823 | Successive calls on a body of N bytes hand over a prefix of exactly those N bytes and never a byte beyond them. No close is met, and DONE comes only once all N are out, back to waiting with the bytes after the body unread. |
| BodyFacts.HeaderLoopSendQ | ineturl.c:785-806 | The header loop leaves the send queue alone. |
| BodyFacts.HeaderThenBody | ineturl.c:785-823 | A call whose header loop reaches the body goes on, in the same call, exactly as a call made in the body phase. |
| BodyFacts.RunFromHeader | ineturl.c:773-823 | A run starting with the call that completes the header is, for the body, the run from the body phase. |
| BodyFacts.LengthAfterHeader | ineturl.c:785-823 | From the call that completes a header announcing `Content-Length: N`, the bytes the calls hand over are always a prefix of the N bytes after the header, never more. DONE comes only once all N are out, with the bytes after them unread. |
| BodyFacts.ChunkedAfterHeader | ineturl.c:785-823 | From the call that completes a chunked header, the coded payload comes back out exactly, as in `ChunkRoundTrip`. |
| InetUrl.OpenOutcome | ineturl.c:1053-1139 | `ineturl_open` returns no handle exactly when the protocol is not `http`, the name it connects to (the proxy, else the host) is not an address, or the socket cannot be made. A handle has latch 0 and keeps the URL's host. It asks for the whole URL through a proxy and the path otherwise, with the origin as `Host` through a proxy. It starts connecting. |
| InetUrl.OpenSends | ineturl.c:1108-1127 | A new handle has queued exactly one request: the method line for its target, the fixed lines, `Connection: Close` plus the caller's text (stripped), the blank line and the POST body. The exception is a GET given a positive size without data: it is refused, the refusal is ignored, and nothing is sent. |
| InetUrl.CloseLineKept | ineturl.c:1115-1119 | Every request's extra header text starts with `Connection: Close`, even after stripping. |
| InetUrl.OpenGood | ineturl.c:1053-1139 | A handle opened on a new engine keeps the line discipline and a valid latch. |
| InetUrl.AsInt32 | ineturl.c:1194 | The `(IINT32)` cast of a 32-bit difference is the signed value congruent to it. |
| InetUrl.Elapsed | ineturl.c:1191-1196 | The time charged for a wait never exceeds the budget. |
| InetUrl.ReadLoopBounds | ineturl.c:1174-1211 | The read loop adds at most `size` bytes, and exactly `size` when it stops with a count. It marks DONE-after-bytes exactly when that happened, leaving the engine waiting. It stops on AGAIN only with no budget left. It never overspends a positive budget. |
| InetUrl.ReadBounds | ineturl.c:1160-1216 | `ineturl_read` returns a count exactly when it read bytes or was asked for none. It returns at most `size` bytes, never a zero count for a positive size, and no bytes with any other code. It keeps the handle's discipline and texts. |
| InetUrl.ReadAgainSpent | ineturl.c:1187-1200 | With a positive budget, AGAIN is returned only once the budget is spent. |
| InetUrl.ReadLatch | ineturl.c:1168-1171 | The end of the body is reported once. A latched handle returns DONE with no bytes and moves the latch to 2. A read that sets the latch returned bytes and left the engine waiting. A DONE without bytes leaves the latch alone. |
| InetUrl.WriteQueues | ineturl.c:1221-1228 | A write without data changes nothing. With data on an open socket, the bytes sent and queued grow by exactly the data, only the socket changes, and the result is what is still queued. |
| InetUrl.FlushMoves | ineturl.c:1232-1235 | A flush only moves queued bytes to the wire, in order. |
| InetUrl.UrlHandle.constructor | ineturl.c:1059-1068 | The handle around its engine, with its texts and latch 0. |
| InetUrl.UrlHandle.Read | ineturl.c:1160-1216 | Returns, and changes the handle, exactly as `ReadF`, and keeps it valid. |
| InetUrl.UrlHandle.Collect | ineturl.c:1174-1211 | The read loop, proved against `ReadLoop`. |
| InetUrl.UrlHandle.Write | ineturl.c:1221-1228 | Exactly as `WriteF`, and keeps the handle valid. |
| InetUrl.UrlHandle.Flush | ineturl.c:1232-1235 | Exactly as `FlushF`, and keeps the handle valid. |
| InetUrl.Open | ineturl.c:1053-1139 | Returns null exactly when `OpenF` refuses. Otherwise it returns a fresh, valid handle equal to `OpenF`'s. |

## Left out

- The operating system is a script (`Sock.Peer`). When its send script runs out, the send
  loop of `ihttpsock_try_send` stops, where the source would go on retrying an `isend` that
  would block.
- `isockaddr_set_ip_text` and the `socket()` call are the parameters `resolve` and
  `socketOk`. The address family, the port setting and `ipollfd` are not modelled, and
  `ihttplib_update` returns the set of events it would poll for instead of waiting.
- `iclock` is the sequence `ticks` of successive clock differences. A clock that has run out
  counts the whole remaining budget as spent, so the loop's termination does not depend on
  the clock.
- Memory allocation failures (`ikmem_malloc` returning NULL) are left out, and so are the
  buffer sizes and `ihttpsock_bufsize`. `ineturl_close`, `ihttplib_delete` and
  `ihttpsock_delete` only free memory and are left out.
- `ihttplib_getresponse` and `_demo_download` are callers of the core, not part of it, and
  are not part of this model.
- `ihttplib_dsize`, `ihttpsock_dsize`, `ihttpsock_poll` and `ihttpsock_sock` are one-line
  accessors. They appear as `DSize` functions or not at all.
- The integer constants of the header file are not part of this model. The codes are
  datatypes. `IHTTPSOCK_STATE_CLOSED` is taken to be a negative value distinct from the
  window codes, so `ihttplib_read_unchunked` maps it to the final CLOSED.
- Text.ParseInt: `istrtol`/`istrtoll` are modelled without overflow. Integers are unbounded,
  and the 32-bit `long` and `int` widths of sizes and ports are not modelled.
- Text.Sub: `it_strsub` is taken to clamp out-of-range bounds.
- The fields `snext` and `shutdown` are written by `ihttplib_open` and never read by the
  core, so they are left out. Redirects are not followed.
- Fields that the C constructors leave uninitialised are unconstrained in the classes.
- NULL `HEADER`, `data` and `proxy` pointers are `None`. The protocol check is `it_strcmpc`
  with case distinction, modelled as equality.
- InetUrl.UrlHandle.Read, Engine.HttpLib.Recv and Sock.HttpSock.Recv: the size is a `nat`.
  With a negative size and bytes queued, the recv loop of `ihttpsock_recv` caps each read
  to the negative `remain`, copies nothing and never leaves the loop (ineturl.c:199-211).
  That non-terminating case is not modelled.
- BodyFacts.LengthRoundTrip, BodyFacts.ChunkRoundTrip and the lemmas built on them assume
  nothing is left to send. With bytes queued, a call first runs `ihttpsock_update`, which may
  find the socket closed and drop the bytes not yet read.
- BodyFacts.ChunkRoundTrip: the coding has no chunk extensions and no trailer fields, and
  every chunk before the last holds at least one byte.
- BodyFacts.LengthRoundTrip and BodyFacts.ChunkRoundTrip state safety, not liveness. A run
  may keep returning AGAIN while the descriptor would block, so DONE is not promised within
  any number of calls. Each call on a plain body is DONE exactly when the body is used up.
- InetUrl.UrlHandle.Write: the size written is the length of the data given. A size larger
  than the buffer cannot be expressed.
- InetUrl.OpenF: the answer of `ihttplib_request` is ignored, as in the source. A GET given a
  positive size without data therefore yields a handle with nothing to send.

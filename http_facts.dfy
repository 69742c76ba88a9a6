/** What the header parser, the chunk-size reader, the host splitter and the request builder
    of `IHTTPLIB` do with well-formed text: the values they extract are the values written,
    whole response headers leave the fields the body reader relies on, and a request reads
    back line by line. */
module HttpFacts {
  import opened Text
  import opened Http

  // ---------------------------------------------------------------------------------
  // Decimal spellings

  predicate DecimalDigits(a: seq<Byte>)
  {
    forall i :: 0 <= i < |a| ==> DigitValue(a[i]) < 10
  }

  /** Strings of decimal digits are equal up to case only when they are equal. */
  lemma DigitsEqI(a: seq<Byte>, b: seq<Byte>)
    requires DecimalDigits(a) && DecimalDigits(b)
    ensures EqI(a, b) <==> a == b
  {
    if EqI(a, b) {
      forall i | 0 <= i < |a|
        ensures a[i] == b[i]
      {
        assert Lower(a[i]) == a[i] && Lower(b[i]) == b[i];
      }
    }
  }

  lemma DecimalInjective(m: nat, n: nat)
    ensures Decimal(m) == Decimal(n) <==> m == n
  {
    if Decimal(m) == Decimal(n) {
      DigitsToIntOf(m, 10);
      DigitsToIntOf(n, 10);
    }
  }

  lemma ThreeDigits(n: nat)
    requires 100 <= n < 1000
    ensures |Decimal(n)| == 3
  {
    var q := Quot(n, 10);
    var q2 := Quot(q, 10);
    assert ToDigits(q, 10) == ToDigits(q2, 10) + [DigitChar(q - q2 * 10)];
  }

  /** The spellings of the numbers the engine compares against. */
  lemma Spellings()
    ensures Decimal(200) == "200" && Decimal(206) == "206" && Decimal(301) == "301"
    ensures Decimal(404) == "404" && Decimal(416) == "416" && Decimal(80) == "80"
  {
    assert ToDigits(2, 10) == "2" && ToDigits(20, 10) == "20";
    assert ToDigits(3, 10) == "3" && ToDigits(30, 10) == "30";
    assert ToDigits(4, 10) == "4" && ToDigits(40, 10) == "40" && ToDigits(41, 10) == "41";
    assert ToDigits(8, 10) == "8";
  }

  /** A number is spelled like one of those exactly when it is that number. */
  lemma SpelledAs(n: nat, k: nat, lit: seq<Byte>)
    requires lit == Decimal(k)
    ensures EqI(Decimal(n), lit) <==> n == k
  {
    DigitsEqI(Decimal(n), lit);
    DecimalInjective(n, k);
  }

  // ---------------------------------------------------------------------------------
  // Status lines

  /** `HTTP/1.<minor> <code><tail>`. */
  function StatusText(minor: nat, code: nat, tail: seq<Byte>): seq<Byte>
    requires minor < 10
  {
    "HTTP/1." + [DigitChar(minor)] + " " + Decimal(code) + tail
  }

  /** The status code and minor version read from fixed offsets are the ones written, and the
      line is taken for a status line. */
  lemma StatusFields(h: Head, minor: nat, code: nat, tail: seq<Byte>)
    requires minor < 10 && 100 <= code < 1000
    ensures var l := StatusText(minor, code, tail);
      && ApplyLine(h, l) == StatusLine(h, l)
      && StatusCode(l) == Decimal(code) && MinorVersion(l) == minor
  {
    var l := StatusText(minor, code, tail);
    ThreeDigits(code);
    assert Sub(l, 0, 7) == "HTTP/1.";
    assert Sub(l, 9, 12) == Decimal(code);
    assert Sub(l, 7, 8) == ToDigits(minor, 10) + [];
    ParseIntOf(minor, 10, []);
    StripKeeps(Decimal(code), Delim);
  }

  /** The fields a `200` or `206` status line leaves: no length, range or chunking yet. */
  function AfterOk(h: Head, minor: nat, partial: bool): Head
  {
    h.(chunked := false, clength := -1, chunksize := -1, datasize := -1, rangeStart := -1,
       rangeEndup := -1, rangeSize := -1, partial := partial, httpver := minor, isredirect := false)
  }

  /** The fields a `301` status line leaves: a redirect whose length is 0. */
  function AfterRedirect(h: Head, minor: nat): Head
  {
    h.(chunked := false, clength := 0, chunksize := 0, datasize := 0, rangeStart := -1,
       rangeEndup := -1, rangeSize := -1, partial := false, httpver := minor, isredirect := true)
  }

  /** What a status line does, by code: 404 and 416 give up with their own outcomes, 301
      marks a redirect whose length is 0, 200 and 206 forget any earlier length, range and
      chunking and note whether the response is partial; any other code is an HTTP error.
      Only the code and the minor version matter, never the reason text after them. */
  lemma StatusOutcome(h: Head, minor: nat, code: nat, tail: seq<Byte>)
    requires minor < 10 && 100 <= code < 1000
    ensures var r := ApplyLine(h, StatusText(minor, code, tail));
      && (code == 404 ==> r == (h.(result := NotFind), -2))
      && (code == 416 ==> r == (h.(result := OutRange), -2))
      && (code == 301 ==> r == (AfterRedirect(h, minor), 1))
      && (code == 200 || code == 206 ==> r == (AfterOk(h, minor, code == 206), 1))
      && (code !in {200, 206, 301, 404, 416} ==> r == (h.(result := HttpError), -2))
  {
    StatusFields(h, minor, code, tail);
    Spellings();
    SpelledAs(code, 404, "404");
    SpelledAs(code, 416, "416");
    SpelledAs(code, 301, "301");
    SpelledAs(code, 200, "200");
    SpelledAs(code, 206, "206");
  }

  // ---------------------------------------------------------------------------------
  // Field lines

  /** A `name: value` line reaches the field handler with the name and value as written. */
  lemma FieldLine(h: Head, name: seq<Byte>, value: seq<Byte>)
    requires |name| >= 7 && !EqI(name[..7], "HTTP/1.")
    requires ':' !in name && name[0] !in Delim && name[|name| - 1] !in Delim
    requires value == [] || (value[0] !in Delim && value[|value| - 1] !in Delim)
    ensures ApplyLine(h, name + ": " + value) == HeaderField(h, name, value)
  {
    var l := name + ": " + value;
    assert l == name + [':'] + (" " + value);
    FindFirst(name, ':', " " + value);
    assert Sub(l, 0, 7) == name[..7];
    assert l[..|name|] == name;
    assert l[|name| + 1..] == " " + value;
    StripKeeps(name, Delim);
    StripAfterSpace(value);
  }

  /** The field names the engine knows differ from each other (they differ in length). */
  lemma FieldNames()
    ensures EqI("Content-Type", "Content-Type") && EqI("Content-Length", "Content-Length")
    ensures EqI("Content-Range", "Content-Range") && EqI("Transfer-Encoding", "Transfer-Encoding")
    ensures EqI("Connection", "Connection")
    ensures !EqI("Content-Length", "Content-Type")
    ensures !EqI("Content-Range", "Content-Type") && !EqI("Content-Range", "Content-Length")
    ensures !EqI("Transfer-Encoding", "Content-Type") && !EqI("Transfer-Encoding", "Content-Length")
    ensures !EqI("Transfer-Encoding", "Content-Range")
    ensures !EqI("Connection", "Content-Type") && !EqI("Connection", "Content-Length")
    ensures !EqI("Connection", "Content-Range") && !EqI("Connection", "Transfer-Encoding")
  {
    assert |"Connection"| == 10 && |"Content-Type"| == 12 && |"Content-Length"| == 14;
    assert |"Content-Range"| == 13 && |"Transfer-Encoding"| == 17;
  }

  lemma DecimalPlain(n: nat)
    ensures Decimal(n)[0] !in Delim && Decimal(n)[|Decimal(n)| - 1] !in Delim
    ensures DecimalDigits(Decimal(n))
  {
  }

  /** The line `Content-Length: N`. */
  function LengthField(n: nat): seq<Byte>
  {
    "Content-Length: " + Decimal(n)
  }

  /** `Content-Length: N` sets the length to N. */
  lemma ContentLengthLine(h: Head, n: nat)
    ensures ApplyLine(h, LengthField(n)) == (h.(clength := n), 1)
  {
    var name: seq<Byte> := "Content-Length";
    assert name + ": " + Decimal(n) == LengthField(n);
    assert Lower(name[0]) != Lower('H');
    DecimalPlain(n);
    FieldLine(h, name, Decimal(n));
    FieldNames();
    ParseIntOf(n, 10, []);
    assert Decimal(n) + [] == Decimal(n);
  }

  /** The value `bytes A-B/T` of a `Content-Range` line. */
  function RangeText(a: nat, b: nat, t: nat): seq<Byte>
  {
    "bytes " + Decimal(a) + "-" + Decimal(b) + "/" + Decimal(t)
  }

  /** `A-B` gives the first and the last byte. */
  lemma RangeSpanOf(h: Head, a: nat, b: nat)
    ensures RangeSpan(h, Decimal(a) + "-" + Decimal(b)) == (h.(rangeStart := a, rangeEndup := b), 1)
  {
    var da, db := Decimal(a), Decimal(b);
    var span := da + "-" + db;
    assert FindFrom(span, "-", 0) == |da| by {
      assert span == da + ['-'] + db;
      assert '-' !in da by {
        DecimalPlain(a);
        forall i | 0 <= i < |da| ensures da[i] != '-' { }
      }
      FindFirst(da, '-', db);
    }
    assert span[..|da|] == da && span[|da| + 1..] == db;
    assert ParseInt(da, 0) == a by {
      ParseIntOf(a, 10, []);
      assert da + [] == da;
    }
    assert ParseInt(db, 0) == b by {
      ParseIntOf(b, 10, []);
      assert db + [] == db;
    }
  }

  /** `A-B/T` gives the first byte, the last byte and the total. */
  lemma RangeSpecOf(h: Head, a: nat, b: nat, t: nat)
    ensures RangeSpec(h, Decimal(a) + "-" + Decimal(b) + "/" + Decimal(t))
         == (h.(rangeSize := t, rangeStart := a, rangeEndup := b), 1)
  {
    var da, db, dt := Decimal(a), Decimal(b), Decimal(t);
    var spec := da + "-" + db + "/" + dt;
    var span := da + "-" + db;
    assert spec == span + ['/'] + dt;
    assert '/' !in span by {
      DecimalPlain(a);
      DecimalPlain(b);
      forall i | 0 <= i < |span| ensures span[i] != '/' {
        if i < |da| { assert span[i] == da[i]; }
        else if i > |da| { assert span[i] == db[i - |da| - 1]; }
      }
    }
    FindFirst(span, '/', dt);
    assert spec[|span| + 1..] == dt && spec[..|span|] == span;
    DecimalPlain(t);
    StripKeeps(dt, Delim);
    ParseIntOf(t, 10, []);
    assert dt + [] == dt;
    RangeSpanOf(h.(rangeSize := t), a, b);
  }

  /** `bytes A-B/T` sets the first byte to A, the last to B and the total to T. */
  lemma ContentRangeOf(h: Head, a: nat, b: nat, t: nat)
    ensures ContentRange(h, RangeText(a, b, t)) == (h.(rangeStart := a, rangeEndup := b, rangeSize := t), 1)
  {
    var spec := Decimal(a) + "-" + Decimal(b) + "/" + Decimal(t);
    var v := RangeText(a, b, t);
    assert v == "bytes " + spec;
    assert Sub(v, 0, 5) == "bytes";
    assert Sub(v, 5, |v|) == " " + spec;
    DecimalPlain(a);
    DecimalPlain(t);
    assert spec[0] == Decimal(a)[0] && spec[|spec| - 1] == Decimal(t)[|Decimal(t)| - 1];
    StripAfterSpace(spec);
    RangeSpecOf(h, a, b, t);
  }

  /** The line `Content-Range: bytes A-B/T`. */
  function RangeField(a: nat, b: nat, t: nat): seq<Byte>
  {
    "Content-Range: " + RangeText(a, b, t)
  }

  /** `Content-Range: bytes A-B/T` as a header line. */
  lemma ContentRangeLine(h: Head, a: nat, b: nat, t: nat)
    ensures ApplyLine(h, RangeField(a, b, t)) == (h.(rangeStart := a, rangeEndup := b, rangeSize := t), 1)
  {
    var name: seq<Byte> := "Content-Range";
    assert name + ": " + RangeText(a, b, t) == RangeField(a, b, t);
    assert Lower(name[0]) != Lower('H');
    DecimalPlain(t);
    FieldLine(h, name, RangeText(a, b, t));
    FieldNames();
    ContentRangeOf(h, a, b, t);
  }

  /** A `Content-Range` value whose first five bytes are not `bytes` (in any case) is
      refused with -1, the code for a closed connection rather than for an HTTP error. */
  lemma ItemRangeRefused(h: Head, value: seq<Byte>)
    requires value == [] || (value[0] !in Delim && value[|value| - 1] !in Delim)
    requires !EqI(Sub(value, 0, 5), "bytes")
    ensures ApplyLine(h, "Content-Range: " + value) == (h.(result := Unsupport), -1)
  {
    var name: seq<Byte> := "Content-Range";
    assert name + ": " + value == "Content-Range: " + value;
    assert Lower(name[0]) != Lower('H');
    FieldLine(h, name, value);
    FieldNames();
  }

  const ChunkedField: seq<Byte> := "Transfer-Encoding: chunked"

  /** Any `Transfer-Encoding` other than `identity` (in any case) switches the body to
      chunked reading from a size line; `identity` switches it off. */
  lemma ChunkedLine(h: Head, value: seq<Byte>)
    requires value == [] || (value[0] !in Delim && value[|value| - 1] !in Delim)
    ensures ApplyLine(h, "Transfer-Encoding: " + value)
         == (if EqI(value, "identity") then (h.(chunked := false), 1)
             else (h.(chunked := true, cnext := ChunkHead), 1))
  {
    var name: seq<Byte> := "Transfer-Encoding";
    assert name + ": " + value == "Transfer-Encoding: " + value;
    assert Lower(name[0]) != Lower('H');
    FieldLine(h, name, value);
    FieldNames();
  }

  /** The usual `Transfer-Encoding: chunked` line. */
  lemma ChunkedFieldLine(h: Head)
    ensures ApplyLine(h, ChunkedField) == (h.(chunked := true, cnext := ChunkHead), 1)
  {
    var value: seq<Byte> := "chunked";
    assert "Transfer-Encoding: " + value == ChunkedField;
    assert !EqI(value, "identity") by {
      assert |value| != |"identity"|;
    }
    assert value[0] == 'c' && value[|value| - 1] == 'd';
    ChunkedLine(h, value);
  }

  /** `Connection: Keep-Alive` in any case keeps the connection; any other value does not. */
  lemma ConnectionLine(h: Head, value: seq<Byte>)
    requires value == [] || (value[0] !in Delim && value[|value| - 1] !in Delim)
    ensures ApplyLine(h, "Connection: " + value) == (h.(keepalive := EqI(value, "Keep-Alive")), 1)
  {
    var name: seq<Byte> := "Connection";
    assert name + ": " + value == "Connection: " + value;
    assert Lower(name[0]) != Lower('H');
    FieldLine(h, name, value);
    FieldNames();
  }

  /** The blank line ends the header. */
  lemma BlankLine(h: Head)
    ensures ApplyLine(h, []) == (EndOfHeader(h), 1)
  {
    assert Sub([], 0, 7) == [];
  }

  // ---------------------------------------------------------------------------------
  // Whole headers

  /** Header lines applied in order while each returns 1. */
  function ApplyLines(h: Head, ls: seq<seq<Byte>>): (Head, int)
    decreases |ls|
  {
    if ls == [] then (h, 1)
    else
      var r := ApplyLine(h, ls[0]);
      if r.1 != 1 then r else ApplyLines(r.0, ls[1..])
  }

  /** A header line is accepted (1) or refused with -1 or -2, nothing else; only the blank
      line moves on to the body. */
  lemma ApplyLineCodes(h: Head, l: seq<Byte>)
    ensures var r := ApplyLine(h, l).1; r == 1 || r == -1 || r == -2
    ensures var r := ApplyLine(h, l).0; r.rnext == h.rnext || (l == [] && r.rnext == PhaseData)
  {
    if EqI(Sub(l, 0, 7), "HTTP/1.") {
      assert ApplyLine(h, l) == StatusLine(h, l);
      StatusCodes(h, l);
    } else if |l| > 0 {
      var colon := FindFrom(l, ":", 0);
      if colon >= 0 {
        assert ApplyLine(h, l) == HeaderField(h, Strip(l[..colon], Delim), Strip(l[colon + 1..], Delim));
        FieldCodes(h, Strip(l[..colon], Delim), Strip(l[colon + 1..], Delim));
      }
    }
  }

  lemma StatusCodes(h: Head, l: seq<Byte>)
    ensures var r := StatusLine(h, l); (r.1 == 1 || r.1 == -2) && r.0.rnext == h.rnext
  {
  }

  lemma FieldCodes(h: Head, name: seq<Byte>, value: seq<Byte>)
    ensures var r := HeaderField(h, name, value); r.1 == 1 || r.1 == -1 || r.1 == -2
    ensures HeaderField(h, name, value).0.rnext == h.rnext
  {
    if !EqI(name, "Content-Type") && !EqI(name, "Content-Length") && EqI(name, "Content-Range") {
      RangeCodes(h, value);
    }
  }

  lemma RangeCodes(h: Head, value: seq<Byte>)
    ensures var r := ContentRange(h, value); r.1 == 1 || r.1 == -1 || r.1 == -2
    ensures ContentRange(h, value).0.rnext == h.rnext
  {
    if EqI(Sub(value, 0, 5), "bytes") {
      var spec := Strip(Sub(value, 5, |value|), Delim);
      assert ContentRange(h, value) == RangeSpec(h, spec);
      var slash := FindFrom(spec, "/", 0);
      if slash >= 0 {
        var h1 := h.(rangeSize := ParseInt(Strip(spec[slash + 1..], Delim), 0));
        assert RangeSpec(h, spec) == RangeSpan(h1, spec[..slash]);
        SpanCodes(h1, spec[..slash]);
      } else {
        assert RangeSpec(h, spec) == RangeSpan(h.(rangeSize := -1), spec);
        SpanCodes(h.(rangeSize := -1), spec);
      }
    }
  }

  lemma SpanCodes(h: Head, span: seq<Byte>)
    ensures var r := RangeSpan(h, span); (r.1 == 1 || r.1 == -2) && r.0.rnext == h.rnext
  {
  }

  lemma ApplyLinesCons(h: Head, l: seq<Byte>, ls: seq<seq<Byte>>)
    requires ApplyLine(h, l).1 == 1
    ensures ApplyLines(h, [l] + ls) == ApplyLines(ApplyLine(h, l).0, ls)
  {
    assert ([l] + ls)[0] == l && ([l] + ls)[1..] == ls;
  }

  /** A line that is accepted, then the blank line. */
  lemma Header2(h: Head, l0: seq<Byte>, h1: Head)
    requires ApplyLine(h, l0) == (h1, 1)
    ensures ApplyLines(h, [l0, ""]) == (EndOfHeader(h1), 1)
  {
    var blank: seq<Byte> := [];
    assert [l0, blank] == [l0] + [blank];
    ApplyLinesCons(h, l0, [blank]);
    assert [blank][1..] == [];
    BlankLine(h1);
  }

  /** Two accepted lines, then the blank line. */
  lemma Header3(h: Head, l0: seq<Byte>, l1: seq<Byte>, h1: Head, h2: Head)
    requires ApplyLine(h, l0) == (h1, 1) && ApplyLine(h1, l1) == (h2, 1)
    ensures ApplyLines(h, [l0, l1, ""]) == (EndOfHeader(h2), 1)
  {
    assert [l0, l1, ""] == [l0] + [l1, ""];
    ApplyLinesCons(h, l0, [l1, ""]);
    Header2(h1, l1, h2);
  }

  /** Three accepted lines, then the blank line. */
  lemma Header4(h: Head, l0: seq<Byte>, l1: seq<Byte>, l2: seq<Byte>, h1: Head, h2: Head, h3: Head)
    requires ApplyLine(h, l0) == (h1, 1) && ApplyLine(h1, l1) == (h2, 1) && ApplyLine(h2, l2) == (h3, 1)
    ensures ApplyLines(h, [l0, l1, l2, ""]) == (EndOfHeader(h3), 1)
  {
    assert [l0, l1, l2, ""] == [l0] + [l1, l2, ""];
    ApplyLinesCons(h, l0, [l1, l2, ""]);
    Header3(h1, l1, l2, h2, h3);
  }

  /** `200` with `Content-Length: N`: the body is N bytes, the range [0, N-1] of N. */
  lemma OkWithLength(h: Head, minor: nat, n: nat, tail: seq<Byte>)
    requires minor < 10
    ensures var r := ApplyLines(h, [StatusText(minor, 200, tail), LengthField(n), ""]);
      && r.1 == 1 && r.0.datasize == n && !r.0.nosize
      && r.0.rangeStart == 0 && r.0.rangeEndup == n - 1 && r.0.rangeSize == n
      && !r.0.chunked && !r.0.partial && !r.0.isredirect && r.0.httpver == minor
      && r.0.rnext == PhaseData && r.0.cnext == ChunkHead
  {
    var l0, l1 := StatusText(minor, 200, tail), LengthField(n);
    StatusOutcome(h, minor, 200, tail);
    var h1 := AfterOk(h, minor, false);
    ContentLengthLine(h1, n);
    Header3(h, l0, l1, h1, h1.(clength := n));
  }

  /** `200` without a length: the body runs to the end of the connection. */
  lemma OkWithoutLength(h: Head, minor: nat, tail: seq<Byte>)
    requires minor < 10
    ensures var r := ApplyLines(h, [StatusText(minor, 200, tail), ""]);
      && r.1 == 1 && r.0.nosize && r.0.datasize == Unbounded && r.0.clength == -1
      && r.0.rangeSize == -1 && !r.0.chunked && r.0.rnext == PhaseData
  {
    StatusOutcome(h, minor, 200, tail);
    Header2(h, StatusText(minor, 200, tail), AfterOk(h, minor, false));
  }

  /** `301`: the length is set to 0, so the end of the header makes an empty range and an
      empty body, whatever the response carries after it. */
  lemma RedirectHasEmptyBody(h: Head, minor: nat, tail: seq<Byte>)
    requires minor < 10
    ensures var r := ApplyLines(h, [StatusText(minor, 301, tail), ""]);
      && r.1 == 1 && r.0.isredirect && r.0.datasize == 0 && !r.0.nosize
      && r.0.rangeStart == 0 && r.0.rangeEndup == -1 && r.0.rangeSize == 0
      && r.0.rnext == PhaseData
  {
    var l0 := StatusText(minor, 301, tail);
    StatusOutcome(h, minor, 301, tail);
    Header2(h, l0, AfterRedirect(h, minor));
  }

  /** `206` with `Content-Range: bytes A-B/T` and `Content-Length: N`: a partial response
      keeping the range it announced, with a body of N bytes. */
  lemma PartialWithRange(h: Head, minor: nat, a: nat, b: nat, t: nat, n: nat, tail: seq<Byte>)
    requires minor < 10
    ensures var r := ApplyLines(h, [StatusText(minor, 206, tail), RangeField(a, b, t), LengthField(n), ""]);
      && r.1 == 1 && r.0.partial && r.0.rangeStart == a && r.0.rangeEndup == b
      && r.0.rangeSize == t && r.0.datasize == n && !r.0.nosize && r.0.rnext == PhaseData
  {
    var l0, l1, l2 := StatusText(minor, 206, tail), RangeField(a, b, t), LengthField(n);
    StatusOutcome(h, minor, 206, tail);
    var h1 := AfterOk(h, minor, true);
    ContentRangeLine(h1, a, b, t);
    var h2 := h1.(rangeStart := a, rangeEndup := b, rangeSize := t);
    ContentLengthLine(h2, n);
    Header4(h, l0, l1, l2, h1, h2, h2.(clength := n));
  }

  /** `200` with `Transfer-Encoding: chunked`: a chunked body of unknown size, read from its
      first chunk-size line. */
  lemma OkChunked(h: Head, minor: nat, tail: seq<Byte>)
    requires minor < 10
    ensures var r := ApplyLines(h, [StatusText(minor, 200, tail), ChunkedField, ""]);
      && r.1 == 1 && r.0.chunked && r.0.nosize && r.0.datasize == Unbounded
      && r.0.rnext == PhaseData && r.0.cnext == ChunkHead
  {
    var l0, l1 := StatusText(minor, 200, tail), ChunkedField;
    StatusOutcome(h, minor, 200, tail);
    var h1 := AfterOk(h, minor, false);
    ChunkedFieldLine(h1);
    Header3(h, l0, l1, h1, h1.(chunked := true, cnext := ChunkHead));
  }

  // ---------------------------------------------------------------------------------
  // Chunk-size lines

  /** Stripping a line that starts with a word of letters and digits keeps the word and
      some prefix of what follows it. */
  lemma StripAfterWord(d: seq<Byte>, ext: seq<Byte>)
    requires |d| > 0 && forall i :: 0 <= i < |d| ==> DigitValue(d[i]) < 36
    ensures var t := Strip(d + ext, Delim); |t| >= |d| && t == d + ext[..|t| - |d|]
  {
    var line := d + ext;
    assert line[0] == d[0];
    var tl := TrimLeft(line, Delim);
    assert tl == line;
    var t := TrimRight(tl, Delim);
    TrimRightSpec(line, Delim);
    assert line[|d| - 1] == d[|d| - 1] && DigitValue(d[|d| - 1]) < 36;
    assert |t| >= |d|;
    assert t == d + ext[..|t| - |d|];
  }

  /** Cutting such a line at its first space keeps the word and a prefix of the rest. */
  lemma CutAfterWord(d: seq<Byte>, e: seq<Byte>)
    requires |d| > 0 && forall i :: 0 <= i < |d| ==> DigitValue(d[i]) < 36
    ensures var t := d + e;
      var sp := FindFrom(t, " ", 0);
      var cut := if sp >= 0 then t[..sp] else t;
      |cut| >= |d| && cut == d + e[..|cut| - |d|]
  {
    var t := d + e;
    var sp := FindFrom(t, " ", 0);
    FindCharAt(t, ' ', 0);
    assert forall i :: 0 <= i < |d| ==> t[i] == d[i] && DigitValue(t[i]) < 36;
    assert sp < 0 || sp >= |d|;
  }

  /** A chunk size written in hexadecimal reads back, whatever follows it on the line
      (an extension after `;` or a space, the CRLF). */
  lemma ChunkSizeLine(n: nat, ext: seq<Byte>)
    requires ext == [] || DigitValue(ext[0]) == 36
    ensures ChunkSizeOf(Hex(n) + ext) == n
  {
    var d := Hex(n);
    var cut := ChunkWord(d + ext);
    WordCut(d, ext);
    var e2 := cut[|d|..];
    assert cut == d + e2;
    ParseIntOf(n, 16, e2);
  }

  /** A word of letters and digits followed by something else is cut right after the word,
      or later. */
  lemma WordCut(d: seq<Byte>, ext: seq<Byte>)
    requires |d| > 0 && forall i :: 0 <= i < |d| ==> DigitValue(d[i]) < 36
    requires ext == [] || DigitValue(ext[0]) == 36
    ensures var cut := ChunkWord(d + ext);
      |cut| >= |d| && cut[..|d|] == d && (|cut| == |d| || DigitValue(cut[|d|]) == 36)
  {
    StripAfterWord(d, ext);
    var t := Strip(d + ext, Delim);
    var e := ext[..|t| - |d|];
    CutAfterWord(d, e);
    var sp := FindFrom(t, " ", 0);
    var cut := if sp >= 0 then t[..sp] else t;
    var e2 := e[..|cut| - |d|];
    assert cut == d + e2;
    assert e2 == [] || e2[0] == ext[0];
  }

  // ---------------------------------------------------------------------------------
  // Host and port

  /** A plain host name connects to port 80 and is its own `Host` value. */
  lemma HostWithoutPort(name: seq<Byte>)
    requires ':' !in name && (name == [] || (name[0] !in Delim && name[|name| - 1] !in Delim))
    ensures HostSplit(name) == Endpoint(name, 80, name)
  {
    StripKeeps(name, Delim);
    FindCharAt(name, ':', 0);
    Spellings();
    ParseIntOf(80, 10, []);
    assert Decimal(80) + [] == "80";
  }

  lemma PortOf(name: seq<Byte>, port: nat)
    ensures WithPort(name, Decimal(port))
         == Endpoint(name, port, if port == 80 then name else name + ":" + Decimal(port))
  {
    ParseIntOf(port, 10, []);
    assert Decimal(port) + [] == Decimal(port);
  }

  /** `name:port` connects to that port; the `Host` value drops the port only when it is 80. */
  lemma HostWithPort(name: seq<Byte>, port: nat)
    requires ':' !in name && (name == [] || (name[0] !in Delim && name[|name| - 1] !in Delim))
    ensures var t := name + ":" + Decimal(port);
      HostSplit(t) == Endpoint(name, port, if port == 80 then name else t)
  {
    var dp := Decimal(port);
    var t := name + ":" + dp;
    DecimalPlain(port);
    assert t[|t| - 1] == dp[|dp| - 1];
    assert t[0] !in Delim by {
      if name == [] { assert t[0] == ':'; } else { assert t[0] == name[0]; }
    }
    StripKeeps(t, Delim);
    assert t == name + [':'] + dp;
    FindFirst(name, ':', dp);
    assert t[..|name|] == name && t[|name| + 1..] == dp;
    assert HostSplit(t) == WithPort(name, dp);
    PortOf(name, port);
  }

  // ---------------------------------------------------------------------------------
  // Requests

  /** The lines of a text, each with its line feed (the last one may lack it). */
  function SplitLines(x: seq<Byte>): seq<seq<Byte>>
    decreases |x|
  {
    if x == [] then [] else [LineOf(x)] + SplitLines(x[|LineOf(x)|..])
  }

  /** Lines with their CRLF. */
  function Terminated(ls: seq<seq<Byte>>): seq<seq<Byte>>
  {
    if ls == [] then [] else [Line(ls[0])] + Terminated(ls[1..])
  }

  lemma LineAhead(l: seq<Byte>, rest: seq<Byte>)
    requires NoLF(l)
    ensures LineOf(Line(l) + rest) == Line(l)
  {
    assert Line(l) + rest == l + ("\r\n" + rest);
    LineOfAfter(l, "\r\n" + rest);
    assert ("\r\n" + rest)[1..] == "\n" + rest;
    assert LineOf("\n" + rest) == "\n";
  }

  lemma SplitLinesAhead(l: seq<Byte>, rest: seq<Byte>)
    requires NoLF(l)
    ensures SplitLines(Line(l) + rest) == [Line(l)] + SplitLines(rest)
  {
    LineAhead(l, rest);
    assert (Line(l) + rest)[|Line(l)|..] == rest;
  }

  /** Header lines without line feeds read back one by one, each with its CRLF. */
  lemma {:induction false} LinesReadBack(ls: seq<seq<Byte>>, rest: seq<Byte>)
    requires forall i :: 0 <= i < |ls| ==> NoLF(ls[i])
    ensures SplitLines(Lines(ls) + rest) == Terminated(ls) + SplitLines(rest)
    decreases |ls|
  {
    if ls != [] {
      var l := Line(ls[0]);
      assert NoLF(ls[0]);
      assert forall i :: 0 <= i < |ls[1..]| ==> NoLF(ls[1..][i]) by {
        forall i | 0 <= i < |ls[1..]| ensures NoLF(ls[1..][i]) { assert ls[1..][i] == ls[i + 1]; }
      }
      calc {
        SplitLines(Lines(ls) + rest);
        SplitLines((l + Lines(ls[1..])) + rest);
        { AppendAssoc(l, Lines(ls[1..]), rest); }
        SplitLines(l + (Lines(ls[1..]) + rest));
        { SplitLinesAhead(ls[0], Lines(ls[1..]) + rest); }
        [l] + SplitLines(Lines(ls[1..]) + rest);
        { LinesReadBack(ls[1..], rest); }
        [l] + (Terminated(ls[1..]) + SplitLines(rest));
        ([l] + Terminated(ls[1..])) + SplitLines(rest);
        Terminated(ls) + SplitLines(rest);
      }
    } else {
      assert Lines(ls) + rest == rest;
      assert Terminated(ls) + SplitLines(rest) == SplitLines(rest);
    }
  }

  lemma NoLFJoin(a: seq<Byte>, b: seq<Byte>)
    requires NoLF(a) && NoLF(b)
    ensures NoLF(a + b)
  {
    forall i | |a| <= i < |a| + |b|
      ensures (a + b)[i] != '\n'
    {
      assert (a + b)[i] == b[i - |a|];
    }
  }

  /** None of the lines a request writes holds a line feed when its parts hold none. */
  lemma RequestLinesNoLF(m: Method, url: seq<Byte>, host: seq<Byte>, extra: seq<Byte>, bodysize: int)
    requires NoLF(url) && NoLF(host) && NoLF(extra)
    ensures var ls := RequestLines(m, url, host, extra, bodysize);
      forall i :: 0 <= i < |ls| ==> NoLF(ls[i])
  {
    var get: seq<Byte>, post: seq<Byte>, ver: seq<Byte>, hostName: seq<Byte>, length: seq<Byte>
      := "GET ", "POST ", " HTTP/1.1", "Host: ", "Content-Length: ";
    assert NoLF(get) && NoLF(post) && NoLF(ver) && NoLF(hostName) && NoLF(length) && NoLF(UserAgent);
    NoLFJoin(get, url);
    NoLFJoin(get + url, ver);
    NoLFJoin(post, url);
    NoLFJoin(post + url, ver);
    NoLFJoin(hostName, host);
    if bodysize >= 0 {
      assert NoLF(Decimal(bodysize));
      NoLFJoin(length, Decimal(bodysize));
    }
  }

  /** Header lines, the blank line, then any bytes: the lines read back with their CRLF,
      then the blank line, then the lines of what follows. */
  lemma HeaderReadsBack(ls: seq<seq<Byte>>, tail: seq<Byte>)
    requires forall i :: 0 <= i < |ls| ==> NoLF(ls[i])
    ensures SplitLines(Lines(ls) + ("\r\n" + tail)) == Terminated(ls) + ["\r\n"] + SplitLines(tail)
  {
    var x := "\r\n" + tail;
    assert SplitLines(x) == ["\r\n"] + SplitLines(tail) by {
      var blank: seq<Byte> := [];
      assert NoLF(blank);
      SplitLinesAhead(blank, tail);
      assert Line(blank) == "\r\n";
    }
    assert SplitLines(Lines(ls) + x) == Terminated(ls) + SplitLines(x) by {
      LinesReadBack(ls, x);
    }
    assert Terminated(ls) + (["\r\n"] + SplitLines(tail)) == Terminated(ls) + ["\r\n"] + SplitLines(tail) by {
      var t, b, r := Terminated(ls), ["\r\n"], SplitLines(tail);
      assert t + (b + r) == t + b + r;
    }
  }

  /** The header of a request reads back as its lines and then the blank line that ends it,
      with the body after it, when the URL, the host and the extra text hold no line feed. */
  lemma RequestReadsBack(m: Method, url: seq<Byte>, host: seq<Byte>, extra: seq<Byte>,
                         body: seq<Byte>, bodysize: int)
    requires m != OtherMethod && bodysize <= |body|
    requires NoLF(url) && NoLF(host) && NoLF(extra)
    ensures var ls := RequestLines(m, url, host, extra, bodysize);
      var tail := if m == Post && bodysize >= 0 then body[..bodysize] else [];
      && RequestBytes(m, url, host, extra, body, bodysize) == Lines(ls) + ("\r\n" + tail)
      && SplitLines(Lines(ls) + ("\r\n" + tail)) == Terminated(ls) + ["\r\n"] + SplitLines(tail)
  {
    var ls := RequestLines(m, url, host, extra, bodysize);
    var tail := if m == Post && bodysize >= 0 then body[..bodysize] else [];
    RequestLinesNoLF(m, url, host, extra, bodysize);
    AppendAssoc(Lines(ls), "\r\n", tail);
    HeaderReadsBack(ls, tail);
  }

  /** A POST with a size that is not negative announces exactly the number of body bytes it
      queues: its `Content-Length` line, read by this same header parser, gives that length. */
  lemma PostLengthMatchesBody(h: Head, url: seq<Byte>, host: seq<Byte>, extra: seq<Byte>,
                              body: seq<Byte>, bodysize: int)
    requires 0 <= bodysize <= |body|
    ensures var ls := RequestLines(Post, url, host, extra, bodysize);
      && |ls| >= 3 && ls[2] == "Content-Length: " + Decimal(bodysize)
      && ApplyLine(h, ls[2]).0.clength == |body[..bodysize]|
      && RequestBytes(Post, url, host, extra, body, bodysize) == Lines(ls) + "\r\n" + body[..bodysize]
  {
    ContentLengthLine(h, bodysize);
  }

  /** A GET announces no length and queues no body. */
  lemma GetHasNoBody(url: seq<Byte>, host: seq<Byte>, extra: seq<Byte>, body: seq<Byte>, bodysize: int)
    requires bodysize <= |body|
    ensures var ls := RequestLines(Get, url, host, extra, bodysize);
      && ls[..3] == ["GET " + url + " HTTP/1.1", "Host: " + host, UserAgent]
      && RequestBytes(Get, url, host, extra, body, bodysize) == Lines(ls) + "\r\n"
      && |ls| == (if |extra| > 0 then 4 else 3)
  {
  }
}

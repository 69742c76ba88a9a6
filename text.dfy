/** Text values and numbers as the core uses them: substrings, searches, stripping,
    case-insensitive comparison, the integer parser behind `istrtol`/`istrtoll`, and
    the decimal and hexadecimal renderings of numbers. */
module Text {

  /** One octet of the byte stream (a C `char`); header text is the same octets. */
  type Byte = c: char | c as int < 256

  datatype Option<+T> = None | Some(value: T)

  function Min(a: int, b: int): int { if a < b then a else b }

  /** The characters the core strips from both ends of header lines: CR, LF, TAB, SP. */
  const Delim: set<Byte> := {'\r', '\n', '\t', ' '}

  /** `it_strsub`: the part of `s` in [start, endup), both bounds clamped to `s`. */
  function Sub(s: seq<Byte>, start: int, endup: int): (r: seq<Byte>)
    ensures |r| <= |s|
    ensures 0 <= start <= endup <= |s| ==> r == s[start..endup]
    ensures 0 <= start <= |s| <= endup ==> r == s[start..]
  {
    var a := if start < 0 then 0 else if start > |s| then |s| else start;
    var b := if endup < a then a else if endup > |s| then |s| else endup;
    s[a..b]
  }

  /** `pat` occurs in `s` at position `i`. */
  predicate OccursAt(s: seq<Byte>, pat: seq<Byte>, i: int)
  {
    0 <= i && i + |pat| <= |s| && s[i..i + |pat|] == pat
  }

  /** `it_strfindc2`: the first position at or after `from` where `pat` occurs, or -1. */
  function FindFrom(s: seq<Byte>, pat: seq<Byte>, from: nat): (r: int)
    requires |pat| > 0
    ensures r == -1 || (from <= r && OccursAt(s, pat, r))
    decreases |s| - from
  {
    if from + |pat| > |s| then -1
    else if s[from..from + |pat|] == pat then from
    else FindFrom(s, pat, from + 1)
  }

  /** The search finds the first occurrence: none lies between `from` and the result, and
      none at all when the result is -1. */
  lemma {:induction false} FindFromFirst(s: seq<Byte>, pat: seq<Byte>, from: nat)
    requires |pat| > 0
    ensures var r := FindFrom(s, pat, from);
      forall i :: from <= i && (r == -1 || i < r) ==> !OccursAt(s, pat, i)
    decreases |s| - from
  {
    if from + |pat| <= |s| && s[from..from + |pat|] != pat {
      FindFromFirst(s, pat, from + 1);
    }
  }

  /** A single-character search reads the same as a search for the character itself. */
  lemma FindCharAt(s: seq<Byte>, c: Byte, from: nat)
    ensures var r := FindFrom(s, [c], from);
      (r == -1 <==> forall i :: from <= i < |s| ==> s[i] != c) &&
      (r >= 0 ==> from <= r < |s| && s[r] == c && forall i :: from <= i < r ==> s[i] != c)
  {
    var r := FindFrom(s, [c], from);
    FindFromFirst(s, [c], from);
    forall i | from <= i < |s| && (r == -1 || i < r)
      ensures s[i] != c
    {
      assert !OccursAt(s, [c], i);
      assert s[i..i + 1] == [s[i]];
    }
    if r >= 0 {
      assert OccursAt(s, [c], r);
      assert s[r..r + 1] == [s[r]];
    }
  }

  /** The first occurrence of a character that `x` does not hold is right after `x`. */
  lemma FindFirst(x: seq<Byte>, c: Byte, y: seq<Byte>)
    requires c !in x
    ensures FindFrom(x + [c] + y, [c], 0) == |x|
  {
    var s := x + [c] + y;
    FindCharAt(s, c, 0);
    assert s[|x|] == c;
    forall i | 0 <= i < |x|
      ensures s[i] != c
    {
      assert s[i] == x[i];
    }
  }

  /** `it_strfindr` for one character: the last position of `c` in `s`, or -1. */
  function FindLast(s: seq<Byte>, c: Byte): (r: int)
    ensures -1 <= r < |s|
    ensures r == -1 <==> c !in s
    ensures r >= 0 ==> s[r] == c && forall j :: r < j < |s| ==> s[j] != c
  {
    if s == [] then -1
    else if s[|s| - 1] == c then |s| - 1
    else
      var k := FindLast(s[..|s| - 1], c);
      assert forall j :: 0 <= j < |s| - 1 ==> s[..|s| - 1][j] == s[j];
      assert s == s[..|s| - 1] + [s[|s| - 1]];
      k
  }

  /** Drops the leading characters that belong to `cs`. */
  function TrimLeft(s: seq<Byte>, cs: set<Byte>): (r: seq<Byte>)
    ensures |r| <= |s|
  {
    if s == [] || s[0] !in cs then s else TrimLeft(s[1..], cs)
  }

  /** What `TrimLeft` keeps is a suffix that does not start with a character of `cs`, and
      everything it dropped is in `cs`. */
  lemma {:induction false} TrimLeftSpec(s: seq<Byte>, cs: set<Byte>)
    ensures var r := TrimLeft(s, cs);
      && r == s[|s| - |r|..]
      && (r == [] || r[0] !in cs)
      && forall i :: 0 <= i < |s| - |r| ==> s[i] in cs
  {
    if s != [] && s[0] in cs {
      TrimLeftSpec(s[1..], cs);
      var r := TrimLeft(s, cs);
      forall i | 1 <= i < |s| - |r|
        ensures s[i] in cs
      {
        assert s[i] == s[1..][i - 1];
      }
    }
  }

  /** Drops the trailing characters that belong to `cs`. */
  function TrimRight(s: seq<Byte>, cs: set<Byte>): (r: seq<Byte>)
    ensures |r| <= |s|
  {
    if s == [] || s[|s| - 1] !in cs then s else TrimRight(s[..|s| - 1], cs)
  }

  /** What `TrimRight` keeps is a prefix that does not end with a character of `cs`, and
      everything it dropped is in `cs`. */
  lemma {:induction false} TrimRightSpec(s: seq<Byte>, cs: set<Byte>)
    ensures var r := TrimRight(s, cs);
      && r == s[..|r|]
      && (r == [] || r[|r| - 1] !in cs)
      && forall i :: |r| <= i < |s| ==> s[i] in cs
  {
    if s != [] && s[|s| - 1] in cs {
      TrimRightSpec(s[..|s| - 1], cs);
      var r := TrimRight(s, cs);
      forall i | |r| <= i < |s| - 1
        ensures s[i] in cs
      {
        assert s[i] == s[..|s| - 1][i];
      }
    }
  }

  /** `it_strstrip`: drops characters of `cs` from both ends. */
  function Strip(s: seq<Byte>, cs: set<Byte>): seq<Byte>
  {
    TrimRight(TrimLeft(s, cs), cs)
  }

  /** Text that neither begins nor ends with a character of `cs` is left as it is. */
  lemma StripKeeps(s: seq<Byte>, cs: set<Byte>)
    requires s == [] || (s[0] !in cs && s[|s| - 1] !in cs)
    ensures Strip(s, cs) == s
  {
  }

  /** A separator in front of text that does not begin or end with one is stripped away. */
  lemma StripAfterSpace(s: seq<Byte>)
    requires s == [] || (s[0] !in Delim && s[|s| - 1] !in Delim)
    ensures Strip(" " + s, Delim) == s
  {
    assert (" " + s)[1..] == s;
    assert TrimLeft(" " + s, Delim) == TrimLeft(s, Delim) == s;
  }

  /** ASCII lower case, the folding `it_stricmpc` compares under. */
  function Lower(c: Byte): Byte
  {
    if 'A' <= c <= 'Z' then (c as int + 32) as char else c
  }

  /** `it_stricmpc(a, b) == 0`: equal up to ASCII case. */
  predicate EqI(a: seq<Byte>, b: seq<Byte>)
  {
    |a| == |b| && forall i :: 0 <= i < |a| ==> Lower(a[i]) == Lower(b[i])
  }

  /** The characters C's `isspace` accepts, which the integer parser skips first. */
  const Space: set<Byte> := {' ', '\t', '\n', '\r', '\U{0B}', '\U{0C}'}

  /** The value of a digit in bases up to 36, or 36 for any other character. */
  function DigitValue(c: Byte): (v: nat)
    ensures v <= 36
  {
    if '0' <= c <= '9' then c as int - '0' as int
    else if 'a' <= c <= 'z' then c as int - 'a' as int + 10
    else if 'A' <= c <= 'Z' then c as int - 'A' as int + 10
    else 36
  }

  /** The longest prefix of `s` made of digits of base `b`. */
  function DigitRun(s: seq<Byte>, b: nat): (r: seq<Byte>)
    ensures |r| <= |s| && r == s[..|r|]
    ensures forall i :: 0 <= i < |r| ==> DigitValue(r[i]) < b
    ensures |r| < |s| ==> DigitValue(s[|r|]) >= b
  {
    if s == [] || DigitValue(s[0]) >= b then []
    else [s[0]] + DigitRun(s[1..], b)
  }

  /** The number a run of digits of base `b` denotes, most significant first. */
  function DigitsToInt(d: seq<Byte>, b: nat): nat
  {
    if d == [] then 0 else DigitsToInt(d[..|d| - 1], b) * b + Min(DigitValue(d[|d| - 1]), b)
  }

  /** The base the C library picks for base 0: `0x` is hexadecimal, a leading `0` octal. */
  function EffectiveBase(u: seq<Byte>, base: nat): nat
  {
    if base != 0 then base
    else if HexPrefix(u) then 16
    else if |u| > 0 && u[0] == '0' then 8
    else 10
  }

  predicate HexPrefix(u: seq<Byte>)
  {
    |u| >= 2 && u[0] == '0' && (u[1] == 'x' || u[1] == 'X')
  }

  /** `istrtol`/`istrtoll`: leading white space, an optional sign, then the longest run of
      digits (after an optional `0x` in base 16); no digits at all read as 0. */
  function ParseInt(s: seq<Byte>, base: nat): int
  {
    var t := TrimLeft(s, Space);
    var neg := |t| > 0 && t[0] == '-';
    var u := if |t| > 0 && (t[0] == '-' || t[0] == '+') then t[1..] else t;
    var b := EffectiveBase(u, base);
    var digits := if b == 16 && HexPrefix(u) then u[2..] else u;
    var v: int := DigitsToInt(DigitRun(digits, b), b);
    if neg then -v else v
  }

  /** The digit character for a value below 16 (lower-case letters). */
  function DigitChar(d: nat): (c: Byte)
    requires d < 16
    ensures DigitValue(c) == d
  {
    if d < 10 then ('0' as int + d) as char else ('a' as int + d - 10) as char
  }

  /** Division by the base 10 or 16, kept linear for the verifier. */
  function Quot(n: nat, b: nat): (q: nat)
    requires b == 10 || b == 16
    ensures n >= b ==> 0 < q < n
    ensures q * b <= n < q * b + b
  {
    if b == 10 then n / 10 else n / 16
  }

  /** `n` written in base `b` without leading zeros ("0" for zero). */
  function ToDigits(n: nat, b: nat): (r: seq<Byte>)
    requires b == 10 || b == 16
    ensures |r| > 0
    ensures forall i :: 0 <= i < |r| ==> DigitValue(r[i]) < b
    ensures n > 0 ==> DigitValue(r[0]) != 0
    ensures n == 0 ==> r == "0"
  {
    if n < b then [DigitChar(n)] else ToDigits(Quot(n, b), b) + [DigitChar(n - Quot(n, b) * b)]
  }

  /** `iltoa(n, text, 10)`. */
  function Decimal(n: nat): seq<Byte> { ToDigits(n, 10) }

  /** The hexadecimal spelling of a chunk size. */
  function Hex(n: nat): seq<Byte> { ToDigits(n, 16) }

  lemma {:induction false} DigitsToIntOf(n: nat, b: nat)
    requires b == 10 || b == 16
    ensures DigitsToInt(ToDigits(n, b), b) == n
  {
    if n >= b {
      var d := ToDigits(n, b);
      assert d[..|d| - 1] == ToDigits(Quot(n, b), b);
      DigitsToIntOf(Quot(n, b), b);
    }
  }

  lemma {:induction false} DigitRunOf(d: seq<Byte>, rest: seq<Byte>, b: nat)
    requires forall i :: 0 <= i < |d| ==> DigitValue(d[i]) < b
    requires rest == [] || DigitValue(rest[0]) >= b
    ensures DigitRun(d + rest, b) == d
  {
    if d != [] {
      assert (d + rest)[1..] == d[1..] + rest;
      DigitRunOf(d[1..], rest, b);
    }
  }

  /** Text that starts with a letter or digit other than a `0x` prefix is read as one run of digits. */
  lemma ParseIntUnsigned(s: seq<Byte>, base: nat)
    requires |s| > 0 && DigitValue(s[0]) < 36 && !HexPrefix(s)
    ensures ParseInt(s, base) == DigitsToInt(DigitRun(s, EffectiveBase(s, base)), EffectiveBase(s, base))
  {
    assert TrimLeft(s, Space) == s by {
      assert s[0] !in Space;
    }
  }

  /** The first digit of a number's spelling is `0` only for zero itself. */
  lemma LeadingZero(n: nat, b: nat)
    requires b == 10 || b == 16
    ensures ToDigits(n, b)[0] == '0' <==> n == 0
  {
    var d := ToDigits(n, b);
    if d[0] == '0' { assert DigitValue(d[0]) == 0; }
  }

  /** Reading back a number written in base 10 (with base detection) or 16 gives the
      number, whatever non-alphanumeric text follows it. */
  lemma ParseIntOf(n: nat, b: nat, rest: seq<Byte>)
    requires b == 10 || b == 16
    requires rest == [] || DigitValue(rest[0]) == 36
    ensures ParseInt(ToDigits(n, b) + rest, if b == 10 then 0 else 16) == n
  {
    var d := ToDigits(n, b);
    var s := d + rest;
    var base := if b == 10 then 0 else 16;
    LeadingZero(n, b);
    assert s[0] == d[0];
    assert !HexPrefix(s) by {
      if n == 0 && |s| >= 2 { assert s[1] == rest[0]; }
    }
    var eb := EffectiveBase(s, base);
    assert eb == (if n == 0 && b == 10 then 8 else b);
    ParseIntUnsigned(s, base);
    DigitRunOf(d, rest, eb);
    if eb == 8 {
      assert d == "0" && d[..0] == [];
    } else {
      DigitsToIntOf(n, b);
    }
  }

  /** `x` holds no line feed. */
  predicate NoLF(x: seq<Byte>)
  {
    forall i :: 0 <= i < |x| ==> x[i] != '\n'
  }

  /** The text up to and including the first line feed, or all of it when there is none. */
  function LineOf(x: seq<Byte>): (r: seq<Byte>)
    ensures |r| <= |x| && r == x[..|r|]
    ensures forall i :: 0 <= i < |r| - 1 ==> r[i] != '\n'
    ensures (|r| > 0 && r[|r| - 1] == '\n') || (r == x && NoLF(x))
  {
    if x == [] then []
    else if x[0] == '\n' then [x[0]]
    else
      var t := LineOf(x[1..]);
      assert x == [x[0]] + x[1..];
      [x[0]] + t
  }

  /** Text without a line feed in front of a stream is part of the stream's first line. */
  lemma {:induction false} LineOfAfter(p: seq<Byte>, x: seq<Byte>)
    requires NoLF(p)
    ensures LineOf(p + x) == p + LineOf(x)
  {
    if p != [] {
      assert (p + x)[1..] == p[1..] + x;
      assert (p + x)[0] == p[0] != '\n';
      assert NoLF(p[1..]) by {
        forall i | 0 <= i < |p[1..]| ensures p[1..][i] != '\n' { assert p[1..][i] == p[i + 1]; }
      }
      LineOfAfter(p[1..], x);
      assert LineOf(p + x) == [p[0]] + LineOf(p[1..] + x);
      assert p == [p[0]] + p[1..];
      assert [p[0]] + (p[1..] + LineOf(x)) == p + LineOf(x);
    } else {
      assert p + x == x && p + LineOf(x) == LineOf(x);
    }
  }

  lemma AppendAssoc(a: seq<Byte>, b: seq<Byte>, c: seq<Byte>)
    ensures a + (b + c) == (a + b) + c
  {
    assert forall i :: 0 <= i < |a| + |b| + |c| ==> (a + (b + c))[i] == ((a + b) + c)[i];
  }
}

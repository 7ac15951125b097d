/**
 * The two functions of Python's urllib.parse that sprite names go through:
 * `quote` (with its default safe character "/") and `unquote` (UTF-8, errors
 * replaced), following section 2.1 of RFC 3986 for percent-encoding and the
 * unreserved set of its section 2.3.
 */
module UrlCodec {
  import opened Pixels

  /** Letters, digits and "_.-~": the unreserved characters of section 2.3 of RFC 3986. */
  predicate IsUnreserved(c: char) {
    ('A' <= c <= 'Z') || ('a' <= c <= 'z') || ('0' <= c <= '9') || c in "_.-~"
  }

  predicate IsAscii(c: char) {
    c as int < 0x80
  }

  const REPLACEMENT_CHARACTER: char := 0xFFFD as char

  /** An upper-case hexadecimal digit. */
  function HexDigit(n: int): (c: char)
    requires 0 <= n < 16
    ensures c in "0123456789ABCDEF"
  {
    "0123456789ABCDEF"[n]
  }

  predicate IsHexDigit(c: char) {
    ('0' <= c <= '9') || ('a' <= c <= 'f') || ('A' <= c <= 'F')
  }

  function HexValue(c: char): (n: int)
    requires IsHexDigit(c)
    ensures 0 <= n < 16
  {
    if '0' <= c <= '9' then c as int - '0' as int
    else if 'a' <= c <= 'f' then c as int - 'a' as int + 10
    else c as int - 'A' as int + 10
  }

  lemma HexDigitValue(n: int)
    requires 0 <= n < 16
    ensures IsHexDigit(HexDigit(n)) && HexValue(HexDigit(n)) == n
  {
  }

  // ---------------------------------------------------------------- UTF-8

  /** The UTF-8 encoding of one Unicode scalar value (1 to 4 bytes). */
  function Utf8Encode(c: char): (bs: seq<byte>)
    ensures 1 <= |bs| <= 4
    ensures (|bs| == 1) <==> IsAscii(c)
    ensures |bs| == 1 ==> bs[0] == c as int
    ensures |bs| > 1 ==> forall k :: 0 <= k < |bs| ==> bs[k] >= 0x80
  {
    var n := c as int;
    if n < 0x80 then [n]
    else if n < 0x800 then [0xC0 + n / 64, 0x80 + n % 64]
    else if n < 0x10000 then [0xE0 + n / 4096, 0x80 + (n / 64) % 64, 0x80 + n % 64]
    else [0xF0 + n / 0x40000, 0x80 + (n / 4096) % 64, 0x80 + (n / 64) % 64, 0x80 + n % 64]
  }

  /** The length of a well-formed sequence starting with lead byte `b`, or 0 when `b` cannot lead. */
  function SequenceLength(b: byte): (len: nat)
    ensures len <= 4
  {
    if b < 0x80 then 1
    else if 0xC2 <= b <= 0xDF then 2
    else if 0xE0 <= b <= 0xEF then 3
    else if 0xF0 <= b <= 0xF4 then 4
    else 0
  }

  /** Whether `b` may stand at position `k` (1..3) of a sequence led by `lead` (Unicode Table 3-7). */
  predicate ContinuesAt(lead: byte, k: nat, b: byte) {
    if k == 1 then
      (if lead == 0xE0 then 0xA0 else if lead == 0xF0 then 0x90 else 0x80) <= b
      && b <= (if lead == 0xED then 0x9F else if lead == 0xF4 then 0x8F else 0xBF)
    else 0x80 <= b <= 0xBF
  }

  /** How many bytes after the lead, up to `len - 1`, continue a well-formed sequence. */
  function ContinuationRun(bs: seq<byte>, len: nat, k: nat): (run: nat)
    requires 1 <= k && |bs| > 0
    ensures run == 0 || (k + run <= len && k + run <= |bs|)
    ensures forall m :: k <= m < k + run ==> m < |bs| && ContinuesAt(bs[0], m, bs[m])
    decreases len - k
  {
    if k >= len || k >= |bs| || !ContinuesAt(bs[0], k, bs[k]) then 0
    else 1 + ContinuationRun(bs, len, k + 1)
  }

  /** The scalar value of a complete well-formed sequence. */
  function Scalar(bs: seq<byte>): (c: char)
    requires 2 <= |bs| <= 4 && SequenceLength(bs[0]) == |bs|
    requires forall m :: 1 <= m < |bs| ==> ContinuesAt(bs[0], m, bs[m])
  {
    var b0, b1: int := bs[0], bs[1];
    assert ContinuesAt(bs[0], 1, bs[1]);
    if |bs| == 2 then ((b0 - 0xC0) * 64 + (b1 - 0x80)) as char
    else
      var b2: int := bs[2];
      assert ContinuesAt(bs[0], 2, bs[2]);
      if |bs| == 3 then ((b0 - 0xE0) * 4096 + (b1 - 0x80) * 64 + (b2 - 0x80)) as char
      else
        var b3: int := bs[3];
        assert ContinuesAt(bs[0], 3, bs[3]);
        ((b0 - 0xF0) * 0x40000 + (b1 - 0x80) * 4096 + (b2 - 0x80) * 64 + (b3 - 0x80)) as char
  }

  /**
   * `bytes.decode("utf-8", "replace")`: well-formed sequences become their scalar
   * values; each maximal ill-formed prefix becomes one U+FFFD.
   */
  function Utf8Decode(bs: seq<byte>): string
    decreases |bs|
  {
    if |bs| == 0 then []
    else
      var len := SequenceLength(bs[0]);
      if len == 0 then [REPLACEMENT_CHARACTER] + Utf8Decode(bs[1..])
      else if len == 1 then [bs[0] as char] + Utf8Decode(bs[1..])
      else
        var run := ContinuationRun(bs, len, 1);
        if run == len - 1 then [Scalar(bs[..len])] + Utf8Decode(bs[len..])
        else [REPLACEMENT_CHARACTER] + Utf8Decode(bs[1 + run..])
  }

  /** A run of continuation bytes that all fit reaches the end of the sequence. */
  lemma {:induction false} ContinuationRunFull(bs: seq<byte>, len: nat, k: nat)
    requires 1 <= k <= len <= |bs|
    requires forall m :: k <= m < len ==> ContinuesAt(bs[0], m, bs[m])
    ensures ContinuationRun(bs, len, k) == len - k
    decreases len - k
  {
    if k < len {
      ContinuationRunFull(bs, len, k + 1);
    }
  }

  /** A complete well-formed sequence at the front decodes to its scalar value. */
  lemma DecodeWellFormed(e: seq<byte>, rest: seq<byte>)
    requires 2 <= |e| <= 4 && SequenceLength(e[0]) == |e|
    requires forall m :: 1 <= m < |e| ==> ContinuesAt(e[0], m, e[m])
    ensures Utf8Decode(e + rest) == [Scalar(e)] + Utf8Decode(rest)
  {
    var bs := e + rest;
    assert bs[0] == e[0];
    assert forall m :: 1 <= m < |e| ==> bs[m] == e[m];
    ContinuationRunFull(bs, |e|, 1);
    assert bs[..|e|] == e && bs[|e|..] == rest;
  }

  /** The digits of a two-byte scalar value in base 64. */
  lemma Split2(n: int)
    requires 0x80 <= n < 0x800
    ensures 2 <= n / 64 < 32 && (n / 64) * 64 + n % 64 == n
  {
  }

  /** The digits of a three-byte scalar value. */
  lemma Split3(n: int)
    requires 0x800 <= n < 0x10000
    ensures var a, b, c := n / 4096, (n / 64) % 64, n % 64;
      && 0 <= a < 16 && 0 <= b < 64 && 0 <= c < 64
      && a * 4096 + b * 64 + c == n
      && (a == 0 ==> b >= 32)
      && (a == 13 ==> (b < 32 <==> n < 0xD800))
  {
    var q := n / 64;
    assert q * 64 + n % 64 == n;
    assert (q / 64) * 64 + q % 64 == q;
    assert q / 64 == n / 4096;
  }

  /** The digits of a four-byte scalar value. */
  lemma Split4(n: int)
    requires 0x10000 <= n < 0x110000
    ensures var a, b, c, d := n / 0x40000, (n / 4096) % 64, (n / 64) % 64, n % 64;
      && 0 <= a <= 4 && 0 <= b < 64 && 0 <= c < 64 && 0 <= d < 64
      && a * 0x40000 + b * 4096 + c * 64 + d == n
      && (a == 0 ==> b >= 16)
      && (a == 4 ==> b < 16)
  {
    var q := n / 64;
    var r := q / 64;
    assert q * 64 + n % 64 == n;
    assert r * 64 + q % 64 == q;
    assert (r / 64) * 64 + r % 64 == r;
    assert r == n / 4096 && r / 64 == n / 0x40000;
  }

  lemma Utf8DecodeEncode2(c: char, rest: seq<byte>)
    requires 0x80 <= c as int < 0x800
    ensures Utf8Decode(Utf8Encode(c) + rest) == [c] + Utf8Decode(rest)
  {
    var n := c as int;
    Split2(n);
    var e := Utf8Encode(c);
    assert e == [0xC0 + n / 64, 0x80 + n % 64];
    assert ContinuesAt(e[0], 1, e[1]);
    DecodeWellFormed(e, rest);
  }

  lemma Utf8DecodeEncode3(c: char, rest: seq<byte>)
    requires 0x800 <= c as int < 0x10000
    ensures Utf8Decode(Utf8Encode(c) + rest) == [c] + Utf8Decode(rest)
  {
    var n := c as int;
    assert n < 0xD800 || n >= 0xE000;
    Split3(n);
    var e := Utf8Encode(c);
    assert e == [0xE0 + n / 4096, 0x80 + (n / 64) % 64, 0x80 + n % 64];
    assert ContinuesAt(e[0], 1, e[1]) && ContinuesAt(e[0], 2, e[2]);
    DecodeWellFormed(e, rest);
  }

  lemma Utf8DecodeEncode4(c: char, rest: seq<byte>)
    requires 0x10000 <= c as int
    ensures Utf8Decode(Utf8Encode(c) + rest) == [c] + Utf8Decode(rest)
  {
    var n := c as int;
    Split4(n);
    var e := Utf8Encode(c);
    assert e == [0xF0 + n / 0x40000, 0x80 + (n / 4096) % 64, 0x80 + (n / 64) % 64, 0x80 + n % 64];
    assert ContinuesAt(e[0], 1, e[1]) && ContinuesAt(e[0], 2, e[2]) && ContinuesAt(e[0], 3, e[3]);
    DecodeWellFormed(e, rest);
  }

  /** Decoding undoes encoding, one character at a time. */
  lemma Utf8DecodeEncode(c: char, rest: seq<byte>)
    ensures Utf8Decode(Utf8Encode(c) + rest) == [c] + Utf8Decode(rest)
  {
    var n := c as int;
    if n < 0x80 {
      assert (Utf8Encode(c) + rest)[1..] == rest;
    } else if n < 0x800 {
      Utf8DecodeEncode2(c, rest);
    } else if n < 0x10000 {
      Utf8DecodeEncode3(c, rest);
    } else {
      Utf8DecodeEncode4(c, rest);
    }
  }

  // ---------------------------------------------------------------- quote

  /** `%XX` with two upper-case hex digits: section 2.1 of RFC 3986. */
  function PercentEncoded(b: byte): (s: string)
    ensures |s| == 3 && s[0] == '%' && IsHexDigit(s[1]) && IsHexDigit(s[2])
    ensures HexValue(s[1]) * 16 + HexValue(s[2]) == b
  {
    HexDigitValue(b / 16);
    HexDigitValue(b % 16);
    ['%', HexDigit(b / 16), HexDigit(b % 16)]
  }

  /** One byte of `quote`'s output: kept if unreserved or the safe "/", escaped otherwise. */
  function QuoteByte(b: byte): (s: string)
    ensures |s| == 1 ==> s[0] as int == b && s[0] != '%'
    ensures |s| != 1 ==> s == PercentEncoded(b)
  {
    if b < 0x80 && (IsUnreserved(b as char) || b as char == '/') then [b as char]
    else PercentEncoded(b)
  }

  function QuoteBytes(bs: seq<byte>): string {
    if |bs| == 0 then [] else QuoteByte(bs[0]) + QuoteBytes(bs[1..])
  }

  /** `urllib.parse.quote(s)`: the UTF-8 bytes of `s`, percent-encoded except the safe ones. */
  function Quote(s: string): string {
    if |s| == 0 then [] else QuoteBytes(Utf8Encode(s[0])) + Quote(s[1..])
  }

  // ---------------------------------------------------------------- unquote

  /** Every character of `s` is ASCII. */
  predicate AllAscii(s: string) {
    forall k :: 0 <= k < |s| ==> IsAscii(s[k])
  }

  /** `unquote_to_bytes`: the string's UTF-8 bytes, with `%XX` (two hex digits) replaced by byte XX. */
  function PercentDecode(s: string): seq<byte> {
    if |s| == 0 then []
    else if s[0] == '%' && |s| >= 3 && IsHexDigit(s[1]) && IsHexDigit(s[2]) then
      [HexValue(s[1]) * 16 + HexValue(s[2])] + PercentDecode(s[3..])
    else
      Utf8Encode(s[0]) + PercentDecode(s[1..])
  }

  /** The length of the longest prefix of `s` made of ASCII characters. */
  function AsciiRun(s: string): (n: nat)
    ensures n <= |s|
    ensures forall k :: 0 <= k < n ==> IsAscii(s[k])
    ensures n < |s| ==> !IsAscii(s[n])
  {
    if |s| == 0 || !IsAscii(s[0]) then 0 else 1 + AsciiRun(s[1..])
  }

  /** `unquote`'s general path: each maximal ASCII run is percent-decoded and read as UTF-8;
      other characters pass through. */
  function UnquoteRuns(s: string): string
    decreases |s|
  {
    if |s| == 0 then []
    else
      var n := AsciiRun(s);
      if n == 0 then [s[0]] + UnquoteRuns(s[1..])
      else Utf8Decode(PercentDecode(s[..n])) + UnquoteRuns(s[n..])
  }

  /** `urllib.parse.unquote(s)`: a string without "%" is returned as it is. */
  function Unquote(s: string): string {
    if '%' !in s then s else UnquoteRuns(s)
  }

  // ---------------------------------------------------------------- round trip

  lemma AllAsciiAppend(a: string, b: string)
    requires AllAscii(a) && AllAscii(b)
    ensures AllAscii(a + b)
  {
    forall k | 0 <= k < |a + b| ensures IsAscii((a + b)[k]) {
      if k >= |a| {
        assert (a + b)[k] == b[k - |a|];
      }
    }
  }

  lemma QuoteByteAscii(b: byte)
    ensures AllAscii(QuoteByte(b))
  {
    var h := QuoteByte(b);
    if |h| != 1 {
      assert h[1] in "0123456789ABCDEF" && h[2] in "0123456789ABCDEF";
    }
  }

  lemma {:induction false} QuoteBytesAscii(bs: seq<byte>)
    ensures AllAscii(QuoteBytes(bs))
  {
    if |bs| > 0 {
      QuoteByteAscii(bs[0]);
      QuoteBytesAscii(bs[1..]);
      AllAsciiAppend(QuoteByte(bs[0]), QuoteBytes(bs[1..]));
    }
  }

  /** `quote` only ever produces ASCII. */
  lemma {:induction false} QuoteAscii(s: string)
    ensures AllAscii(Quote(s))
  {
    if |s| > 0 {
      QuoteBytesAscii(Utf8Encode(s[0]));
      QuoteAscii(s[1..]);
      AllAsciiAppend(QuoteBytes(Utf8Encode(s[0])), Quote(s[1..]));
    }
  }

  /** A byte `quote` keeps decodes to itself. */
  lemma PercentDecodeKept(b: byte, rest: string)
    requires |QuoteByte(b)| == 1
    ensures PercentDecode(QuoteByte(b) + rest) == [b] + PercentDecode(rest)
  {
    var t := QuoteByte(b) + rest;
    assert t[0] != '%' && t[0] as int == b;
    assert Utf8Encode(t[0]) == [b];
    assert t[1..] == rest;
  }

  /** A byte `quote` escapes decodes back from its two hex digits. */
  lemma PercentDecodeEscaped(b: byte, rest: string)
    requires |QuoteByte(b)| != 1
    ensures PercentDecode(QuoteByte(b) + rest) == [b] + PercentDecode(rest)
  {
    var h := QuoteByte(b);
    var t := h + rest;
    assert h == PercentEncoded(b);
    assert t[0] == '%' && t[1] == h[1] && t[2] == h[2];
    assert t[3..] == rest;
  }

  lemma PercentDecodeQuoteByte(b: byte, rest: string)
    ensures PercentDecode(QuoteByte(b) + rest) == [b] + PercentDecode(rest)
  {
    if |QuoteByte(b)| == 1 {
      PercentDecodeKept(b, rest);
    } else {
      PercentDecodeEscaped(b, rest);
    }
  }

  lemma QuoteBytesCons(bs: seq<byte>, rest: string)
    requires |bs| > 0
    ensures QuoteBytes(bs) + rest == QuoteByte(bs[0]) + (QuoteBytes(bs[1..]) + rest)
  {
  }

  lemma {:induction false} PercentDecodeQuoteBytes(bs: seq<byte>, rest: string)
    ensures PercentDecode(QuoteBytes(bs) + rest) == bs + PercentDecode(rest)
  {
    if |bs| == 0 {
      assert QuoteBytes(bs) + rest == rest;
    } else {
      var t := QuoteBytes(bs[1..]) + rest;
      PercentDecodeQuoteBytes(bs[1..], rest);
      QuoteBytesCons(bs, rest);
      PercentDecodeQuoteByte(bs[0], t);
      ConsAppend(bs, PercentDecode(rest));
    }
  }

  lemma ConsAppend(bs: seq<byte>, tail: seq<byte>)
    requires |bs| > 0
    ensures [bs[0]] + (bs[1..] + tail) == bs + tail
  {
    assert bs == [bs[0]] + bs[1..];
  }

  lemma {:induction false} DecodeQuoted(s: string)
    ensures Utf8Decode(PercentDecode(Quote(s))) == s
  {
    if |s| > 0 {
      var e := Utf8Encode(s[0]);
      PercentDecodeQuoteBytes(e, Quote(s[1..]));
      DecodeQuoted(s[1..]);
      Utf8DecodeEncode(s[0], PercentDecode(Quote(s[1..])));
      assert s == [s[0]] + s[1..];
    }
  }

  lemma {:induction false} AsciiRunAll(s: string)
    requires AllAscii(s)
    ensures AsciiRun(s) == |s|
  {
    if |s| > 0 {
      AsciiRunAll(s[1..]);
    }
  }

  /** Without a "%", decoding an ASCII run gives the run back. */
  lemma {:induction false} DecodePlainAscii(s: string)
    requires AllAscii(s) && '%' !in s
    ensures Utf8Decode(PercentDecode(s)) == s
  {
    if |s| > 0 {
      assert s[0] != '%';
      assert '%' !in s[1..];
      DecodePlainAscii(s[1..]);
      var bs := PercentDecode(s);
      assert Utf8Encode(s[0]) == [s[0] as int];
      assert bs == [s[0] as int] + PercentDecode(s[1..]);
      assert SequenceLength(bs[0]) == 1;
      assert bs[1..] == PercentDecode(s[1..]);
      assert s == [s[0]] + s[1..];
    }
  }

  /** The ASCII run at the front of a string without "%": it decodes to itself. */
  lemma DecodePlainRun(s: string, n: nat)
    requires '%' !in s && n == AsciiRun(s)
    ensures '%' !in s[n..]
    ensures Utf8Decode(PercentDecode(s[..n])) == s[..n]
  {
    assert forall k :: 0 <= k < n ==> s[..n][k] == s[k];
    NoPercentSuffix(s, n);
    assert '%' !in s[..n];
    DecodePlainAscii(s[..n]);
  }

  lemma NoPercentSuffix(s: string, n: nat)
    requires '%' !in s && n <= |s|
    ensures '%' !in s[n..]
  {
  }

  lemma SplitAt(s: string, n: nat)
    requires n <= |s|
    ensures s[..n] + s[n..] == s
  {
  }

  /** The shortcut for strings without "%" agrees with the general path. */
  lemma {:induction false} UnquoteRunsPlain(s: string)
    requires '%' !in s
    ensures UnquoteRuns(s) == s
    decreases |s|
  {
    if |s| > 0 {
      var n := AsciiRun(s);
      if n == 0 {
        NoPercentSuffix(s, 1);
        UnquoteRunsPlain(s[1..]);
        SplitAt(s, 1);
        assert s[..1] == [s[0]];
      } else {
        DecodePlainRun(s, n);
        UnquoteRunsPlain(s[n..]);
        SplitAt(s, n);
      }
    }
  }

  lemma UnquoteIsRuns(s: string)
    ensures Unquote(s) == UnquoteRuns(s)
  {
    if '%' !in s {
      UnquoteRunsPlain(s);
    }
  }

  /** Round trip: `unquote(quote(s)) == s` for every string. */
  lemma {:induction false} UnquoteQuote(s: string)
    ensures Unquote(Quote(s)) == s
  {
    var q := Quote(s);
    UnquoteIsRuns(q);
    DecodeQuoted(s);
    QuoteAscii(s);
    if |q| > 0 {
      AsciiRunAll(q);
      assert q[..|q|] == q && q[|q|..] == [];
    }
  }
}

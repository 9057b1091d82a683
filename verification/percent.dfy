/** Percent-encoding as in section 2.1 of RFC 3986, the way
    `urllib.parse.quote` (default `safe='/'`, UTF-8) writes it and
    `urllib.parse.unquote` (UTF-8, `errors='replace'`) reads it back. */
module Percent {
  import opened Wrappers
  import Text
  import Utf8

  predicate IsHexDigit(c: char) {
    ('0' <= c <= '9') || ('a' <= c <= 'f') || ('A' <= c <= 'F')
  }

  function HexValue(c: char): (v: nat)
    requires IsHexDigit(c)
    ensures v < 16
  {
    if '0' <= c <= '9' then (c as int) - ('0' as int)
    else if 'a' <= c <= 'f' then (c as int) - ('a' as int) + 10
    else (c as int) - ('A' as int) + 10
  }

  /** The upper-case hex digit `quote` writes for `d`. */
  function HexDigit(d: nat): (c: char)
    requires d < 16
    ensures IsHexDigit(c) && HexValue(c) == d
  {
    if d < 10 then (('0' as int) + d) as char else (('A' as int) + d - 10) as char
  }

  /** The characters `quote` never escapes: ASCII letters and digits, `_.-~`. */
  predicate AlwaysSafe(c: char) {
    ('a' <= c <= 'z') || ('A' <= c <= 'Z') || ('0' <= c <= '9') || c == '_' || c == '.' || c == '-' || c == '~'
  }

  /** `quote`'s default safe set adds `/`. */
  predicate QuoteSafe(c: char) {
    AlwaysSafe(c) || c == '/'
  }

  /** One byte as `quote_from_bytes` writes it: a safe ASCII character as
      itself, any other byte as `%XX`. */
  function QuoteByte(b: byte): (s: string)
    ensures s == [b as char] || (|s| == 3 && s[0] == '%')
  {
    if b < 128 && QuoteSafe(b as char) then [b as char]
    else ['%', HexDigit(b / 16), HexDigit(b % 16)]
  }

  /** `urllib.parse.quote_from_bytes(bs)`. */
  function QuoteBytes(bs: seq<byte>): string
    decreases |bs|
  {
    if |bs| == 0 then "" else QuoteByte(bs[0]) + QuoteBytes(bs[1..])
  }

  /** `urllib.parse.quote(s)`: the UTF-8 bytes of `s`, quoted. */
  function Quote(s: string): string {
    QuoteBytes(Utf8.Encode(s))
  }

  /** Characters a quoted string is made of. */
  predicate QuotedChar(c: char) {
    QuoteSafe(c) || c == '%'
  }

  lemma {:induction false} QuoteBytesChars(bs: seq<byte>)
    ensures forall i :: 0 <= i < |QuoteBytes(bs)| ==> QuotedChar(QuoteBytes(bs)[i])
    decreases |bs|
  {
    if |bs| > 0 {
      QuoteBytesChars(bs[1..]);
      var h := QuoteByte(bs[0]);
      var t := QuoteBytes(bs[1..]);
      assert forall i :: 0 <= i < |h| ==> QuotedChar(h[i]) by {
        if !(bs[0] < 128 && QuoteSafe(bs[0] as char)) {
          assert h[1] == HexDigit(bs[0] / 16) && h[2] == HexDigit(bs[0] % 16);
        }
      }
      assert forall i :: 0 <= i < |h + t| ==> (h + t)[i] == if i < |h| then h[i] else t[i - |h|];
    }
  }

  /** A quoted string holds only safe characters and `%`, so it is ASCII. */
  lemma QuoteChars(s: string)
    ensures forall i :: 0 <= i < |Quote(s)| ==> QuotedChar(Quote(s)[i])
    ensures Utf8.IsAscii(Quote(s))
  {
    QuoteBytesChars(Utf8.Encode(s));
  }

  /** A string made of safe characters only is left as it is. */
  lemma {:induction false} QuoteSafeText(s: string)
    requires forall i :: 0 <= i < |s| ==> QuoteSafe(s[i])
    ensures Quote(s) == s
    decreases |s|
  {
    if |s| > 0 {
      QuoteSafeText(s[1..]);
      var b := s[0] as int;
      assert Utf8.Encode(s) == [b] + Utf8.Encode(s[1..]);
      assert QuoteBytes(Utf8.Encode(s)) == QuoteByte(b) + QuoteBytes(Utf8.Encode(s[1..]));
      assert s == [s[0]] + s[1..];
    }
  }

  /** `urllib.parse.unquote_to_bytes(s)`: the UTF-8 bytes of `s`, except that
      `%` followed by two hex digits is the byte they denote. */
  function UnquoteToBytes(s: string): seq<byte>
    decreases |s|
  {
    if |s| == 0 then []
    else if s[0] == '%' && |s| >= 3 && IsHexDigit(s[1]) && IsHexDigit(s[2]) then
      [HexValue(s[1]) * 16 + HexValue(s[2])] + UnquoteToBytes(s[3..])
    else Utf8.EncodeChar(s[0]) + UnquoteToBytes(s[1..])
  }

  predicate IsAsciiChar(c: char) {
    (c as int) < 128
  }

  /** `urllib.parse.unquote(s)`: characters outside ASCII are kept; each
      maximal run of ASCII characters is unquoted to bytes and decoded as
      UTF-8, a malformed sequence becoming U+FFFD. */
  function Unquote(s: string): string
    decreases |s|
  {
    if |s| == 0 then ""
    else if !IsAsciiChar(s[0]) then [s[0]] + Unquote(s[1..])
    else
      var n := Text.Span(s, 0, IsAsciiChar);
      assert n > 0 by { assert IsAsciiChar(s[0]); }
      Utf8.Decode(UnquoteToBytes(s[..n]), Utf8.Replace) + Unquote(s[n..])
  }

  /** Unquoting what one byte was quoted to gives the byte back. */
  lemma UnquoteQuotedByte(b: byte, t: string)
    ensures UnquoteToBytes(QuoteByte(b) + t) == [b] + UnquoteToBytes(t)
  {
    var s := QuoteByte(b) + t;
    if b < 128 && QuoteSafe(b as char) {
      assert s[0] == b as char && s[1..] == t;
      assert s[0] != '%';
      assert Utf8.EncodeChar(b as char) == [b];
    } else {
      var hi, lo := HexDigit(b / 16), HexDigit(b % 16);
      assert s[0] == '%' && s[1] == hi && s[2] == lo;
      assert s[3..] == t;
      assert HexValue(hi) * 16 + HexValue(lo) == b;
    }
  }

  /** Unquoting what a byte string was quoted to gives it back. */
  lemma {:induction false} UnquoteQuotedBytes(bs: seq<byte>, rest: string)
    ensures UnquoteToBytes(QuoteBytes(bs) + rest) == bs + UnquoteToBytes(rest)
    decreases |bs|
  {
    if |bs| > 0 {
      var b := bs[0];
      var t := QuoteBytes(bs[1..]) + rest;
      assert QuoteBytes(bs) + rest == QuoteByte(b) + t;
      assert UnquoteToBytes(QuoteByte(b) + t) == [b] + UnquoteToBytes(t) by {
        UnquoteQuotedByte(b, t);
      }
      assert UnquoteToBytes(t) == bs[1..] + UnquoteToBytes(rest) by {
        UnquoteQuotedBytes(bs[1..], rest);
      }
      assert bs == [b] + bs[1..];
    } else {
      assert QuoteBytes(bs) + rest == rest;
    }
  }

  /** An ASCII string is unquoted as one run. */
  lemma UnquoteAscii(s: string)
    requires s != "" && Utf8.IsAscii(s)
    ensures Unquote(s) == Utf8.Decode(UnquoteToBytes(s), Utf8.Replace)
  {
    Text.SpanIs(s, 0, |s|, IsAsciiChar);
    assert s[..|s|] == s;
    assert Utf8.Decode(UnquoteToBytes(s), Utf8.Replace) + "" == Utf8.Decode(UnquoteToBytes(s), Utf8.Replace);
  }

  /** Round trip: unquoting a quoted string gives it back, for every string. */
  lemma UnquoteQuote(s: string)
    ensures Unquote(Quote(s)) == s
  {
    var q := Quote(s);
    QuoteChars(s);
    UnquoteQuotedBytes(Utf8.Encode(s), "");
    assert QuoteBytes(Utf8.Encode(s)) + "" == q;
    Utf8.DecodeEncode(s, Utf8.Replace);
    assert Utf8.Encode(s) + [] == Utf8.Encode(s);
    if q != "" {
      UnquoteAscii(q);
    }
  }

  /** An ASCII run without `%` unquotes to its own UTF-8 bytes. */
  lemma {:induction false} UnquoteToBytesPlain(s: string)
    requires Text.Excludes(s, '%')
    ensures UnquoteToBytes(s) == Utf8.Encode(s)
    decreases |s|
  {
    if |s| > 0 {
      UnquoteToBytesPlain(s[1..]);
    }
  }

  /** An ASCII run without `%` decodes to itself. */
  lemma PlainRun(run: string)
    requires Text.Excludes(run, '%')
    ensures Utf8.Decode(UnquoteToBytes(run), Utf8.Replace) == run
  {
    UnquoteToBytesPlain(run);
    Utf8.DecodeEncode(run, Utf8.Replace);
  }

  /** A string without `%` is its own unquoting (`unquote` returns such a
      string at once). */
  lemma {:induction false} UnquotePlain(s: string)
    requires Text.Excludes(s, '%')
    ensures Unquote(s) == s
    decreases |s|
  {
    if |s| > 0 {
      if !IsAsciiChar(s[0]) {
        UnquotePlain(s[1..]);
        assert s == [s[0]] + s[1..];
      } else {
        var n := Text.Span(s, 0, IsAsciiChar);
        assert Unquote(s) == Utf8.Decode(UnquoteToBytes(s[..n]), Utf8.Replace) + Unquote(s[n..]);
        PlainRun(s[..n]);
        UnquotePlain(s[n..]);
        assert s == s[..n] + s[n..];
      }
    }
  }
}

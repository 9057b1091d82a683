/** UTF-8 as in section 3 of RFC 3629: `str.encode('utf-8')`, and
    `bytes.decode('utf-8', errors)` for the two error handlers the scraper
    uses, `'replace'` and `'ignore'`. Like CPython, the decoder treats each
    maximal subpart of an ill-formed sequence (section 3.9 of the Unicode
    Standard) as one error, which `'replace'` turns into U+FFFD and
    `'ignore'` drops. */
module Utf8 {
  import opened Wrappers

  /** The UTF-8 encoding of one code point. */
  function EncodeChar(c: char): (b: seq<byte>)
    ensures 1 <= |b| <= 4
    ensures (c as int) < 128 <==> |b| == 1
    ensures (c as int) < 128 ==> b == [c as int]
    ensures forall k :: 0 <= k < |b| ==> (b[k] < 128 <==> (c as int) < 128)
  {
    var n := c as int;
    if n < 0x80 then [n]
    else if n < 0x800 then [0xC0 + n / 64, 0x80 + n % 64]
    else if n < 0x10000 then [0xE0 + n / 4096, 0x80 + n / 64 % 64, 0x80 + n % 64]
    else [0xF0 + n / 262144, 0x80 + n / 4096 % 64, 0x80 + n / 64 % 64, 0x80 + n % 64]
  }

  /** `s.encode('utf-8')`. */
  function Encode(s: string): seq<byte>
    decreases |s|
  {
    if |s| == 0 then [] else EncodeChar(s[0]) + Encode(s[1..])
  }

  predicate IsCont(x: byte) {
    0x80 <= x <= 0xBF
  }

  /** How many bytes a sequence led by `b0` takes; 0 for a byte that cannot
      lead one (a continuation byte, `C0`, `C1`, `F5`-`FF`). */
  function SeqLength(b0: byte): (n: nat)
    ensures n <= 4
  {
    if b0 < 0x80 then 1
    else if 0xC2 <= b0 <= 0xDF then 2
    else if 0xE0 <= b0 <= 0xEF then 3
    else if 0xF0 <= b0 <= 0xF4 then 4
    else 0
  }

  /** The range the second byte must lie in after the lead `b0` (table 3-7
      of the Unicode Standard); it rules out overlong forms, surrogates and
      code points past U+10FFFF. */
  predicate SecondOk(b0: byte, b1: byte) {
    if b0 == 0xE0 then 0xA0 <= b1 <= 0xBF
    else if b0 == 0xED then 0x80 <= b1 <= 0x9F
    else if b0 == 0xF0 then 0x90 <= b1 <= 0xBF
    else if b0 == 0xF4 then 0x80 <= b1 <= 0x8F
    else IsCont(b1)
  }

  /** How many leading bytes of `b` the decoder consumes in one step: the
      whole sequence when it is well formed, otherwise its maximal subpart,
      and never less than one byte. */
  function Prefix(b: seq<byte>): (m: nat)
    requires |b| > 0
    ensures 1 <= m <= |b| && m <= 4
  {
    var n := SeqLength(b[0]);
    if n <= 1 then 1
    else if |b| < 2 || !SecondOk(b[0], b[1]) then 1
    else if n == 2 || |b| < 3 || !IsCont(b[2]) then 2
    else if n == 3 || |b| < 4 || !IsCont(b[3]) then 3
    else 4
  }

  /** `b` starts with a well-formed sequence. */
  predicate Complete(b: seq<byte>) {
    |b| > 0 && SeqLength(b[0]) > 0 && Prefix(b) == SeqLength(b[0])
  }

  /** The code point a well-formed sequence at the start of `b` stands for. */
  function CodePoint(b: seq<byte>): char
    requires Complete(b)
  {
    var n := SeqLength(b[0]);
    var b0: int := b[0];
    if n == 1 then b0 as char
    else
      var b1: int := b[1];
      if n == 2 then ((b0 - 0xC0) * 64 + (b1 - 0x80)) as char
      else
        var b2: int := b[2];
        if n == 3 then ((b0 - 0xE0) * 4096 + (b1 - 0x80) * 64 + (b2 - 0x80)) as char
        else
          var b3: int := b[3];
          ((b0 - 0xF0) * 262144 + (b1 - 0x80) * 4096 + (b2 - 0x80) * 64 + (b3 - 0x80)) as char
  }

  /** The error handlers the scraper passes to `decode`. */
  datatype Errors = Replace | Ignore

  /** `b.decode('utf-8', errors)`. */
  function Decode(b: seq<byte>, errors: Errors): (s: string)
    ensures |s| <= |b|
    decreases |b|
  {
    if |b| == 0 then ""
    else
      var m := Prefix(b);
      if Complete(b) then [CodePoint(b)] + Decode(b[m..], errors)
      else if errors == Replace then "\U{FFFD}" + Decode(b[m..], errors)
      else Decode(b[m..], errors)
  }

  lemma TwoBytes(n: int)
    requires 0x80 <= n < 0x800
    ensures var b0, b1 := 0xC0 + n / 64, 0x80 + n % 64;
      0xC2 <= b0 <= 0xDF && IsCont(b1) && (b0 - 0xC0) * 64 + (b1 - 0x80) == n
  {
  }

  lemma ThreeBytes(n: int)
    requires 0x800 <= n < 0x10000 && !(0xD800 <= n < 0xE000)
    ensures var b0, b1, b2 := 0xE0 + n / 4096, 0x80 + n / 64 % 64, 0x80 + n % 64;
      && 0xE0 <= b0 <= 0xEF && SecondOk(b0, b1) && IsCont(b2)
      && (b0 - 0xE0) * 4096 + (b1 - 0x80) * 64 + (b2 - 0x80) == n
  {
    var q := n / 64;
    assert n == q * 64 + n % 64;
    assert n / 4096 == q / 64;
    assert q == (q / 64) * 64 + q % 64;
  }

  lemma FourBytes(n: int)
    requires 0x10000 <= n < 0x110000
    ensures var b0, b1, b2, b3 := 0xF0 + n / 262144, 0x80 + n / 4096 % 64, 0x80 + n / 64 % 64, 0x80 + n % 64;
      && 0xF0 <= b0 <= 0xF4 && SecondOk(b0, b1) && IsCont(b2) && IsCont(b3)
      && (b0 - 0xF0) * 262144 + (b1 - 0x80) * 4096 + (b2 - 0x80) * 64 + (b3 - 0x80) == n
  {
    var q := n / 64;
    var p := q / 64;
    assert n == q * 64 + n % 64;
    assert q == p * 64 + q % 64;
    assert n / 4096 == p;
    assert p == (p / 64) * 64 + p % 64;
    assert n / 262144 == p / 64;
  }

  /** A two-byte encoding is read back whole, as its code point. */
  lemma ReadsTwo(c: char, b: seq<byte>)
    requires 0x80 <= c as int < 0x800
    requires |b| >= 2 && b[0] == 0xC0 + (c as int) / 64 && b[1] == 0x80 + (c as int) % 64
    ensures Complete(b) && Prefix(b) == 2 && CodePoint(b) == c
  {
    TwoBytes(c as int);
  }

  /** A three-byte encoding is read back whole, as its code point. */
  lemma ReadsThree(c: char, b: seq<byte>)
    requires 0x800 <= c as int < 0x10000
    requires |b| >= 3 && b[0] == 0xE0 + (c as int) / 4096
    requires b[1] == 0x80 + (c as int) / 64 % 64 && b[2] == 0x80 + (c as int) % 64
    ensures Complete(b) && Prefix(b) == 3 && CodePoint(b) == c
  {
    ThreeBytes(c as int);
  }

  /** A four-byte encoding is read back whole, as its code point. */
  lemma ReadsFour(c: char, b: seq<byte>)
    requires 0x10000 <= c as int
    requires |b| >= 4 && b[0] == 0xF0 + (c as int) / 262144 && b[1] == 0x80 + (c as int) / 4096 % 64
    requires b[2] == 0x80 + (c as int) / 64 % 64 && b[3] == 0x80 + (c as int) % 64
    ensures Complete(b) && Prefix(b) == 4 && CodePoint(b) == c
  {
    FourBytes(c as int);
  }

  /** The decoder reads the encoding of one code point back as that code
      point and carries on after it. */
  lemma DecodeEncodeChar(c: char, rest: seq<byte>, errors: Errors)
    ensures Decode(EncodeChar(c) + rest, errors) == [c] + Decode(rest, errors)
  {
    var n := c as int;
    var e := EncodeChar(c);
    var b := e + rest;
    assert Complete(b) && Prefix(b) == |e| && CodePoint(b) == c by {
      if n < 0x80 {
      } else if n < 0x800 {
        ReadsTwo(c, b);
      } else if n < 0x10000 {
        ReadsThree(c, b);
      } else {
        ReadsFour(c, b);
      }
    }
    assert b[|e|..] == rest;
  }

  /** Round trip: decoding the UTF-8 encoding of a string gives it back,
      whichever error handler is used. */
  lemma {:induction false} DecodeEncode(s: string, errors: Errors)
    ensures Decode(Encode(s), errors) == s
    decreases |s|
  {
    if |s| > 0 {
      DecodeEncodeChar(s[0], Encode(s[1..]), errors);
      DecodeEncode(s[1..], errors);
      assert s == [s[0]] + s[1..];
    }
  }

  predicate IsAscii(s: string) {
    forall i :: 0 <= i < |s| ==> (s[i] as int) < 128
  }

  /** An ASCII string encodes to its character codes, one byte each. */
  lemma {:induction false} EncodeAscii(s: string)
    requires IsAscii(s)
    ensures |Encode(s)| == |s| && forall i :: 0 <= i < |s| ==> Encode(s)[i] == s[i] as int
    decreases |s|
  {
    if |s| > 0 {
      EncodeAscii(s[1..]);
      assert Encode(s) == [s[0] as int] + Encode(s[1..]);
    }
  }
}

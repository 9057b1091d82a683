/** Base64 as in section 4 of RFC 4648, the way `base64.b64decode` applies it
    to a `str` without `validate=True`: the string must be ASCII; characters
    outside the alphabet are skipped; `=` ends the input once it completes a
    quantum; a dangling single data character or an unfinished quantum is an
    error. The decoder is the character-by-character state machine of
    CPython's non-strict `binascii.a2b_base64`. An unpadded encoder is the
    partner the round trip is stated against. */
module Base64 {
  import opened Wrappers

  /** The value of `c` in the Base64 alphabet, or 64 when `c` is not in it. */
  function SextetOf(c: char): (v: nat)
    ensures v <= 64
  {
    if 'A' <= c <= 'Z' then (c as int) - ('A' as int)
    else if 'a' <= c <= 'z' then (c as int) - ('a' as int) + 26
    else if '0' <= c <= '9' then (c as int) - ('0' as int) + 52
    else if c == '+' then 62
    else if c == '/' then 63
    else 64
  }

  predicate InAlphabet(c: char) {
    SextetOf(c) < 64
  }

  /** The character of the alphabet whose value is `v`. */
  function AlphabetChar(v: nat): (c: char)
    requires v < 64
    ensures SextetOf(c) == v
  {
    if v < 26 then (('A' as int) + v) as char
    else if v < 52 then (('a' as int) + v - 26) as char
    else if v < 62 then (('0' as int) + v - 52) as char
    else if v == 62 then '+'
    else '/'
  }

  predicate IsAscii(s: string) {
    forall i :: 0 <= i < |s| ==> (s[i] as int) < 128
  }

  /** `s.ljust(len(s) + (4 - len(s) % 4) % 4, '=')` (main.py:44). */
  function Pad(s: string): (r: string)
    ensures |r| % 4 == 0 && |s| <= |r| < |s| + 4 && r[..|s|] == s
  {
    s + Equals((4 - |s| % 4) % 4)
  }

  /** Padding keeps `s` as a prefix, appends only `=`, and stops at the
      least length that is at least `|s|` and a multiple of four. */
  lemma PadShape(s: string)
    ensures var r := Pad(s);
      && |r| % 4 == 0 && |s| <= |r| < |s| + 4
      && r[..|s|] == s
      && forall i :: |s| <= i < |r| ==> r[i] == '='
  {
  }

  /** A padded payload needs no more padding. */
  lemma PadIdempotent(s: string)
    ensures Pad(Pad(s)) == Pad(s)
  {
    PadShape(s);
    assert Equals(0) == "";
  }

  /** `n` padding characters. */
  function Equals(n: nat): (r: string)
  {
    seq(n, _ => '=')
  }

  /** The decoder's registers: how many data characters of the current
      quantum have been read, the bits still owed to the next byte, how many
      `=` have been counted, and the bytes produced so far. */
  datatype DecodeState = DecodeState(quadPos: nat, left: nat, pads: nat, out: seq<byte>)

  predicate Valid(st: DecodeState) {
    && st.quadPos < 4
    && (st.quadPos == 0 ==> st.left == 0)
    && (st.quadPos == 1 ==> st.left < 64)
    && (st.quadPos == 2 ==> st.left < 16)
    && (st.quadPos == 3 ==> st.left < 4)
  }

  function Start(out: seq<byte>): DecodeState {
    DecodeState(0, 0, 0, out)
  }

  /** One data character of value `v`: each of the last three positions of
      a quantum completes a byte from the owed bits and the new ones. */
  function Feed(st: DecodeState, v: nat): (r: DecodeState)
    requires Valid(st) && v < 64
    ensures Valid(r) && r.pads == 0
    ensures r.quadPos == (st.quadPos + 1) % 4
  {
    match st.quadPos
    case 0 => DecodeState(1, v, 0, st.out)
    case 1 => DecodeState(2, v % 16, 0, st.out + [st.left * 4 + v / 16])
    case 2 => DecodeState(3, v % 4, 0, st.out + [st.left * 16 + v / 4])
    case _ => DecodeState(0, 0, 0, st.out + [st.left * 64 + v])
  }

  /** End of input: only a finished quantum is accepted. */
  function Finish(st: DecodeState): Result<seq<byte>, string> {
    if st.quadPos == 0 then Success(st.out)
    else if st.quadPos == 1 then
      Failure("Invalid base64-encoded string: number of data characters cannot be 1 more than a multiple of 4")
    else Failure("Incorrect padding")
  }

  /** The decoding loop over the rest `s` of the input. A `=` is ignored
      unless at least two data characters of the quantum were read; it ends
      decoding once the data characters and counted `=` fill the quantum. */
  function Run(s: string, st: DecodeState): Result<seq<byte>, string>
    requires Valid(st)
    decreases |s|
  {
    if |s| == 0 then Finish(st)
    else if s[0] == '=' then
      if st.quadPos >= 2 && st.quadPos + st.pads + 1 >= 4 then Success(st.out)
      else Run(s[1..], if st.quadPos >= 2 then st.(pads := st.pads + 1) else st)
    else if !InAlphabet(s[0]) then Run(s[1..], st)
    else Run(s[1..], Feed(st, SextetOf(s[0])))
  }

  /** `base64.b64decode(s)` for a `str` argument; a non-ASCII string is the
      `ValueError` raised before decoding starts. */
  function Decode(s: string): Result<seq<byte>, string> {
    if !IsAscii(s) then Failure("string argument should contain only ASCII characters")
    else Run(s, Start([]))
  }

  /** A Base64 digit: six bits. */
  type sextet = x: nat | x < 64

  /** The digits of the unpadded Base64 encoding of `b`: four per three
      bytes, then two for a last single byte or three for a last pair. */
  function Sextets(b: seq<byte>): seq<sextet>
  {
    if |b| == 0 then []
    else if |b| == 1 then [b[0] / 4, b[0] % 4 * 16]
    else if |b| == 2 then [b[0] / 4, b[0] % 4 * 16 + b[1] / 16, b[1] % 16 * 4]
    else Quantum(b[0], b[1], b[2]) + Sextets(b[3..])
  }

  function Quantum(b0: byte, b1: byte, b2: byte): seq<sextet> {
    [b0 / 4, b0 % 4 * 16 + b1 / 16, b1 % 16 * 4 + b2 / 64, b2 % 64]
  }

  function Chars(v: seq<sextet>): string {
    seq(|v|, i requires 0 <= i < |v| => AlphabetChar(v[i]))
  }

  /** The unpadded Base64 text of `b`. */
  function Encode(b: seq<byte>): string {
    Chars(Sextets(b))
  }

  predicate AlphabetOnly(s: string) {
    forall i :: 0 <= i < |s| ==> InAlphabet(s[i])
  }

  /** An encoding is made of alphabet characters, and only the empty byte
      string encodes to the empty text. */
  lemma EncodeShape(b: seq<byte>)
    ensures AlphabetOnly(Encode(b))
    ensures |b| > 0 ==> |Encode(b)| > 0
  {
  }

  /** Feeding the digits `v` one after another. */
  function FeedValues(st: DecodeState, v: seq<sextet>): (r: DecodeState)
    requires Valid(st)
    ensures Valid(r)
    decreases |v|
  {
    if |v| == 0 then st else FeedValues(Feed(st, v[0]), v[1..])
  }

  lemma FeedValuesStep(st: DecodeState, v: seq<sextet>)
    requires Valid(st) && |v| > 0
    ensures FeedValues(st, v) == FeedValues(Feed(st, v[0]), v[1..])
  {
  }

  lemma {:induction false} FeedValuesAppend(st: DecodeState, v: seq<sextet>, w: seq<sextet>)
    requires Valid(st)
    ensures FeedValues(st, v + w) == FeedValues(FeedValues(st, v), w)
    decreases |v|
  {
    if |v| > 0 {
      assert (v + w)[0] == v[0] && (v + w)[1..] == v[1..] + w;
      FeedValuesAppend(Feed(st, v[0]), v[1..], w);
    } else {
      assert v + w == w;
    }
  }

  /** The byte arithmetic of one quantum: each byte is rebuilt from the
      bits the encoder spread over two adjacent digits. */
  lemma GroupArith(b0: byte, b1: byte, b2: byte)
    ensures (b0 / 4) * 4 + (b0 % 4 * 16 + b1 / 16) / 16 == b0
    ensures (b0 % 4 * 16 + b1 / 16) % 16 == b1 / 16
    ensures (b1 / 16) * 16 + (b1 % 16 * 4 + b2 / 64) / 4 == b1
    ensures (b1 % 16 * 4 + b2 / 64) % 4 == b2 / 64
    ensures (b2 / 64) * 64 + b2 % 64 == b2
  {
  }

  /** Decoding one full quantum returns the three bytes it encodes. */
  lemma FeedQuantum(b0: byte, b1: byte, b2: byte, out: seq<byte>)
    ensures FeedValues(Start(out), Quantum(b0, b1, b2)) == Start(out + [b0, b1, b2])
  {
    var q := Quantum(b0, b1, b2);
    GroupArith(b0, b1, b2);
    var st1 := Feed(Start(out), q[0]);
    var st2 := Feed(st1, q[1]);
    var st3 := Feed(st2, q[2]);
    var st4 := Feed(st3, q[3]);
    assert st2 == DecodeState(2, b1 / 16, 0, out + [b0]);
    assert st3 == DecodeState(3, b2 / 64, 0, out + [b0, b1]);
    assert st4 == Start(out + [b0, b1, b2]);
    FeedValuesStep(Start(out), q);
    FeedValuesStep(st1, q[1..]);
    FeedValuesStep(st2, q[1..][1..]);
    FeedValuesStep(st3, q[1..][1..][1..]);
    assert q[1..][1..][1..][1..] == [];
  }

  /** Decoding the digits of `b` after `out` produces `out + b` and stops
      with no owed bits, two or three digits into the last quantum when the
      length of `b` is not a multiple of three, never one digit into it. */
  lemma {:induction false} FeedSextets(b: seq<byte>, out: seq<byte>)
    ensures var st := FeedValues(Start(out), Sextets(b));
      st.out == out + b && st.quadPos != 1 && st.pads == 0
    decreases |b|
  {
    if |b| == 0 {
      assert out + b == out;
    } else if |b| == 1 {
      GroupArith(b[0], 0, 0);
      var v := Sextets(b);
      var st1 := Feed(Start(out), v[0]);
      var st2 := Feed(st1, v[1]);
      assert st2.out == out + b;
      FeedValuesStep(Start(out), v);
      FeedValuesStep(st1, v[1..]);
      assert v[1..][1..] == [];
    } else if |b| == 2 {
      GroupArith(b[0], b[1], 0);
      var v := Sextets(b);
      var st1 := Feed(Start(out), v[0]);
      var st2 := Feed(st1, v[1]);
      var st3 := Feed(st2, v[2]);
      assert st3.out == out + b;
      FeedValuesStep(Start(out), v);
      FeedValuesStep(st1, v[1..]);
      FeedValuesStep(st2, v[1..][1..]);
      assert v[1..][1..][1..] == [];
    } else {
      FeedValuesAppend(Start(out), Quantum(b[0], b[1], b[2]), Sextets(b[3..]));
      FeedQuantum(b[0], b[1], b[2], out);
      FeedSextets(b[3..], out + [b[0], b[1], b[2]]);
      assert out + [b[0], b[1], b[2]] + b[3..] == out + b;
    }
  }

  /** Feeding the data characters `s` one after another. */
  function FeedAll(st: DecodeState, s: string): (r: DecodeState)
    requires Valid(st) && AlphabetOnly(s)
    ensures Valid(r)
    ensures r.quadPos == (st.quadPos + |s|) % 4
    ensures |s| > 0 ==> r.pads == 0
    decreases |s|
  {
    if |s| == 0 then st
    else
      assert InAlphabet(s[0]);
      FeedAll(Feed(st, SextetOf(s[0])), s[1..])
  }

  /** The characters of a digit sequence feed the decoder those digits. */
  lemma {:induction false} FeedAllChars(st: DecodeState, v: seq<sextet>)
    requires Valid(st)
    ensures AlphabetOnly(Chars(v))
    ensures FeedAll(st, Chars(v)) == FeedValues(st, v)
    decreases |v|
  {
    var s := Chars(v);
    assert forall i :: 0 <= i < |s| ==> SextetOf(s[i]) == v[i];
    if |v| > 0 {
      assert Chars(v)[1..] == Chars(v[1..]);
      FeedAllChars(Feed(st, v[0]), v[1..]);
    }
  }

  /** Reading one data character advances the decoder by `Feed`. */
  lemma {:induction false} RunData(s: string, t: string, st: DecodeState)
    requires Valid(st) && AlphabetOnly(s)
    ensures Run(s + t, st) == Run(t, FeedAll(st, s))
    decreases |s|
  {
    if |s| > 0 {
      assert (s + t)[0] == s[0] && (s + t)[1..] == s[1..] + t;
      assert InAlphabet(s[0]);
      RunData(s[1..], t, Feed(st, SextetOf(s[0])));
    } else {
      assert s + t == t;
    }
  }

  /** A `=` read before the second data character of a quantum is skipped. */
  lemma RunPadSkipped(rest: string, st: DecodeState)
    requires Valid(st) && st.quadPos < 2
    ensures Run("=" + rest, st) == Run(rest, st)
  {
    assert ("=" + rest)[1..] == rest;
  }

  /** A `=` that does not yet fill the quantum is counted. */
  lemma RunPadCounted(rest: string, st: DecodeState)
    requires Valid(st) && st.quadPos >= 2 && st.quadPos + st.pads + 1 < 4
    ensures Run("=" + rest, st) == Run(rest, st.(pads := st.pads + 1))
  {
    assert ("=" + rest)[1..] == rest;
  }

  /** A `=` that fills the quantum ends decoding with the bytes so far. */
  lemma RunPadStops(rest: string, st: DecodeState)
    requires Valid(st) && st.quadPos >= 2 && st.quadPos + st.pads + 1 >= 4
    ensures Run("=" + rest, st) == Success(st.out)
  {
  }

  /** The `=` that `Pad` appends, read in the state the data left: decoding
      succeeds with the bytes so far unless one data character dangles. */
  lemma RunPadding(st: DecodeState, k: nat)
    requires Valid(st) && k == (4 - st.quadPos) % 4
    requires st.quadPos > 0 ==> st.pads == 0
    ensures st.quadPos != 1 ==> Run(Equals(k), st) == Success(st.out)
    ensures st.quadPos == 1 ==> Run(Equals(k), st).Failure?
  {
    if st.quadPos == 0 {
      assert Equals(k) == "";
    } else if st.quadPos == 1 {
      assert Equals(k) == "=" + ("=" + ("=" + ""));
      RunPadSkipped("=" + ("=" + ""), st);
      RunPadSkipped("=" + "", st);
      RunPadSkipped("", st);
    } else if st.quadPos == 2 {
      assert Equals(k) == "=" + ("=" + "");
      RunPadCounted("=" + "", st);
      RunPadStops("", st.(pads := 1));
    } else {
      assert Equals(k) == "=" + "";
      RunPadStops("", st);
    }
  }

  lemma PadOf(s: string)
    ensures Pad(s) == s + Equals((4 - |s| % 4) % 4)
  {
  }

  /** Decoding an alphabet-only string padded by `Pad` is the decoder run
      over its data characters followed by the padding. */
  lemma DecodePadded(s: string)
    requires AlphabetOnly(s)
    ensures var st := FeedAll(Start([]), s);
      st.quadPos == |s| % 4 && Decode(Pad(s)) == Run(Equals((4 - st.quadPos) % 4), st)
  {
    var k := (4 - |s| % 4) % 4;
    PadOf(s);
    PaddedAscii(s, k);
    RunData(s, Equals(k), Start([]));
  }

  /** Alphabet characters and padding are all ASCII. */
  lemma PaddedAscii(s: string, k: nat)
    requires AlphabetOnly(s)
    ensures IsAscii(s + Equals(k))
  {
    var p := s + Equals(k);
    forall i | 0 <= i < |p| ensures (p[i] as int) < 128 {
      if i < |s| { assert p[i] == s[i] && InAlphabet(s[i]); }
    }
  }

  /** Round trip: decoding the `=`-padded unpadded encoding of any byte
      string returns it. */
  lemma DecodePadEncode(b: seq<byte>)
    ensures Decode(Pad(Encode(b))) == Success(b)
  {
    var v := Sextets(b);
    FeedAllChars(Start([]), v);
    FeedSextets(b, []);
    DecodePadded(Chars(v));
    var st := FeedValues(Start([]), v);
    RunPadding(st, (4 - st.quadPos) % 4);
    assert [] + b == b;
  }

  /** Over the alphabet, decoding the padded payload fails exactly when its
      length is one more than a multiple of four: every other length is
      completed by the `=` that padding appends. */
  lemma DecodePadFailsIff(s: string)
    requires AlphabetOnly(s)
    ensures Decode(Pad(s)).Failure? <==> |s| % 4 == 1
  {
    DecodePadded(s);
    var st := FeedAll(Start([]), s);
    RunPadding(st, (4 - st.quadPos) % 4);
  }

  /** The two payloads padding cannot rescue: one with a character outside
      ASCII, and one of alphabet characters whose length is one more than a
      multiple of four. */
  lemma DecodePadRejects(s: string)
    ensures !IsAscii(s) ==> Decode(Pad(s)).Failure?
    ensures AlphabetOnly(s) && |s| % 4 == 1 ==> Decode(Pad(s)).Failure?
  {
    if !IsAscii(s) {
      var i :| 0 <= i < |s| && (s[i] as int) >= 128;
      PadShape(s);
      assert Pad(s)[i] == s[i];
    }
    if AlphabetOnly(s) {
      DecodePadFailsIff(s);
    }
  }
}

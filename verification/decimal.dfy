/** Decimal numerals: Python's `str(n)` for a non-negative integer, `isdigit`
    and `int(...)` on text, all restricted to the ASCII digits `0`-`9`. */
module Decimal {
  import opened Wrappers
  import Text

  predicate IsDigit(c: char) {
    '0' <= c <= '9'
  }

  /** Python's `s.isdigit()` over ASCII digits: non-empty and digits only. */
  predicate IsDigits(s: string) {
    |s| > 0 && forall i :: 0 <= i < |s| ==> IsDigit(s[i])
  }

  function DigitValue(c: char): nat
    requires IsDigit(c)
  {
    (c as int) - ('0' as int)
  }

  function DigitChar(d: nat): (c: char)
    requires d < 10
    ensures IsDigit(c) && DigitValue(c) == d
  {
    (('0' as int) + d) as char
  }

  /** The value of a string of digits, leading zeros allowed (`int("007") == 7`). */
  function Value(s: string): nat
    requires forall i :: 0 <= i < |s| ==> IsDigit(s[i])
  {
    if |s| == 0 then 0 else Value(s[..|s| - 1]) * 10 + DigitValue(s[|s| - 1])
  }

  /** Python's `str(n)` for `n >= 0`. */
  function Show(n: nat): (s: string)
    ensures IsDigits(s)
    ensures s[0] == '0' ==> n == 0
  {
    if n < 10 then [DigitChar(n)] else Show(n / 10) + [DigitChar(n % 10)]
  }

  /** Reading back the numeral `str(n)` gives `n`. */
  lemma {:induction false} ValueOfShow(n: nat)
    ensures Value(Show(n)) == n
  {
    if n >= 10 {
      var s := Show(n);
      assert s[..|s| - 1] == Show(n / 10);
      ValueOfShow(n / 10);
    }
  }

  /** Two numbers with the same numeral are equal: `str` is injective. */
  lemma ShowInjective(m: nat, n: nat)
    requires Show(m) == Show(n)
    ensures m == n
  {
    ValueOfShow(m);
    ValueOfShow(n);
  }

  /** The value of a digit string strictly exceeds zero exactly when some
      digit is not `0`; in particular `"0"` and `"00"` denote page 0. */
  lemma {:induction false} ValuePositive(s: string)
    requires forall i :: 0 <= i < |s| ==> IsDigit(s[i])
    ensures Value(s) > 0 <==> exists i :: 0 <= i < |s| && s[i] != '0'
  {
    if |s| > 0 {
      var p := s[..|s| - 1];
      ValuePositive(p);
      if exists i :: 0 <= i < |p| && p[i] != '0' {
        var i :| 0 <= i < |p| && p[i] != '0';
        assert s[i] != '0';
      }
      if exists i :: 0 <= i < |s| && s[i] != '0' {
        var i :| 0 <= i < |s| && s[i] != '0';
        if i < |p| { assert p[i] != '0'; }
      }
    }
  }

  /** What `int()` accepts once surrounding whitespace is gone: an optional
      sign and a non-empty run of digits. */
  predicate IsNumeral(t: string) {
    IsDigits(t) || (|t| > 1 && (t[0] == '+' || t[0] == '-') && IsDigits(t[1..]))
  }

  /** The value of a numeral; only a leading `-` makes it negative. */
  function NumeralValue(t: string): (v: int)
    requires IsNumeral(t)
    ensures v < 0 ==> t[0] == '-'
    ensures IsDigits(t) ==> v == Value(t)
    ensures t[0] == '+' ==> v == Value(t[1..])
    ensures t[0] == '-' ==> v == -(Value(t[1..]) as int)
  {
    if IsDigits(t) then Value(t)
    else if t[0] == '+' then Value(t[1..])
    else -(Value(t[1..]) as int)
  }

  /** The whitespace `int()` strips from a string. It is `str.isspace`
      without U+001C..U+001F: CPython maps every non-ASCII space to `' '`
      and then skips only the ASCII spaces `' '`, `\t`, `\n`, `\v`, `\f`
      and `\r`, so the four ASCII separators stay and are rejected. */
  predicate IntSpace(c: char)
  {
    Text.IsSpace(c) && !('\U{1C}' <= c <= '\U{1F}')
  }

  /** Every character of `s` is whitespace to `int()`. */
  predicate AllIntSpace(s: string)
  {
    forall i :: 0 <= i < |s| ==> IntSpace(s[i])
  }

  /** Python's `int(text)` on a string: the value of the numeral left once
      `int()`'s whitespace is stripped; anything else is a `ValueError`,
      modelled as `None`. */
  function ParseInt(text: string): (r: Option<int>)
    ensures r.Some? <==> IsNumeral(Text.StripWith(text, IntSpace))
    ensures r.Some? ==> r.value == NumeralValue(Text.StripWith(text, IntSpace))
  {
    var t := Text.StripWith(text, IntSpace);
    if IsNumeral(t) then Some(NumeralValue(t)) else None
  }

  /** A digit is not whitespace, to `int()` or to `str.isspace`. */
  lemma DigitNotSpace(c: char)
    requires IsDigit(c)
    ensures !Text.IsSpace(c) && !IntSpace(c)
  {
  }

  /** A numeral with no whitespace at its ends reads as its value. */
  lemma ParseBare(m: string)
    requires IsNumeral(m) && !IntSpace(m[0]) && !IntSpace(m[|m| - 1])
    ensures ParseInt(m) == Some(NumeralValue(m))
  {
    ParseTrimmed("", m, "");
    assert "" + m + "" == m;
  }

  /** A digit string reads as its value. */
  lemma ParseDigits(s: string)
    requires IsDigits(s)
    ensures ParseInt(s) == Some(Value(s) as int)
  {
    DigitNotSpace(s[0]);
    DigitNotSpace(s[|s| - 1]);
    ParseBare(s);
  }

  /** A digit string after `-` reads as the negated value. */
  lemma ParseNegatedDigits(d: string)
    requires IsDigits(d)
    ensures ParseInt("-" + d) == Some(-(Value(d) as int))
  {
    var s := "-" + d;
    assert s[1..] == d;
    assert !IsDigit(s[0]);
    assert NumeralValue(s) == -(Value(d) as int);
    DigitNotSpace(d[|d| - 1]);
    assert s[|s| - 1] == d[|d| - 1];
    ParseBare(s);
  }

  /** `int(str(n)) == n`, a negative `n` being written with a leading `-`. */
  lemma ParseShow(n: int)
    ensures ParseInt(if n >= 0 then Show(n) else "-" + Show(-n)) == Some(n)
  {
    if n >= 0 {
      ParseDigits(Show(n));
      ValueOfShow(n);
    } else {
      ParseNegatedDigits(Show(-n));
      ValueOfShow(-n);
    }
  }

  /** Leading zeros do not change a value: `int("007") == 7`. */
  lemma {:induction false} ValueLeadingZeros(z: string, d: string)
    requires forall i :: 0 <= i < |z| ==> z[i] == '0'
    requires forall i :: 0 <= i < |d| ==> IsDigit(d[i])
    ensures Value(z + d) == Value(d)
    decreases |d|
  {
    var s := z + d;
    if |d| == 0 {
      assert s == z;
      ValuePositive(z);
    } else {
      assert s[..|s| - 1] == z + d[..|d| - 1];
      ValueLeadingZeros(z, d[..|d| - 1]);
    }
  }

  /** A digit string after an optional sign is a numeral with that sign,
      trimmed at both ends. */
  lemma SignedNumeral(sign: string, d: string)
    requires sign == "" || sign == "+" || sign == "-"
    requires IsDigits(d)
    ensures var m := sign + d;
      && IsNumeral(m)
      && NumeralValue(m) == (if sign == "-" then -(Value(d) as int) else Value(d) as int)
      && !IntSpace(m[0]) && !IntSpace(m[|m| - 1])
  {
    var m := sign + d;
    assert m[|m| - 1] == d[|d| - 1];
    DigitNotSpace(d[|d| - 1]);
    if sign == "" {
      assert m == d;
      DigitNotSpace(d[0]);
    } else {
      assert m[1..] == d;
      assert !IsDigit(m[0]);
    }
  }

  /** What `int()` reads from whitespace, an optional sign, zeros and the
      numeral of `n`, then whitespace: `n`, negated after `-`. So
      `int(" +7 ") == int("007") == 7`. */
  lemma ParseIntPadded(p: string, sign: string, z: string, n: nat, q: string)
    requires AllIntSpace(p) && AllIntSpace(q)
    requires sign == "" || sign == "+" || sign == "-"
    requires forall i :: 0 <= i < |z| ==> z[i] == '0'
    ensures ParseInt(p + sign + z + Show(n) + q) == Some(if sign == "-" then -(n as int) else n as int)
  {
    var d := z + Show(n);
    var m := sign + d;
    ZerosNumeral(z, n);
    SignedNumeral(sign, d);
    ParseTrimmed(p, m, q);
    Regroup(p, sign, z, Show(n), q);
  }

  lemma Regroup(a: string, b: string, c: string, d: string, e: string)
    ensures a + b + c + d + e == a + (b + (c + d)) + e
  {
  }

  /** Zeros before the numeral of `n` make a digit string worth `n`. */
  lemma ZerosNumeral(z: string, n: nat)
    requires forall i :: 0 <= i < |z| ==> z[i] == '0'
    ensures IsDigits(z + Show(n)) && Value(z + Show(n)) == n
  {
    var d := z + Show(n);
    assert forall i :: |z| <= i < |d| ==> d[i] == Show(n)[i - |z|];
    ValueLeadingZeros(z, Show(n));
    ValueOfShow(n);
  }

  /** A numeral between runs of whitespace reads as its value. */
  lemma ParseTrimmed(p: string, m: string, q: string)
    requires AllIntSpace(p) && AllIntSpace(q) && IsNumeral(m)
    requires !IntSpace(m[0]) && !IntSpace(m[|m| - 1])
    ensures ParseInt(p + m + q) == Some(NumeralValue(m))
  {
    Text.StripWithPadded(p, m, q, IntSpace);
  }

  /** The information separators U+001C..U+001F are whitespace to
      `str.isspace` and `strip`, but not to `int()`: `"\x1c7".strip()` is
      `"7"`, while `int("\x1c7")` raises `ValueError`. */
  lemma SeparatorNotIntSpace(d: string)
    requires IsDigits(d)
    ensures Text.Strip("\U{1C}" + d) == d
    ensures ParseInt("\U{1C}" + d) == None
  {
    DigitNotSpace(d[0]);
    DigitNotSpace(d[|d| - 1]);
    assert Text.IsSpace('\U{1C}');
    Text.StripPadded("\U{1C}", d, "");
    assert "\U{1C}" + d + "" == "\U{1C}" + d;
    SeparatorKept(d);
  }

  /** `int()` strips nothing from a character it does not count as
      whitespace followed by digits, and a character other than a sign or a
      digit leaves no numeral. */
  lemma SeparatorKept(d: string)
    requires IsDigits(d)
    ensures Text.StripWith("\U{1C}" + d, IntSpace) == "\U{1C}" + d
    ensures !IsNumeral("\U{1C}" + d)
  {
    assert !IntSpace('\U{1C}') && !IsDigit('\U{1C}');
    assert "\U{1C}" + d == ['\U{1C}'] + d;
    LeadKept('\U{1C}', d);
  }

  lemma LeadKept(c: char, d: string)
    requires IsDigits(d) && !IntSpace(c) && !IsDigit(c) && c != '+' && c != '-'
    ensures Text.StripWith([c] + d, IntSpace) == [c] + d
    ensures !IsNumeral([c] + d)
  {
    var s := [c] + d;
    DigitNotSpace(d[|d| - 1]);
    assert s[|s| - 1] == d[|d| - 1];
    assert s[0] == c;
    Text.StripWithPadded("", s, "", IntSpace);
    assert "" + s + "" == s;
  }
}

/** The regular expressions and `href` filters of `MagnetSearchService.search`
    (main.py:105, 129, 140-143, 162, 169, 173), each as a predicate saying
    where a match starts, the group it captures there, and a function
    returning the leftmost match the way `re.search` does. */
module Patterns {
  import opened Wrappers
  import Text
  import Decimal

  predicate NotQuote(c: char) { c != '\'' }

  predicate NotQuoteMark(c: char) { c != '\'' && c != '"' }

  predicate IsSizeChar(c: char) { Decimal.IsDigit(c) || c == '.' }

  predicate IsHex(c: char) { ('0' <= c <= '9') || ('a' <= c <= 'f') || ('A' <= c <= 'F') }

  predicate IsUnit(c: char) { c == 'G' || c == 'M' || c == 'K' }

  // ----- window\.atob\('([^']+)' ----------------------------------------------

  const AtobMarker := "window.atob('"

  /** The pattern matches at `i`: the marker, at least one character other
      than `'` (greedy, so the whole run), then a closing `'`. */
  predicate AtobAt(s: string, i: int) {
    && Text.SubstringAt(s, AtobMarker, i)
    && var j := i + |AtobMarker|;
       var n := Text.Span(s, j, NotQuote);
       n > 0 && j + n < |s|
  }

  /** Group 1 of the match at `i`. */
  function AtobGroup(s: string, i: nat): (g: string)
    requires AtobAt(s, i)
    ensures g != "" && Text.Excludes(g, '\'')
    ensures Text.SubstringAt(s, AtobMarker + g + "'", i)
  {
    var j := i + |AtobMarker|;
    var n := Text.Span(s, j, NotQuote);
    var g := s[j..j + n];
    assert s[i..j + n + 1] == s[i..j] + g + [s[j + n]];
    g
  }

  /** The leftmost position where the pattern matches. */
  function FirstAtob(s: string): (r: Option<nat>)
    ensures r.None? ==> forall i :: 0 <= i < |s| ==> !AtobAt(s, i)
    ensures r.Some? ==> r.value < |s| && AtobAt(s, r.value) && forall k :: 0 <= k < r.value ==> !AtobAt(s, k)
  {
    var at: nat -> bool := i => AtobAt(s, i);
    assert forall i: nat :: at(i) == AtobAt(s, i);
    Text.FirstWhere(|s|, at)
  }

  /** Lines 105 and 162: group 1 of the leftmost `window.atob('...')` in `s`. */
  function AtobPayload(s: string): (r: Option<string>)
    ensures r.None? <==> forall i :: 0 <= i < |s| ==> !AtobAt(s, i)
    ensures r.Some? ==> r.value != "" && Text.Excludes(r.value, '\'')
    ensures r.Some? ==> exists i :: Text.SubstringAt(s, AtobMarker + r.value + "'", i) && forall k :: 0 <= k < i ==> !AtobAt(s, k)
  {
    match FirstAtob(s)
    case None => None
    case Some(i) => Some(AtobGroup(s, i))
  }

  /** A page that opens with `window.atob('p')` yields `p`. */
  lemma AtobPayloadOf(p: string, rest: string)
    requires p != "" && Text.Excludes(p, '\'')
    ensures AtobPayload(AtobMarker + p + "'" + rest) == Some(p)
  {
    var s := AtobMarker + p + "'" + rest;
    var j := |AtobMarker|;
    assert s[..j] == AtobMarker;
    assert s[j..j + |p|] == p;
    assert s[j + |p|] == '\'';
    Text.SpanIs(s, j, |p|, NotQuote);
    assert AtobAt(s, 0);
  }

  // ----- 文件大小：([0-9.]+ [GMK]B) ------------------------------------------

  const SizeLabel := "文件大小："
  const UnknownSize := "未知大小"

  /** The text the size group captures: digits and dots, a space, one of
      `G`, `M`, `K`, and `B`. */
  predicate IsSizeText(t: string) {
    && |t| >= 4
    && (forall k :: 0 <= k < |t| - 3 ==> IsSizeChar(t[k]))
    && t[|t| - 3] == ' ' && IsUnit(t[|t| - 2]) && t[|t| - 1] == 'B'
  }

  /** The pattern matches at `i`: the label, the whole run of digits and
      dots (at least one), then a space, a unit letter and `B`. */
  predicate SizeAt(s: string, i: int) {
    && Text.SubstringAt(s, SizeLabel, i)
    && var j := i + |SizeLabel|;
       var n := Text.Span(s, j, IsSizeChar);
       n > 0 && j + n + 3 <= |s| && s[j + n] == ' ' && IsUnit(s[j + n + 1]) && s[j + n + 2] == 'B'
  }

  function SizeGroup(s: string, i: nat): (g: string)
    requires SizeAt(s, i)
    ensures IsSizeText(g) && Text.SubstringAt(s, SizeLabel + g, i)
  {
    var j := i + |SizeLabel|;
    var n := Text.Span(s, j, IsSizeChar);
    var g := s[j..j + n + 3];
    assert forall k :: 0 <= k < |g| ==> g[k] == s[j + k];
    assert s[i..j + n + 3] == s[i..j] + g;
    g
  }

  function FirstSize(s: string): (r: Option<nat>)
    ensures r.None? ==> forall i :: 0 <= i < |s| ==> !SizeAt(s, i)
    ensures r.Some? ==> r.value < |s| && SizeAt(s, r.value) && forall k :: 0 <= k < r.value ==> !SizeAt(s, k)
  {
    var at: nat -> bool := i => SizeAt(s, i);
    assert forall i: nat :: at(i) == SizeAt(s, i);
    Text.FirstWhere(|s|, at)
  }

  /** Lines 140-141: the group of the leftmost size match in the item's
      text, or `未知大小`. The `.strip()` there changes nothing, as
      `SizeTextStripped` shows. */
  function SizeOf(text: string): (r: string)
    ensures r == UnknownSize <==> forall i :: 0 <= i < |text| ==> !SizeAt(text, i)
    ensures r != UnknownSize ==> IsSizeText(r) && Text.Contains(text, SizeLabel + r)
    ensures r != UnknownSize ==>
      exists i :: 0 <= i < |text| && SizeAt(text, i) && (forall k :: 0 <= k < i ==> !SizeAt(text, k)) && r == SizeGroup(text, i)
  {
    match FirstSize(text)
    case None => UnknownSize
    case Some(i) =>
      var g := SizeGroup(text, i);
      assert g[|g| - 1] != UnknownSize[|UnknownSize| - 1];
      g
  }

  /** A size text neither starts nor ends with whitespace. */
  lemma SizeTextStripped(t: string)
    requires IsSizeText(t)
    ensures Text.Strip(t) == t
  {
    assert Decimal.IsDigit(t[0]) || t[0] == '.';
    Text.StripTrimmed(t);
  }

  /** A size written right after the label is the size reported. */
  lemma SizeOfLabelled(t: string, rest: string)
    requires IsSizeText(t)
    ensures SizeOf(SizeLabel + t + rest) == t
  {
    var s := SizeLabel + t + rest;
    var j := |SizeLabel|;
    var n := |t| - 3;
    assert s[..j] == SizeLabel;
    assert forall k :: j <= k < j + n ==> s[k] == t[k - j];
    assert s[j + n] == ' ' && s[j + n + 1] == t[|t| - 2] && s[j + n + 2] == 'B';
    Text.SpanIs(s, j, n, IsSizeChar);
    assert SizeAt(s, 0);
    assert s[j..j + n + 3] == t;
  }

  // ----- 创建时间：(\d{4}-\d{2}-\d{2}) ----------------------------------------

  const DateLabel := "创建时间："
  const UnknownTime := "未知时间"

  /** `\d{4}-\d{2}-\d{2}`, over ASCII digits. */
  predicate IsDate(d: string) {
    && |d| == 10
    && Decimal.IsDigit(d[0]) && Decimal.IsDigit(d[1]) && Decimal.IsDigit(d[2]) && Decimal.IsDigit(d[3])
    && d[4] == '-' && Decimal.IsDigit(d[5]) && Decimal.IsDigit(d[6])
    && d[7] == '-' && Decimal.IsDigit(d[8]) && Decimal.IsDigit(d[9])
  }

  predicate DateAt(s: string, i: int) {
    && Text.SubstringAt(s, DateLabel, i)
    && i + |DateLabel| + 10 <= |s|
    && IsDate(s[i + |DateLabel|..i + |DateLabel| + 10])
  }

  function DateGroup(s: string, i: nat): (d: string)
    requires DateAt(s, i)
    ensures IsDate(d) && Text.SubstringAt(s, DateLabel + d, i)
  {
    var j := i + |DateLabel|;
    var d := s[j..j + 10];
    assert s[i..j + 10] == s[i..j] + d;
    d
  }

  function FirstDate(s: string): (r: Option<nat>)
    ensures r.None? ==> forall i :: 0 <= i < |s| ==> !DateAt(s, i)
    ensures r.Some? ==> r.value < |s| && DateAt(s, r.value) && forall k :: 0 <= k < r.value ==> !DateAt(s, k)
  {
    var at: nat -> bool := i => DateAt(s, i);
    assert forall i: nat :: at(i) == DateAt(s, i);
    Text.FirstWhere(|s|, at)
  }

  /** Lines 142-143: the group of the leftmost creation-date match in the
      item's text, or `未知时间`. The `.strip()` there changes nothing, as
      `DateStripped` shows. */
  function DateOf(text: string): (r: string)
    ensures r == UnknownTime <==> forall i :: 0 <= i < |text| ==> !DateAt(text, i)
    ensures r != UnknownTime ==> IsDate(r) && Text.Contains(text, DateLabel + r)
    ensures r != UnknownTime ==>
      exists i :: 0 <= i < |text| && DateAt(text, i) && (forall k :: 0 <= k < i ==> !DateAt(text, k)) && r == DateGroup(text, i)
  {
    match FirstDate(text)
    case None => UnknownTime
    case Some(i) =>
      var d := DateGroup(text, i);
      assert |d| != |UnknownTime|;
      d
  }

  /** A date neither starts nor ends with whitespace. */
  lemma DateStripped(d: string)
    requires IsDate(d)
    ensures Text.Strip(d) == d
  {
    Decimal.DigitNotSpace(d[0]);
    Decimal.DigitNotSpace(d[9]);
    Text.StripTrimmed(d);
  }

  /** A date written right after the label is the date reported. */
  lemma DateOfLabelled(d: string, rest: string)
    requires IsDate(d)
    ensures DateOf(DateLabel + d + rest) == d
  {
    var s := DateLabel + d + rest;
    var j := |DateLabel|;
    assert s[..j] == DateLabel;
    assert s[j..j + 10] == d;
    assert DateAt(s, 0);
  }

  // ----- magnet:\?xt=urn:btih:[a-fA-F0-9]{40,}[^"']* ------------------------

  const MagnetPrefix := "magnet:?xt=urn:btih:"

  /** The pattern matches at `i`: the prefix, then at least forty hex
      digits. */
  predicate MagnetAt(s: string, i: int) {
    && Text.SubstringAt(s, MagnetPrefix, i)
    && Text.Span(s, i + |MagnetPrefix|, IsHex) >= 40
  }

  /** The whole match at `i`: the prefix, every hex digit, then every
      following character up to a quotation mark. */
  function MagnetMatch(s: string, i: nat): (m: string)
    requires MagnetAt(s, i)
    ensures |m| >= |MagnetPrefix| + 40 && Text.SubstringAt(s, m, i)
    ensures m[..|MagnetPrefix|] == MagnetPrefix && IsHex(m[|MagnetPrefix| + 39])
    ensures forall k :: 0 <= k < |m| ==> NotQuoteMark(m[k])
    ensures i + |m| < |s| ==> !NotQuoteMark(s[i + |m|])
  {
    var j := i + |MagnetPrefix|;
    var h := Text.Span(s, j, IsHex);
    var t := Text.Span(s, j + h, NotQuoteMark);
    var m := s[i..j + h + t];
    assert m[..|MagnetPrefix|] == MagnetPrefix by {
      assert m[..|MagnetPrefix|] == s[i..j];
    }
    assert m[|MagnetPrefix| + 39] == s[j + 39];
    forall k | 0 <= k < |m| ensures NotQuoteMark(m[k]) {
      if k < |MagnetPrefix| {
        PrefixUnquoted();
        assert m[k] == m[..|MagnetPrefix|][k];
      } else if k < |MagnetPrefix| + h {
        assert IsHex(s[i + k]);
      } else {
        assert NotQuoteMark(s[i + k]);
      }
    }
    m
  }

  lemma PrefixUnquoted()
    ensures forall k :: 0 <= k < |MagnetPrefix| ==> NotQuoteMark(MagnetPrefix[k])
  {
  }

  function FirstMagnet(s: string): (r: Option<nat>)
    ensures r.None? ==> forall i :: 0 <= i < |s| ==> !MagnetAt(s, i)
    ensures r.Some? ==> r.value < |s| && MagnetAt(s, r.value) && forall k :: 0 <= k < r.value ==> !MagnetAt(s, k)
  {
    var at: nat -> bool := i => MagnetAt(s, i);
    assert forall i: nat :: at(i) == MagnetAt(s, i);
    Text.FirstWhere(|s|, at)
  }

  lemma HexNotSpace(c: char)
    requires IsHex(c)
    ensures !Text.IsSpace(c)
  {
  }

  /** Lines 173-175: the stripped leftmost magnet match in `s`, if any. */
  function MagnetIn(s: string): (r: Option<string>)
    ensures r.None? <==> forall i :: 0 <= i < |s| ==> !MagnetAt(s, i)
    ensures r.Some? ==> Text.StartsWith(r.value, MagnetPrefix) && Text.Contains(s, r.value)
    ensures r.Some? ==> forall k :: 0 <= k < |r.value| ==> NotQuoteMark(r.value[k])
    ensures r.Some? ==>
      exists i :: 0 <= i < |s| && MagnetAt(s, i) && (forall k :: 0 <= k < i ==> !MagnetAt(s, k)) && r.value == Text.Strip(MagnetMatch(s, i))
  {
    match FirstMagnet(s)
    case None => None
    case Some(i) => Some(StrippedMagnet(s, i))
  }

  /** `.strip()` of the match at `i`: it can only lose trailing whitespace. */
  function StrippedMagnet(s: string, i: nat): (r: string)
    requires MagnetAt(s, i)
    ensures Text.StartsWith(r, MagnetPrefix) && Text.SubstringAt(s, r, i)
    ensures forall k :: 0 <= k < |r| ==> NotQuoteMark(r[k])
    ensures r == Text.Strip(MagnetMatch(s, i))
  {
    var m := MagnetMatch(s, i);
    HexNotSpace(m[|MagnetPrefix| + 39]);
    Text.StripKeepsPrefix(m, |MagnetPrefix| + 40);
    var r := Text.Strip(m);
    assert r == m[..|r|];
    Text.SubstringPrefix(s, m, i, |r|);
    assert r[..|MagnetPrefix|] == m[..|MagnetPrefix|];
    assert forall k :: 0 <= k < |r| ==> r[k] == m[k];
    r
  }

  /** A page that opens with the prefix, a value `v` of at least forty hex
      digits and more characters other than quotation marks, then a
      quotation mark, matches at 0 and the match is exactly `prefix + v`. */
  lemma MagnetMatchOf(v: string, tail: string)
    requires |v| >= 40 && forall k :: 0 <= k < 40 ==> IsHex(v[k])
    requires forall k :: 0 <= k < |v| ==> NotQuoteMark(v[k])
    requires tail != [] && !NotQuoteMark(tail[0])
    ensures MagnetAt(MagnetPrefix + v + tail, 0)
    ensures MagnetMatch(MagnetPrefix + v + tail, 0) == MagnetPrefix + v
  {
    var s := MagnetPrefix + v + tail;
    var j := |MagnetPrefix|;
    Text.Parts(MagnetPrefix, v, tail);
    Text.SpanAtLeast(s, j, 40, IsHex);
    var h := Text.Span(s, j, IsHex);
    assert !IsHex(s[j + |v|]);
    Text.SpanAtMost(s, j, |v|, IsHex);
    Text.SpanIs(s, j + h, |v| - h, NotQuoteMark);
  }

  /** A link written as the prefix and a value `v` that opens with forty hex
      digits, holds no quotation mark and does not end in whitespace, closed
      by a quotation mark, is extracted whole. */
  lemma MagnetInOf(v: string, q: char, rest: string)
    requires |v| >= 40 && forall k :: 0 <= k < 40 ==> IsHex(v[k])
    requires forall k :: 0 <= k < |v| ==> NotQuoteMark(v[k])
    requires !Text.IsSpace(v[|v| - 1])
    requires q == '\'' || q == '"'
    ensures MagnetIn(MagnetPrefix + v + [q] + rest) == Some(MagnetPrefix + v)
  {
    var s := MagnetPrefix + v + [q] + rest;
    assert s == MagnetPrefix + v + ([q] + rest);
    MagnetMatchOf(v, [q] + rest);
    var m := MagnetPrefix + v;
    assert m[0] == 'm' && m[|m| - 1] == v[|v| - 1];
    Text.StripTrimmed(m);
  }

  // ----- href filters --------------------------------------------------------

  const DetailKey := "xq.php?key="

  /** `href=re.compile(r"xq\.php\?key=")`: the link to a detail page. */
  predicate IsDetailHref(href: string) {
    Text.Contains(href, DetailKey)
  }

  /** `href=re.compile(r"magnet:\?xt=urn:btih:")`: a magnet anchor. */
  predicate IsMagnetHref(href: string) {
    Text.Contains(href, MagnetPrefix)
  }
}

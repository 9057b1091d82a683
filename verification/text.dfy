/** The handful of Python `str` operations the scraper relies on, stated over
    `seq<char>`: `isspace`, `strip`, `rstrip(c)`, `startswith`, `in`, slicing
    with `[:n]`, `split()` with no argument, `sep.join`, `split(sep)`, and the
    leftmost-position search that underlies every `re.search` in the source. */
module Text {
  import opened Wrappers

  /** Python's `str.isspace` for one character: the ASCII whitespace and
      separator controls, NEL, NBSP and the Unicode space separators. */
  predicate IsSpace(c: char) {
    || c == ' ' || c == '\t' || c == '\n' || c == '\r' || c == '\U{0B}' || c == '\U{0C}'
    || ('\U{1C}' <= c <= '\U{1F}')
    || c == '\U{85}' || c == '\U{A0}' || c == '\U{1680}'
    || ('\U{2000}' <= c <= '\U{200A}')
    || c == '\U{2028}' || c == '\U{2029}' || c == '\U{202F}' || c == '\U{205F}' || c == '\U{3000}'
  }

  predicate AllSpace(s: string) {
    forall i :: 0 <= i < |s| ==> IsSpace(s[i])
  }

  predicate NoSpace(s: string) {
    forall i :: 0 <= i < |s| ==> !IsSpace(s[i])
  }

  predicate StartsWith(s: string, prefix: string) {
    |prefix| <= |s| && s[..|prefix|] == prefix
  }

  predicate EndsWith(s: string, suffix: string) {
    |suffix| <= |s| && s[|s| - |suffix|..] == suffix
  }

  /** `t` occurs in `s` starting at position `i`. */
  predicate SubstringAt(s: string, t: string, i: int) {
    0 <= i && i + |t| <= |s| && s[i..i + |t|] == t
  }

  /** A prefix of a text found at `i` is found at `i` too. */
  lemma SubstringPrefix(s: string, t: string, i: int, n: nat)
    requires SubstringAt(s, t, i) && n <= |t|
    ensures SubstringAt(s, t[..n], i)
  {
    assert s[i..i + n] == s[i..i + |t|][..n];
  }

  /** Where the parts of `p + v + rest` sit. */
  lemma Parts(p: string, v: string, rest: string)
    ensures SubstringAt(p + v + rest, p, 0) && SubstringAt(p + v + rest, p + v, 0)
    ensures (p + v + rest)[..|p| + |v|] == p + v
    ensures forall k :: |p| <= k < |p| + |v| ==> (p + v + rest)[k] == v[k - |p|]
    ensures |rest| > 0 ==> (p + v + rest)[|p| + |v|] == rest[0]
  {
    var s := p + v + rest;
    assert s[..|p|] == p;
    assert s[..|p| + |v|] == p + v;
  }

  /** Python's `t in s` for strings. */
  predicate Contains(s: string, t: string) {
    exists i | 0 <= i <= |s| :: SubstringAt(s, t, i)
  }

  /** Python's `s[:n]` for a non-negative `n`. */
  function Take<T>(s: seq<T>, n: nat): (r: seq<T>)
    ensures |r| <= n && |r| <= |s|
    ensures r == s[..|r|]
    ensures |s| <= n ==> r == s
    ensures |s| > n ==> |r| == n
  {
    if |s| <= n then s else s[..n]
  }

  /** Length of the maximal run of characters satisfying `p` that starts at
      `j`: how far a greedy `[...]*` reaches. */
  function Span(s: string, j: nat, p: char -> bool): (n: nat)
    requires j <= |s|
    ensures j + n <= |s|
    ensures forall k :: j <= k < j + n ==> p(s[k])
    ensures j + n < |s| ==> !p(s[j + n])
    decreases |s| - j
  {
    if j < |s| && p(s[j]) then 1 + Span(s, j + 1, p) else 0
  }

  /** A run of `n` characters satisfying `p` from `j` is covered by the span. */
  lemma {:induction false} SpanAtLeast(s: string, j: nat, n: nat, p: char -> bool)
    requires j + n <= |s|
    requires forall k :: j <= k < j + n ==> p(s[k])
    ensures Span(s, j, p) >= n
    decreases n
  {
    if n > 0 {
      assert p(s[j]);
      SpanAtLeast(s, j + 1, n - 1, p);
    }
  }

  /** A character failing `p` at `j + n` ends the span there or earlier. */
  lemma {:induction false} SpanAtMost(s: string, j: nat, n: nat, p: char -> bool)
    requires j + n < |s| && !p(s[j + n])
    ensures Span(s, j, p) <= n
    decreases n
  {
    if n > 0 && p(s[j]) {
      SpanAtMost(s, j + 1, n - 1, p);
    }
  }

  /** Any run that is maximal is the span. */
  lemma SpanIs(s: string, j: nat, n: nat, p: char -> bool)
    requires j + n <= |s|
    requires forall k :: j <= k < j + n ==> p(s[k])
    requires j + n == |s| || !p(s[j + n])
    ensures Span(s, j, p) == n
  {
    SpanAtLeast(s, j, n, p);
    if j + n < |s| {
      SpanAtMost(s, j, n, p);
    }
  }

  /** Where the maximal run of characters satisfying `p` that ends at `e`
      begins, looking no further back than `lo`. */
  function SpanBack(s: string, lo: nat, e: nat, p: char -> bool): (b: nat)
    requires lo <= e <= |s|
    ensures lo <= b <= e
    ensures forall k :: b <= k < e ==> p(s[k])
    ensures b > lo ==> !p(s[b - 1])
    decreases e - lo
  {
    if e > lo && p(s[e - 1]) then SpanBack(s, lo, e - 1, p) else e
  }

  /** The slice of `s` left once characters satisfying `p` are removed from
      both ends: `strip()` for the whitespace set `p`. */
  function StripWith(s: string, p: char -> bool): (r: string)
    ensures |r| <= |s|
    ensures r == "" || (!p(r[0]) && !p(r[|r| - 1]))
    ensures r == "" <==> forall i :: 0 <= i < |s| ==> p(s[i])
  {
    var a := Span(s, 0, p);
    var b := SpanBack(s, a, |s|, p);
    s[a..b]
  }

  /** Python's `s.strip()`: `StripWith` over `str.isspace` (`StripSlice`
      states that it is such a slice). */
  function Strip(s: string): (r: string)
    ensures |r| <= |s|
    ensures r == "" || (!IsSpace(r[0]) && !IsSpace(r[|r| - 1]))
    ensures r == "" <==> AllSpace(s)
  {
    StripWith(s, IsSpace)
  }

  /** The stripped string sits in `s` with only whitespace before and after
      it; with the non-space ends `Strip` promises, this fixes it uniquely. */
  lemma StripSlice(s: string)
    ensures exists a ::
              && SubstringAt(s, Strip(s), a)
              && (forall k :: 0 <= k < a ==> IsSpace(s[k]))
              && (forall k :: a + |Strip(s)| <= k < |s| ==> IsSpace(s[k]))
  {
    var a := Span(s, 0, IsSpace);
    var b := SpanBack(s, a, |s|, IsSpace);
    assert Strip(s) == s[a..b];
    assert SubstringAt(s, s[a..b], a);
  }

  /** Stripping a string that neither starts nor ends with whitespace leaves it alone. */
  lemma StripTrimmed(s: string)
    requires s == "" || (!IsSpace(s[0]) && !IsSpace(s[|s| - 1]))
    ensures Strip(s) == s
  {
    if s != "" {
      assert Span(s, 0, IsSpace) == 0;
      assert SpanBack(s, 0, |s|, IsSpace) == |s|;
    }
  }

  /** A string that does not start with whitespace strips to a prefix of
      itself, one that reaches at least to any non-space character. */
  lemma StripKeepsPrefix(s: string, n: nat)
    requires 0 < n <= |s| && !IsSpace(s[0]) && !IsSpace(s[n - 1])
    ensures n <= |Strip(s)| && Strip(s) == s[..|Strip(s)|]
  {
    assert Span(s, 0, IsSpace) == 0;
    var b := SpanBack(s, 0, |s|, IsSpace);
    assert n <= b;
  }

  /** `strip` is idempotent. */
  lemma StripIdempotent(s: string)
    ensures Strip(Strip(s)) == Strip(s)
  {
    StripTrimmed(Strip(s));
  }

  /** Python's `s.rstrip(c)` for a single character `c`. */
  function RStripChar(s: string, c: char): (r: string)
    ensures |r| <= |s| && r == s[..|r|]
    ensures forall i :: |r| <= i < |s| ==> s[i] == c
    ensures r == "" || r[|r| - 1] != c
  {
    if |s| > 0 && s[|s| - 1] == c then RStripChar(s[..|s| - 1], c) else s
  }

  /** Length of the longest prefix of `s` free of whitespace. */
  function WordLength(s: string): (n: nat)
    ensures n <= |s| && NoSpace(s[..n])
    ensures n < |s| ==> IsSpace(s[n])
  {
    if |s| == 0 || IsSpace(s[0]) then 0
    else
      var m := WordLength(s[1..]);
      assert s[..1 + m] == [s[0]] + s[1..][..m];
      1 + m
  }

  /** Python's `s.split()` with no argument: the maximal runs of
      non-whitespace characters, in order. */
  function Words(s: string): (ws: seq<string>)
    ensures forall k :: 0 <= k < |ws| ==> ws[k] != "" && NoSpace(ws[k])
    decreases |s|
  {
    if |s| == 0 then []
    else if IsSpace(s[0]) then Words(s[1..])
    else
      var n := WordLength(s);
      [s[..n]] + Words(s[n..])
  }

  /** Python's `sep.join(parts)`. */
  function Join(parts: seq<string>, sep: string): string
  {
    if |parts| == 0 then ""
    else if |parts| == 1 then parts[0]
    else parts[0] + sep + Join(parts[1..], sep)
  }

  lemma WordLengthOfWord(w: string, t: string)
    requires NoSpace(w)
    requires t == "" || IsSpace(t[0])
    ensures WordLength(w + t) == |w|
  {
    if w != "" {
      assert (w + t)[1..] == w[1..] + t;
      WordLengthOfWord(w[1..], t);
    }
  }

  /** Splitting the space-joined words gives back the words: the keyword the
      handler rebuilds with `" ".join` holds exactly the tokens it came from. */
  lemma {:induction false} WordsOfJoin(ws: seq<string>)
    requires forall k :: 0 <= k < |ws| ==> ws[k] != "" && NoSpace(ws[k])
    ensures Words(Join(ws, " ")) == ws
  {
    if |ws| == 0 {
    } else if |ws| == 1 {
      var w := ws[0];
      WordLengthOfWord(w, "");
      assert w + "" == w;
      assert w[..|w|] == w && w[|w|..] == "";
    } else {
      var w := ws[0];
      var rest := Join(ws[1..], " ");
      var s := w + " " + rest;
      assert s == w + (" " + rest);
      WordLengthOfWord(w, " " + rest);
      assert s[..|w|] == w;
      assert s[|w|..] == " " + rest;
      assert (" " + rest)[1..] == rest;
      WordsOfJoin(ws[1..]);
      assert Words(s) == [w] + Words(" " + rest);
      assert ws == [w] + ws[1..];
    }
  }

  /** Joining two non-empty lists is joining each and putting one
      separator between them. */
  lemma {:induction false} JoinAppend(a: seq<string>, b: seq<string>, sep: string)
    requires |a| > 0 && |b| > 0
    ensures Join(a + b, sep) == Join(a, sep) + sep + Join(b, sep)
    decreases |a|
  {
    if |a| == 1 {
      assert (a + b)[1..] == b;
    } else {
      JoinAppend(a[1..], b, sep);
      assert (a + b)[1..] == a[1..] + b;
    }
  }

  /** Whitespace in front of a string adds no words. */
  lemma {:induction false} WordsAfterSpace(p: string, t: string)
    requires AllSpace(p)
    ensures Words(p + t) == Words(t)
    decreases |p|
  {
    if p != "" {
      assert (p + t)[0] == p[0] && IsSpace(p[0]);
      assert (p + t)[1..] == p[1..] + t;
      WordsAfterSpace(p[1..], t);
    } else {
      assert p + t == t;
    }
  }

  lemma {:induction false} WordLengthBeforeSpace(t: string, q: string)
    requires AllSpace(q)
    ensures WordLength(t + q) == WordLength(t)
    decreases |t|
  {
    if t != "" && !IsSpace(t[0]) {
      assert (t + q)[1..] == t[1..] + q;
      WordLengthBeforeSpace(t[1..], q);
    }
  }

  /** Whitespace after a string adds no words. */
  lemma {:induction false} WordsBeforeSpace(t: string, q: string)
    requires AllSpace(q)
    ensures Words(t + q) == Words(t)
    decreases |t|
  {
    if t == "" {
      WordsAfterSpace(q, "");
      assert q + "" == q && "" + q == q;
    } else if IsSpace(t[0]) {
      assert (t + q)[1..] == t[1..] + q;
      WordsBeforeSpace(t[1..], q);
    } else {
      var n := WordLength(t);
      WordLengthBeforeSpace(t, q);
      assert (t + q)[..n] == t[..n];
      assert (t + q)[n..] == t[n..] + q;
      WordsBeforeSpace(t[n..], q);
    }
  }

  /** The whitespace `strip` removes: a run before the result and one after. */
  lemma StripParts(s: string) returns (p: string, q: string)
    ensures AllSpace(p) && AllSpace(q) && s == p + Strip(s) + q
  {
    var a := Span(s, 0, IsSpace);
    var b := SpanBack(s, a, |s|, IsSpace);
    p, q := s[..a], s[b..];
    assert Strip(s) == s[a..b];
    assert s == p + s[a..b] + q;
  }

  /** Any run that is maximal looking back from `e` is what `SpanBack` finds. */
  lemma {:induction false} SpanBackIs(s: string, lo: nat, e: nat, b: nat, p: char -> bool)
    requires lo <= b <= e <= |s|
    requires forall k :: b <= k < e ==> p(s[k])
    requires b > lo ==> !p(s[b - 1])
    ensures SpanBack(s, lo, e, p) == b
    decreases e - b
  {
    if e > b {
      SpanBackIs(s, lo, e - 1, b, p);
    }
  }

  /** Characters of `p` around a text that neither starts nor ends with one
      are exactly what `StripWith` removes. */
  lemma StripWithPadded(a: string, m: string, b: string, p: char -> bool)
    requires (forall i :: 0 <= i < |a| ==> p(a[i])) && (forall i :: 0 <= i < |b| ==> p(b[i]))
    requires m != "" && !p(m[0]) && !p(m[|m| - 1])
    ensures StripWith(a + m + b, p) == m
  {
    var s := a + m + b;
    assert s[|a|] == m[0];
    SpanIs(s, 0, |a|, p);
    assert s[|a| + |m| - 1] == m[|m| - 1];
    assert forall k :: |a| + |m| <= k < |s| ==> s[k] == b[k - |a| - |m|];
    SpanBackIs(s, |a|, |s|, |a| + |m|, p);
    assert s[|a|..|a| + |m|] == m;
  }

  /** Whitespace around a text that neither starts nor ends with whitespace
      is exactly what `strip` removes. */
  lemma StripPadded(p: string, m: string, q: string)
    requires AllSpace(p) && AllSpace(q)
    requires m != "" && !IsSpace(m[0]) && !IsSpace(m[|m| - 1])
    ensures Strip(p + m + q) == m
  {
    StripWithPadded(p, m, q, IsSpace);
  }

  /** `s.strip().split() == s.split()`: stripping first changes no word. */
  lemma WordsOfStrip(s: string)
    ensures Words(Strip(s)) == Words(s)
  {
    var p, q := StripParts(s);
    var m := Strip(s);
    assert s == p + (m + q);
    assert Words(s) == Words(m + q) by {
      WordsAfterSpace(p, m + q);
    }
    assert Words(m + q) == Words(m) by {
      WordsBeforeSpace(m, q);
    }
  }

  /** Python's `s.split(sep)` for a one-character separator. */
  function SplitOn(s: string, sep: char): (parts: seq<string>)
    ensures |parts| >= 1
    decreases |s|
  {
    if |s| == 0 then [""]
    else
      var rest := SplitOn(s[1..], sep);
      if s[0] == sep then [""] + rest
      else [[s[0]] + rest[0]] + rest[1..]
  }

  predicate Excludes(s: string, c: char) {
    forall i :: 0 <= i < |s| ==> s[i] != c
  }

  lemma {:induction false} SplitOnPiece(w: string, t: string, sep: char)
    requires Excludes(w, sep)
    ensures SplitOn(w + t, sep) == [w + SplitOn(t, sep)[0]] + SplitOn(t, sep)[1..]
    decreases |w|
  {
    if w != "" {
      assert (w + t)[1..] == w[1..] + t;
      SplitOnPiece(w[1..], t, sep);
      assert [w[0]] + (w[1..] + SplitOn(t, sep)[0]) == w + SplitOn(t, sep)[0];
    } else {
      var parts := SplitOn(t, sep);
      assert w + t == t;
      assert w + parts[0] == parts[0];
      assert [parts[0]] + parts[1..] == parts;
    }
  }

  /** Splitting the `sep`-joined lines on `sep` gives back the lines, provided
      no line contains `sep`. */
  lemma {:induction false} SplitOnJoin(lines: seq<string>, sep: char)
    requires |lines| >= 1
    requires forall k :: 0 <= k < |lines| ==> Excludes(lines[k], sep)
    ensures SplitOn(Join(lines, [sep]), sep) == lines
  {
    if |lines| == 1 {
      SplitOnPiece(lines[0], "", sep);
      assert lines[0] + "" == lines[0];
    } else {
      var rest := Join(lines[1..], [sep]);
      SplitOnJoin(lines[1..], sep);
      assert Join(lines, [sep]) == lines[0] + ([sep] + rest);
      SplitOnPiece(lines[0], [sep] + rest, sep);
      assert ([sep] + rest)[1..] == rest;
      assert SplitOn([sep] + rest, sep) == [""] + lines[1..];
      assert lines[0] + "" == lines[0];
      assert lines == [lines[0]] + lines[1..];
    }
  }

  /** The least index below `n` at which `p` holds: the leftmost-match rule of
      `re.search`, and of BeautifulSoup's `find`, over positions `0..n-1`. */
  function FirstWhere(n: nat, p: nat -> bool): (r: Option<nat>)
    ensures r.Some? ==> r.value < n && p(r.value) && forall j :: 0 <= j < r.value ==> !p(j)
    ensures r.None? ==> forall j :: 0 <= j < n ==> !p(j)
  {
    FirstFrom(0, n, p)
  }

  function FirstFrom(i: nat, n: nat, p: nat -> bool): (r: Option<nat>)
    requires i <= n
    ensures r.Some? ==> i <= r.value < n && p(r.value) && forall j :: i <= j < r.value ==> !p(j)
    ensures r.None? ==> forall j :: i <= j < n ==> !p(j)
    decreases n - i
  {
    if i == n then None
    else if p(i) then Some(i)
    else FirstFrom(i + 1, n, p)
  }
}

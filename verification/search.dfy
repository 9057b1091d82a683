/** `MagnetSearchService.search` (main.py:87-194): fetch the search page,
    decrypt its `window.atob` payload, collect one candidate per distinct
    detail link among the first `max_results` list items, then fetch every
    detail page and format one record per candidate.

    The network is the oracle `fetch` (a body, or the text of the exception
    raised); the HTML parser is the oracle `parse`, which yields the parts of
    a page the scraper looks at: its anchors that carry an `href`, in document
    order, and the `li` items of its `Search_list_wrapper` list, if there is
    one. */
module Search {
  import opened Wrappers
  import Text
  import Decimal
  import Base64
  import Utf8
  import Percent
  import Config
  import Patterns
  import MagnetUtils

  /** An `<a>` element with an `href`, and its text. */
  datatype Anchor = Anchor(href: string, text: string)

  /** A result `li`: whether it holds a `ul.pagination`, its anchors in
      document order, and its whole text. */
  datatype Item = Item(hasPagination: bool, anchors: seq<Anchor>, text: string)

  /** A parsed page: all its anchors, and the items of the result list when
      the page has a `ul#Search_list_wrapper`. */
  datatype Document = Document(anchors: seq<Anchor>, resultList: Option<seq<Item>>)

  /** One entry of `detail_links`. */
  datatype Candidate = Candidate(url: string, title: string, size: string, createTime: string)

  type Fetch = string -> Result<string, string>

  /** BeautifulSoup's `find("a", href=pattern)`: the first anchor whose
      `href` the pattern matches. */
  function FindAnchor(anchors: seq<Anchor>, isTarget: string -> bool): (r: Option<Anchor>)
    ensures r.None? <==> forall k :: 0 <= k < |anchors| ==> !isTarget(anchors[k].href)
    ensures r.Some? ==> isTarget(r.value.href)
    ensures r.Some? ==> exists k :: 0 <= k < |anchors| && anchors[k] == r.value && forall j :: 0 <= j < k ==> !isTarget(anchors[j].href)
  {
    var at: nat -> bool := k => 0 <= k < |anchors| && isTarget(anchors[k].href);
    assert forall k: nat :: at(k) == (k < |anchors| && isTarget(anchors[k].href));
    match Text.FirstWhere(|anchors|, at)
    case None => None
    case Some(k) => Some(anchors[k])
  }

  const FallbackTitle := "搜索结果"

  /** Line 139: the stripped link text, or `搜索结果{idx+1}` when that is
      empty. */
  function Title(linkText: string, idx: nat): (t: string)
    ensures t != "" && Text.Strip(t) == t
    ensures !Text.AllSpace(linkText) ==> t == Text.Strip(linkText)
    ensures Text.AllSpace(linkText) ==> t == FallbackTitle + Decimal.Show(idx + 1)
  {
    var s := Text.Strip(linkText);
    if s != "" then
      Text.StripIdempotent(linkText);
      s
    else
      var t := FallbackTitle + Decimal.Show(idx + 1);
      assert !Text.IsSpace(t[0]) by { assert t[0] == '搜'; }
      assert !Text.IsSpace(t[|t| - 1]) by {
        assert t[|t| - 1] == Decimal.Show(idx + 1)[|Decimal.Show(idx + 1)| - 1];
        Decimal.DigitNotSpace(t[|t| - 1]);
      }
      Text.StripTrimmed(t);
      t
  }

  /** Lines 126-150 for the item at index `idx`: nothing for a pagination
      item or an item without a detail link, and otherwise a candidate built
      from the item's first detail link (see `ExamineFields`). */
  function Examine(base: string, item: Item, idx: nat): (r: Option<Candidate>)
    ensures r.None? <==> item.hasPagination || forall k :: 0 <= k < |item.anchors| ==> !Patterns.IsDetailHref(item.anchors[k].href)
  {
    if item.hasPagination then None
    else
      match FindAnchor(item.anchors, Patterns.IsDetailHref)
      case None => None
      case Some(a) =>
        Some(Candidate(MagnetUtils.GetFullUrl(base, a.href), Title(a.text, idx), Patterns.SizeOf(item.text), Patterns.DateOf(item.text)))
  }

  /** The fields of a candidate: the URL and title come from the first
      detail link of the item, the size and creation time from its text,
      each with its fallback. */
  lemma ExamineFields(base: string, item: Item, idx: nat)
    requires Examine(base, item, idx).Some?
    ensures var c := Examine(base, item, idx).value;
      && (exists k ::
          && 0 <= k < |item.anchors|
          && Patterns.IsDetailHref(item.anchors[k].href)
          && (forall j :: 0 <= j < k ==> !Patterns.IsDetailHref(item.anchors[j].href))
          && c.url == MagnetUtils.GetFullUrl(base, item.anchors[k].href)
          && (!Text.AllSpace(item.anchors[k].text) ==> c.title == Text.Strip(item.anchors[k].text))
          && (Text.AllSpace(item.anchors[k].text) ==> c.title == FallbackTitle + Decimal.Show(idx + 1)))
      && c.title != ""
      && c.size == Patterns.SizeOf(item.text)
      && c.createTime == Patterns.DateOf(item.text)
      && (c.size == Patterns.UnknownSize || Patterns.IsSizeText(c.size))
      && (c.size == Patterns.UnknownSize <==> forall i :: 0 <= i < |item.text| ==> !Patterns.SizeAt(item.text, i))
      && (c.createTime == Patterns.UnknownTime || Patterns.IsDate(c.createTime))
      && (c.createTime == Patterns.UnknownTime <==> forall i :: 0 <= i < |item.text| ==> !Patterns.DateAt(item.text, i))
  {
    var a := FindAnchor(item.anchors, Patterns.IsDetailHref).value;
    var t := Title(a.text, idx);
    var sz := Patterns.SizeOf(item.text);
    var d := Patterns.DateOf(item.text);
  }

  function Urls(cs: seq<Candidate>): set<string> {
    set i | 0 <= i < |cs| :: cs[i].url
  }

  lemma UrlsAppend(cs: seq<Candidate>, c: Candidate)
    ensures Urls(cs + [c]) == Urls(cs) + {c.url}
  {
    var ds := cs + [c];
    assert forall i :: 0 <= i < |cs| ==> ds[i] == cs[i];
    assert ds[|cs|] == c;
  }

  /** What the loop body makes of each item, by index. */
  function Examined(base: string, items: seq<Item>): (ys: seq<Option<Candidate>>)
    ensures |ys| == |items| && forall i :: 0 <= i < |items| ==> ys[i] == Examine(base, items[i], i)
  {
    seq(|items|, i requires 0 <= i < |items| => Examine(base, items[i], i))
  }

  /** One step of the loop: keep a candidate unless its URL is taken. */
  function Add(cs: seq<Candidate>, y: Option<Candidate>): seq<Candidate> {
    match y
    case None => cs
    case Some(c) => if c.url in Urls(cs) then cs else cs + [c]
  }

  /** The loop as a left fold over the examined items. */
  function Dedupe(ys: seq<Option<Candidate>>): (cs: seq<Candidate>)
    ensures |cs| <= |ys|
  {
    if |ys| == 0 then [] else Add(Dedupe(ys[..|ys| - 1]), ys[|ys| - 1])
  }

  /** How many items line 124 lets through: indices below `max_results`. */
  function Limit(maxResults: int, n: nat): (m: nat)
    ensures m <= n && (maxResults >= 0 ==> m <= maxResults)
    ensures m < n ==> m == if maxResults <= 0 then 0 else maxResults
  {
    if maxResults <= 0 then 0 else if n <= maxResults then n else maxResults
  }

  /** The fold takes one more item at a time. */
  lemma DedupeStep(ys: seq<Option<Candidate>>, idx: nat)
    requires idx < |ys|
    ensures Dedupe(ys[..idx + 1]) == Add(Dedupe(ys[..idx]), ys[idx])
  {
    assert ys[..idx + 1][..idx] == ys[..idx];
  }

  /** `detail_links` for the list `items`. */
  function Candidates(cfg: Config.MagnetConfig, items: seq<Item>): (cs: seq<Candidate>)
    ensures |cs| <= Limit(cfg.maxResults, |items|)
  {
    Dedupe(Examined(cfg.baseUrl, items)[..Limit(cfg.maxResults, |items|)])
  }

  // ----- the candidate list, stated without the fold -------------------------

  /** The item at `j` yields a candidate with URL `u`. */
  predicate YieldsUrl(ys: seq<Option<Candidate>>, j: nat, u: string)
    requires j < |ys|
  {
    ys[j].Some? && ys[j].value.url == u
  }

  /** The item at `k` yields a candidate, and no earlier item yields its URL. */
  predicate FirstWithUrl(ys: seq<Option<Candidate>>, k: nat)
    requires k < |ys|
  {
    ys[k].Some? && forall j :: 0 <= j < k ==> !YieldsUrl(ys, j, ys[k].value.url)
  }

  /** Reference definition: the candidates of the items among the first `n`
      that are the first to yield their URL, in item order. */
  function Select(ys: seq<Option<Candidate>>, n: nat): seq<Candidate>
    requires n <= |ys|
  {
    if n == 0 then []
    else Select(ys, n - 1) + if FirstWithUrl(ys, n - 1) then [ys[n - 1].value] else []
  }

  /** The fold computes the reference list, and its URLs are exactly those
      the examined items yield. */
  lemma {:induction false} DedupeSelect(ys: seq<Option<Candidate>>, n: nat)
    requires n <= |ys|
    ensures Dedupe(ys[..n]) == Select(ys, n)
    ensures forall u :: u in Urls(Dedupe(ys[..n])) <==> exists j :: 0 <= j < n && YieldsUrl(ys, j, u)
  {
    if n > 0 {
      var m := n - 1;
      DedupeSelect(ys, m);
      assert ys[..n][..m] == ys[..m];
      var cs := Dedupe(ys[..m]);
      assert Dedupe(ys[..n]) == Add(cs, ys[m]);
      match ys[m]
      case None =>
        assert !FirstWithUrl(ys, m);
        assert Select(ys, n) == Select(ys, m) + [];
        assert forall u :: !YieldsUrl(ys, m, u);
      case Some(c) =>
        assert YieldsUrl(ys, m, c.url);
        if c.url in Urls(cs) {
          assert !FirstWithUrl(ys, m);
          assert Select(ys, n) == Select(ys, m) + [];
        } else {
          assert FirstWithUrl(ys, m);
          UrlsAppend(cs, c);
        }
    }
  }

  predicate DistinctUrls(cs: seq<Candidate>) {
    forall i, j :: 0 <= i < j < |cs| ==> cs[i].url != cs[j].url
  }

  /** No two candidates share a URL. */
  lemma {:induction false} DedupeDistinct(ys: seq<Option<Candidate>>)
    ensures DistinctUrls(Dedupe(ys))
  {
    if |ys| > 0 {
      var n := |ys| - 1;
      DedupeDistinct(ys[..n]);
      var cs := Dedupe(ys[..n]);
      assert Dedupe(ys) == Add(cs, ys[n]);
      match ys[n]
      case None =>
      case Some(c) =>
        if c.url !in Urls(cs) {
          var ds := cs + [c];
          forall i, j | 0 <= i < j < |ds| ensures ds[i].url != ds[j].url {
            assert ds[i] == cs[i] && cs[i].url in Urls(cs);
            if j < |cs| {
              assert ds[j] == cs[j];
            }
          }
        }
    }
  }

  /** Lines 120-150 in terms of candidates: at most `max_results` of them,
      none sharing a URL, in the order of the reference definition over the
      examined items; and a URL is among them exactly when an item below the
      bound yields it. */
  lemma CandidatesSpec(cfg: Config.MagnetConfig, items: seq<Item>)
    ensures var cs := Candidates(cfg, items);
      && (cfg.maxResults >= 0 ==> |cs| <= cfg.maxResults)
      && DistinctUrls(cs)
      && cs == Select(Examined(cfg.baseUrl, items), Limit(cfg.maxResults, |items|))
    ensures forall u :: u in Urls(Candidates(cfg, items)) <==>
      exists j :: 0 <= j < Limit(cfg.maxResults, |items|) && YieldsUrl(Examined(cfg.baseUrl, items), j, u)
  {
    var m := Limit(cfg.maxResults, |items|);
    var ys := Examined(cfg.baseUrl, items);
    DedupeSelect(ys, m);
    DedupeDistinct(ys[..m]);
  }

  /** The candidate loop (lines 120-150) as written, with the `processed_urls`
      set and the early `break`. */
  method ExtractCandidates(cfg: Config.MagnetConfig, items: seq<Item>) returns (cs: seq<Candidate>)
    ensures cs == Candidates(cfg, items)
  {
    var base := cfg.baseUrl;
    ghost var ys := Examined(base, items);
    cs := [];
    var processed: set<string> := {};
    var idx := 0;
    while idx < |items|
      invariant idx <= Limit(cfg.maxResults, |items|)
      invariant cs == Dedupe(ys[..idx])
      invariant processed == Urls(cs)
    {
      if idx >= cfg.maxResults {
        break;
      }
      DedupeStep(ys, idx);
      var li := items[idx];
      if li.hasPagination {
        idx := idx + 1;
        continue;
      }
      var link := FindAnchor(li.anchors, Patterns.IsDetailHref);
      if link.None? {
        idx := idx + 1;
        continue;
      }
      var fullUrl := MagnetUtils.GetFullUrl(base, link.value.href);
      if fullUrl in processed {
        idx := idx + 1;
        continue;
      }
      processed := processed + {fullUrl};
      var c := Candidate(fullUrl, Title(link.value.text, idx), Patterns.SizeOf(li.text), Patterns.DateOf(li.text));
      assert Examine(base, li, idx) == Some(c);
      UrlsAppend(cs, c);
      cs := cs + [c];
      idx := idx + 1;
    }
    assert idx == Limit(cfg.maxResults, |items|);
    assert cs == Dedupe(Examined(base, items)[..Limit(cfg.maxResults, |items|)]);
  }

  // ----- the detail phase ----------------------------------------------------

  const NotExtracted := "未提取到"

  /** Lines 169-171: the stripped `href` of the first magnet anchor of the
      search page. The page is the same for every candidate. */
  function OuterMagnet(doc: Document): (r: Option<string>)
    ensures r.None? <==> forall k :: 0 <= k < |doc.anchors| ==> !Patterns.IsMagnetHref(doc.anchors[k].href)
    ensures r.Some? ==> r.value != ""
    ensures r.Some? ==> exists k ::
      && 0 <= k < |doc.anchors|
      && Patterns.IsMagnetHref(doc.anchors[k].href)
      && (forall j :: 0 <= j < k ==> !Patterns.IsMagnetHref(doc.anchors[j].href))
      && r.value == Text.Strip(doc.anchors[k].href)
  {
    match FindAnchor(doc.anchors, Patterns.IsMagnetHref)
    case None => None
    case Some(a) =>
      assert !Text.AllSpace(a.href) by {
        var i :| 0 <= i <= |a.href| && Text.SubstringAt(a.href, Patterns.MagnetPrefix, i);
        assert a.href[i] == Patterns.MagnetPrefix[0];
      }
      Some(Text.Strip(a.href))
  }

  /** Lines 162-165: a detail page with a `window.atob` payload is read as
      the decrypted payload, any other page as it is. */
  function DetailHtml(raw: string): (html: string)
    ensures Patterns.AtobPayload(raw).None? ==> html == raw
  {
    match Patterns.AtobPayload(raw)
    case None => raw
    case Some(p) => MagnetUtils.DecryptBase64(p)
  }

  /** Lines 168-175 and 180: the outer magnet when there is a non-empty one,
      otherwise the magnet found in the detail page, otherwise `未提取到`. */
  function MagnetLink(outer: Option<string>, html: string): (m: string)
    ensures outer.Some? && outer.value != "" ==> m == outer.value
    ensures (outer.None? || outer.value == "") ==> (m == NotExtracted <==> Patterns.MagnetIn(html).None?)
    ensures (outer.None? || outer.value == "") && m != NotExtracted ==>
      Text.StartsWith(m, Patterns.MagnetPrefix) && Text.Contains(html, m) && Patterns.MagnetIn(html) == Some(m)
  {
    if outer.Some? && outer.value != "" then outer.value
    else
      match Patterns.MagnetIn(html)
      case None => NotExtracted
      case Some(v) =>
        assert |v| != |NotExtracted|;
        v
  }

  const TitleLabel := "标题："
  const MagnetLabel := "磁力链接："
  const TimeLabel := "收录时间："
  const FailedLabel := "解析失败："
  const SearchFailedLabel := "搜索失败："

  /** The lines of a success record (lines 178-183). */
  function SuccessLines(c: Candidate, magnet: string): seq<string> {
    [TitleLabel + c.title, MagnetLabel + magnet, Patterns.SizeLabel + c.size, TimeLabel + c.createTime]
  }

  /** The lines of a failure record (line 185): only the first thirty
      characters of the error are kept. */
  function FailureLines(c: Candidate, error: string): seq<string> {
    [TitleLabel + c.title, FailedLabel + Text.Take(error, 30), Patterns.SizeLabel + c.size]
  }

  /** The f-strings of lines 178-183 and 185 put `\n` between the lines. */
  function Lines(lines: seq<string>): string {
    Text.Join(lines, "\n")
  }

  /** One pass of the loop at lines 156-185, given the fetch of the
      candidate's page. */
  function DetailRecord(c: Candidate, outer: Option<string>, page: Result<string, string>): string {
    match page
    case Failure(e) => Lines(FailureLines(c, e))
    case Success(raw) => Lines(SuccessLines(c, MagnetLink(outer, DetailHtml(raw))))
  }

  /** Lines 156-185: one record per candidate, in order; a failed fetch only
      affects its own record. */
  function Details(cs: seq<Candidate>, outer: Option<string>, fetch: Fetch): (rs: seq<string>)
    ensures |rs| == |cs|
    ensures forall i :: 0 <= i < |cs| ==> rs[i] == DetailRecord(cs[i], outer, fetch(cs[i].url))
    decreases |cs|
  {
    if |cs| == 0 then []
    else [DetailRecord(cs[0], outer, fetch(cs[0].url))] + Details(cs[1..], outer, fetch)
  }

  /** Line 94. */
  function SearchUrl(cfg: Config.MagnetConfig, keyword: string): string {
    cfg.baseUrl + cfg.searchPath + "?name=" + Percent.Quote(keyword)
  }

  /** `search(keyword)`: a failed search request gives the single record
      `搜索失败：` and at most fifty characters of the error (lines 187-189);
      a page without a payload, or whose decrypted page has no result list,
      gives no records (lines 105-108, 115-118); otherwise the records are
      those of the detail phase over the candidates, the search page's
      magnet anchor serving all of them. */
  function Search(cfg: Config.MagnetConfig, keyword: string, fetch: Fetch, parse: string -> Document): (r: seq<string>)
    ensures fetch(SearchUrl(cfg, keyword)).Failure? ==>
      && |r| == 1
      && Text.StartsWith(r[0], SearchFailedLabel)
      && |r[0]| <= |SearchFailedLabel| + 50
      && Text.StartsWith(fetch(SearchUrl(cfg, keyword)).error, r[0][|SearchFailedLabel|..])
      && r[0] == SearchFailedLabel + Text.Take(fetch(SearchUrl(cfg, keyword)).error, 50)
    ensures fetch(SearchUrl(cfg, keyword)).Success? && Patterns.AtobPayload(fetch(SearchUrl(cfg, keyword)).value).None? ==> r == []
    ensures fetch(SearchUrl(cfg, keyword)).Success? && Patterns.AtobPayload(fetch(SearchUrl(cfg, keyword)).value).Some? ==>
      var doc := parse(MagnetUtils.DecryptBase64(Patterns.AtobPayload(fetch(SearchUrl(cfg, keyword)).value).value));
      && (doc.resultList.None? ==> r == [])
      && (doc.resultList.Some? ==> r == Details(Candidates(cfg, doc.resultList.value), OuterMagnet(doc), fetch))
  {
    match fetch(SearchUrl(cfg, keyword))
    case Failure(e) =>
      var line := SearchFailedLabel + Text.Take(e, 50);
      assert line[..|SearchFailedLabel|] == SearchFailedLabel;
      assert line[|SearchFailedLabel|..] == Text.Take(e, 50);
      [line]
    case Success(raw) =>
      match Patterns.AtobPayload(raw)
      case None => []
      case Some(p) =>
        var doc := parse(MagnetUtils.DecryptBase64(p));
        match doc.resultList
        case None => []
        case Some(items) =>
          var cs := Candidates(cfg, items);
          if cs == [] then [] else Details(cs, OuterMagnet(doc), fetch)
  }

  // ----- properties of the search ---------------------------------------------

  /** The query of the search URL carries the keyword: it holds only
      characters that need no escaping in a query value, and unquotes to the
      keyword. */
  lemma SearchUrlQuery(cfg: Config.MagnetConfig, keyword: string)
    ensures var head := cfg.baseUrl + cfg.searchPath + "?name=";
      && Text.StartsWith(SearchUrl(cfg, keyword), head)
      && Percent.Unquote(SearchUrl(cfg, keyword)[|head|..]) == keyword
      && forall i :: |head| <= i < |SearchUrl(cfg, keyword)| ==> Percent.QuotedChar(SearchUrl(cfg, keyword)[i])
  {
    var head := cfg.baseUrl + cfg.searchPath + "?name=";
    var q := Percent.Quote(keyword);
    var u := SearchUrl(cfg, keyword);
    assert u == head + q;
    assert u[..|head|] == head && u[|head|..] == q;
    Percent.UnquoteQuote(keyword);
    Percent.QuoteChars(keyword);
  }

  /** The detail phase gives one record per candidate, in candidate order,
      each opening with the candidate's title line and depending only on
      the fetch of its own candidate's page. */
  lemma DetailsInOrder(cs: seq<Candidate>, outer: Option<string>, fetch: Fetch)
    ensures var r := Details(cs, outer, fetch);
      && |r| == |cs|
      && forall i :: 0 <= i < |cs| ==>
        && r[i] == DetailRecord(cs[i], outer, fetch(cs[i].url))
        && Text.StartsWith(r[i], TitleLabel + cs[i].title + "\n")
  {
    forall i | 0 <= i < |cs| ensures Text.StartsWith(DetailRecord(cs[i], outer, fetch(cs[i].url)), TitleLabel + cs[i].title + "\n") {
      RecordOpensWithTitle(cs[i], outer, fetch(cs[i].url));
    }
  }

  lemma RecordOpensWithTitle(c: Candidate, outer: Option<string>, page: Result<string, string>)
    ensures Text.StartsWith(DetailRecord(c, outer, page), TitleLabel + c.title + "\n")
  {
    var lines := match page
      case Failure(e) => FailureLines(c, e)
      case Success(raw) => SuccessLines(c, MagnetLink(outer, DetailHtml(raw)));
    assert DetailRecord(c, outer, page) == lines[0] + "\n" + Text.Join(lines[1..], "\n");
    Text.Parts(lines[0], "\n", Text.Join(lines[1..], "\n"));
  }

  /** The magnet lookup reads the search page, not the detail page (line
      169): once the search page has a magnet anchor, every fetched detail
      page gets that same magnet, whatever the page holds. */
  lemma OuterMagnetShared(c: Candidate, doc: Document, raw: string)
    requires OuterMagnet(doc).Some?
    ensures DetailRecord(c, OuterMagnet(doc), Success(raw)) == Lines(SuccessLines(c, OuterMagnet(doc).value))
  {
  }

  /** A success record splits back into its four lines when no field holds
      a line break. */
  lemma SuccessRecordLines(c: Candidate, magnet: string)
    requires Text.Excludes(c.title, '\n') && Text.Excludes(magnet, '\n')
    requires Text.Excludes(c.size, '\n') && Text.Excludes(c.createTime, '\n')
    ensures Text.SplitOn(Lines(SuccessLines(c, magnet)), '\n') == SuccessLines(c, magnet)
  {
    LabelledExcludes(TitleLabel, c.title);
    LabelledExcludes(MagnetLabel, magnet);
    LabelledExcludes(Patterns.SizeLabel, c.size);
    LabelledExcludes(TimeLabel, c.createTime);
    Text.SplitOnJoin(SuccessLines(c, magnet), '\n');
  }

  /** A failure record splits back into its three lines when neither the
      title, the error nor the size holds a line break. */
  lemma FailureRecordLines(c: Candidate, error: string)
    requires Text.Excludes(c.title, '\n') && Text.Excludes(error, '\n') && Text.Excludes(c.size, '\n')
    ensures Text.SplitOn(Lines(FailureLines(c, error)), '\n') == FailureLines(c, error)
  {
    var t := Text.Take(error, 30);
    assert forall i :: 0 <= i < |t| ==> t[i] == error[i];
    LabelledExcludes(TitleLabel, c.title);
    LabelledExcludes(FailedLabel, t);
    LabelledExcludes(Patterns.SizeLabel, c.size);
    Text.SplitOnJoin(FailureLines(c, error), '\n');
  }

  lemma LabelledExcludes(tag: string, field: string)
    requires Text.Excludes(tag, '\n') && Text.Excludes(field, '\n')
    ensures Text.Excludes(tag + field, '\n')
  {
    var s := tag + field;
    assert forall i :: 0 <= i < |s| ==> s[i] == if i < |tag| then tag[i] else field[i - |tag|];
  }

  /** A detail page served the way the site hides pages,
      `window.atob('<Base64 of the percent-encoded page>')`, is read as the
      page itself. */
  lemma DetailHtmlHidden(html: string, rest: string)
    requires html != ""
    ensures DetailHtml(Patterns.AtobMarker + Base64.Encode(Utf8.Encode(Percent.Quote(html))) + "'" + rest) == html
  {
    var b := Utf8.Encode(Percent.Quote(html));
    var p := Base64.Encode(b);
    assert |Percent.Quote(html)| > 0 by {
      assert |Utf8.Encode(html)| > 0;
    }
    assert |b| > 0;
    Base64.EncodeShape(b);
    assert Text.Excludes(p, '\'') by {
      forall i | 0 <= i < |p| ensures p[i] != '\'' {
        assert Base64.InAlphabet(p[i]);
      }
    }
    Patterns.AtobPayloadOf(p, rest);
    MagnetUtils.DecryptHidden(html);
  }
}

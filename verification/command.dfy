/** The `bt` chat command, `magnet_search_handler` (main.py:253-332): read
    the keyword and an optional page number from the message, run the
    search, and reply with one page of the results. */
module Command {
  import opened Wrappers
  import Text
  import Decimal
  import Config
  import Search
  import Paging

  const Usage := "用法：bt [关键词] [-p 页码]\n示例：bt 安达与岛村 -p 2"
  const BadShortFlag := "页码参数无效，请使用：bt [关键词] -p [页码]"
  const BadLongFlag := "页码参数无效，请使用：bt [关键词] --page [页码]"
  const PageTooSmall := "页码需为大于等于 1 的整数"
  const NoResults := "未找到相关磁力链接"

  /** What the handler reads from a well-formed command. */
  datatype Request = Request(keyword: string, page: int)

  // ----- argument parsing -----------------------------------------------------

  /** `ts.index(t)` when `t in ts`: the first position holding `t`. */
  function IndexOf(ts: seq<string>, t: string): (r: Option<nat>)
    ensures r.None? <==> t !in ts
    ensures r.Some? ==> r.value < |ts| && ts[r.value] == t && t !in ts[..r.value]
    decreases |ts|
  {
    if |ts| == 0 then None
    else if ts[0] == t then Some(0)
    else
      match IndexOf(ts[1..], t)
      case None => None
      case Some(i) =>
        assert ts[..i + 1] == [ts[0]] + ts[1..][..i];
        Some(i + 1)
  }

  /** The page number that follows the flag at `i`, and the words left once
      the flag and its number are taken out; `err` when no number of decimal
      digits follows. */
  function PageAt(rest: seq<string>, i: nat, err: string): (r: Result<(nat, seq<string>), string>)
    requires i < |rest|
    ensures r.Failure? <==> i + 1 == |rest| || !Decimal.IsDigits(rest[i + 1])
    ensures r.Failure? ==> r.error == err
    ensures r.Success? ==> |r.value.1| == |rest| - 2
    ensures r.Success? ==> r.value.0 == Decimal.Value(rest[i + 1]) && r.value.1 == rest[..i] + rest[i + 2..]
  {
    if i + 1 >= |rest| || !Decimal.IsDigits(rest[i + 1]) then Failure(err)
    else Success((Decimal.Value(rest[i + 1]), rest[..i] + rest[i + 2..]))
  }

  /** The page and the keyword words after the command word: `-p` is looked
      for first, `--page` only when there is no `-p`, and page 1 with every
      word when there is neither. */
  function PickPage(rest: seq<string>): (r: Result<(nat, seq<string>), string>)
    ensures r.Failure? ==> r.error == BadShortFlag || r.error == BadLongFlag
    ensures "-p" !in rest && "--page" !in rest ==> r == Success((1, rest))
  {
    match IndexOf(rest, "-p")
    case Some(i) => PageAt(rest, i, BadShortFlag)
    case None =>
      match IndexOf(rest, "--page")
      case Some(i) => PageAt(rest, i, BadLongFlag)
      case None => Success((1, rest))
  }

  /** The handler's checks on the words of the message, in its order: the
      command word and a keyword, then the page flag, then the page at
      least 1, then a keyword left over. */
  function ParseWords(args: seq<string>): (r: Result<Request, string>)
    ensures |args| < 2 || args[0] != "bt" ==> r == Failure(Usage)
    ensures r.Failure? ==> r.error in {Usage, BadShortFlag, BadLongFlag, PageTooSmall}
    ensures r.Success? ==> r.value.page >= 1
  {
    if |args| < 2 || args[0] != "bt" then Failure(Usage)
    else
      match PickPage(args[1..])
      case Failure(e) => Failure(e)
      case Success((page, parts)) =>
        if page < 1 then Failure(PageTooSmall)
        else if parts == [] then Failure(Usage)
        else Success(Request(Text.Join(parts, " "), page))
  }

  /** The words of a message, `message.strip().split()`, checked. */
  function ParseArgs(message: string): (r: Result<Request, string>)
    ensures r.Success? ==> r.value.page >= 1
  {
    ParseWords(Text.Words(Text.Strip(message)))
  }

  // ----- properties of the parsing --------------------------------------------

  /** Stripping the message first changes nothing: the request depends only
      on the whitespace-separated words of the message. */
  lemma ParseArgsWords(message: string)
    ensures ParseArgs(message) == ParseWords(Text.Words(message))
  {
    Text.WordsOfStrip(message);
  }

  /** Where `index` finds `t` when it is in `ts` only just after `ws`. */
  lemma IndexAfter(ws: seq<string>, t: string, vs: seq<string>)
    requires t !in ws
    ensures IndexOf(ws + [t] + vs, t) == Some(|ws|)
  {
    var ts := ws + [t] + vs;
    assert ts[|ws|] == t;
  }

  /** A numeral is neither flag. */
  lemma NumeralNotFlag(n: nat)
    ensures Decimal.Show(n) != "-p" && Decimal.Show(n) != "--page"
  {
    var s := Decimal.Show(n);
    assert Decimal.IsDigit(s[0]);
  }

  /** `bt <ws> -p <n> <vs>`, with no `-p` among `ws`: the page is `n` and the
      keyword is the other words, joined; `--page` anywhere is then just a
      word of the keyword. A page of 0 and an empty keyword are refused. */
  lemma ShortFlag(ws: seq<string>, n: nat, vs: seq<string>)
    requires "-p" !in ws
    ensures n == 0 ==> ParseWords(["bt"] + ws + ["-p", Decimal.Show(n)] + vs) == Failure(PageTooSmall)
    ensures n >= 1 && ws + vs == [] ==> ParseWords(["bt"] + ws + ["-p", Decimal.Show(n)] + vs) == Failure(Usage)
    ensures n >= 1 && ws + vs != [] ==>
      ParseWords(["bt"] + ws + ["-p", Decimal.Show(n)] + vs) == Success(Request(Text.Join(ws + vs, " "), n))
  {
    ShortFlagZeros(ws, "", n, vs);
    assert "" + Decimal.Show(n) == Decimal.Show(n);
  }

  /** Leading zeros in the page number are read as `int()` reads them:
      `bt x -p 007` asks for page 7 and `bt x -p 00` for page 0. */
  lemma ShortFlagZeros(ws: seq<string>, z: string, n: nat, vs: seq<string>)
    requires "-p" !in ws
    requires forall i :: 0 <= i < |z| ==> z[i] == '0'
    ensures n == 0 ==> ParseWords(["bt"] + ws + ["-p", z + Decimal.Show(n)] + vs) == Failure(PageTooSmall)
    ensures n >= 1 && ws + vs == [] ==> ParseWords(["bt"] + ws + ["-p", z + Decimal.Show(n)] + vs) == Failure(Usage)
    ensures n >= 1 && ws + vs != [] ==>
      ParseWords(["bt"] + ws + ["-p", z + Decimal.Show(n)] + vs) == Success(Request(Text.Join(ws + vs, " "), n))
  {
    var num := z + Decimal.Show(n);
    Decimal.ZerosNumeral(z, n);
    var args := ["bt"] + ws + ["-p", num] + vs;
    var rest := ws + ["-p"] + ([num] + vs);
    assert args[1..] == rest;
    assert PickPage(rest) == Success((n, ws + vs)) by {
      IndexAfter(ws, "-p", [num] + vs);
      PageAfterFlag(ws, "-p", num, vs, BadShortFlag);
    }
    Picked(args, n, ws + vs);
  }

  /** The digit word after a flag at position `|ws|` is read, and the flag
      and its number are taken out of the words. */
  lemma PageAfterFlag(ws: seq<string>, flag: string, d: string, vs: seq<string>, err: string)
    requires Decimal.IsDigits(d)
    ensures PageAt(ws + [flag] + ([d] + vs), |ws|, err) == Success((Decimal.Value(d), ws + vs))
  {
    var rest := ws + [flag] + ([d] + vs);
    assert rest[|ws| + 1] == d;
    assert rest[..|ws|] + rest[|ws| + 2..] == ws + vs;
  }

  /** The checks after the page flag: the page at least 1, then a keyword. */
  lemma Picked(args: seq<string>, page: nat, parts: seq<string>)
    requires |args| >= 2 && args[0] == "bt" && PickPage(args[1..]) == Success((page, parts))
    ensures page == 0 ==> ParseWords(args) == Failure(PageTooSmall)
    ensures page >= 1 && parts == [] ==> ParseWords(args) == Failure(Usage)
    ensures page >= 1 && parts != [] ==> ParseWords(args) == Success(Request(Text.Join(parts, " "), page))
  {
  }

  /** `bt <ws> -p <vs>` where no number follows the first `-p`: refused with
      the `-p` hint, whatever else the message holds. */
  lemma ShortFlagInvalid(ws: seq<string>, vs: seq<string>)
    requires "-p" !in ws
    requires vs == [] || !Decimal.IsDigits(vs[0])
    ensures ParseWords(["bt"] + ws + ["-p"] + vs) == Failure(BadShortFlag)
  {
    var args := ["bt"] + ws + ["-p"] + vs;
    assert args[1..] == ws + ["-p"] + vs;
    IndexAfter(ws, "-p", vs);
    assert |ws| + 1 < |args[1..]| ==> args[1..][|ws| + 1] == vs[0];
  }

  /** `bt <ws> --page <n> <vs>` with no `-p` at all and no `--page` among
      `ws`: the page is `n` and the keyword is the other words, joined. */
  lemma LongFlag(ws: seq<string>, n: nat, vs: seq<string>)
    requires "-p" !in ws && "-p" !in vs && "--page" !in ws
    ensures n == 0 ==> ParseWords(["bt"] + ws + ["--page", Decimal.Show(n)] + vs) == Failure(PageTooSmall)
    ensures n >= 1 && ws + vs == [] ==> ParseWords(["bt"] + ws + ["--page", Decimal.Show(n)] + vs) == Failure(Usage)
    ensures n >= 1 && ws + vs != [] ==>
      ParseWords(["bt"] + ws + ["--page", Decimal.Show(n)] + vs) == Success(Request(Text.Join(ws + vs, " "), n))
  {
    var num := Decimal.Show(n);
    var args := ["bt"] + ws + ["--page", num] + vs;
    var rest := ws + ["--page"] + ([num] + vs);
    assert args[1..] == rest;
    assert PickPage(rest) == Success((n, ws + vs)) by {
      NumeralNotFlag(n);
      assert "-p" !in rest;
      IndexAfter(ws, "--page", [num] + vs);
      PageAfterFlag(ws, "--page", num, vs, BadLongFlag);
      Decimal.ValueOfShow(n);
    }
    Picked(args, n, ws + vs);
  }

  /** `bt <ws> --page <vs>` with no `-p` anywhere, where no number follows
      the first `--page`: refused with the `--page` hint. */
  lemma LongFlagInvalid(ws: seq<string>, vs: seq<string>)
    requires "-p" !in ws && "-p" !in vs && "--page" !in ws
    requires vs == [] || !Decimal.IsDigits(vs[0])
    ensures ParseWords(["bt"] + ws + ["--page"] + vs) == Failure(BadLongFlag)
  {
    var args := ["bt"] + ws + ["--page"] + vs;
    var rest := ws + ["--page"] + vs;
    assert args[1..] == rest;
    assert "-p" !in rest by {
      forall k | 0 <= k < |rest| ensures rest[k] != "-p" {
        if k < |ws| { assert rest[k] == ws[k]; }
        else if k > |ws| { assert rest[k] == vs[k - |ws| - 1]; }
      }
    }
    IndexAfter(ws, "--page", vs);
    assert |ws| + 1 < |rest| ==> rest[|ws| + 1] == vs[0];
  }

  /** `bt <ws>` with neither flag: the keyword is the words joined, on page 1. */
  lemma NoFlag(ws: seq<string>)
    requires ws != [] && "-p" !in ws && "--page" !in ws
    ensures ParseWords(["bt"] + ws) == Success(Request(Text.Join(ws, " "), 1))
  {
    assert (["bt"] + ws)[1..] == ws;
  }

  /** Plain words: non-empty, without whitespace, and not a flag. */
  predicate KeywordWords(ws: seq<string>) {
    && ws != []
    && (forall k :: 0 <= k < |ws| ==> ws[k] != "" && Text.NoSpace(ws[k]))
    && "-p" !in ws && "--page" !in ws
  }

  /** Round trip: the command a user types for a keyword, `bt <keyword>`,
      gives back that keyword on page 1, and the keyword splits back into
      its words. */
  lemma TypedKeyword(ws: seq<string>)
    requires KeywordWords(ws)
    ensures ParseArgs("bt " + Text.Join(ws, " ")) == Success(Request(Text.Join(ws, " "), 1))
    ensures Text.Words(Text.Join(ws, " ")) == ws
  {
    var m := "bt " + Text.Join(ws, " ");
    CommandWords(ws);
    Text.WordsOfJoin(ws);
    ParseArgsWords(m);
    NoFlag(ws);
  }

  /** The message `bt <keyword>` splits into the command word and the
      keyword's words. */
  lemma CommandWords(ws: seq<string>)
    requires KeywordWords(ws)
    ensures Text.Words("bt " + Text.Join(ws, " ")) == ["bt"] + ws
  {
    var all := ["bt"] + ws;
    Text.JoinAppend(["bt"], ws, " ");
    assert Text.Join(["bt"], " ") == "bt";
    assert Text.Join(all, " ") == "bt " + Text.Join(ws, " ");
    forall k | 0 <= k < |all| ensures all[k] != "" && Text.NoSpace(all[k]) {
      if k > 0 { assert all[k] == ws[k - 1]; }
    }
    Text.WordsOfJoin(all);
  }

  /** The numeral of a page is one word. */
  lemma NumeralWord(n: nat)
    ensures Decimal.Show(n) != "" && Text.NoSpace(Decimal.Show(n))
  {
    var num := Decimal.Show(n);
    forall i | 0 <= i < |num| ensures !Text.IsSpace(num[i]) { Decimal.DigitNotSpace(num[i]); }
  }

  /** The message `bt <keyword> -p <n>` splits into the command word, the
      keyword's words, the flag and the numeral. */
  lemma TypedPageWords(ws: seq<string>, n: nat)
    requires KeywordWords(ws)
    ensures Text.Words("bt " + Text.Join(ws, " ") + " -p " + Decimal.Show(n)) == ["bt"] + ws + ["-p", Decimal.Show(n)]
  {
    var num := Decimal.Show(n);
    NumeralWord(n);
    TypedJoin(ws, num);
    TypedWordsPlain(ws, num);
    Text.WordsOfJoin(["bt"] + ws + ["-p", num]);
  }

  /** The message `bt <keyword> -p <num>` is its words joined by spaces. */
  lemma TypedJoin(ws: seq<string>, num: string)
    requires ws != []
    ensures Text.Join(["bt"] + ws + ["-p", num], " ") == "bt " + Text.Join(ws, " ") + " -p " + num
  {
    Text.JoinAppend(["bt"], ws, " ");
    Text.JoinAppend(["bt"] + ws, ["-p", num], " ");
    assert Text.Join(["-p", num], " ") == "-p " + num;
  }

  /** The words of `bt <keyword> -p <num>` are plain when the keyword's
      words and the numeral are. */
  lemma TypedWordsPlain(ws: seq<string>, num: string)
    requires KeywordWords(ws) && num != "" && Text.NoSpace(num)
    ensures var all := ["bt"] + ws + ["-p", num];
      forall k :: 0 <= k < |all| ==> all[k] != "" && Text.NoSpace(all[k])
  {
    var all := ["bt"] + ws + ["-p", num];
    forall k | 0 <= k < |all| ensures all[k] != "" && Text.NoSpace(all[k]) {
      if 0 < k <= |ws| { assert all[k] == ws[k - 1]; }
    }
  }

  /** Round trip: `bt <keyword> -p <n>` gives back the keyword and page `n`
      for every page from 1 on. */
  lemma TypedPage(ws: seq<string>, n: nat)
    requires KeywordWords(ws) && n >= 1
    ensures ParseArgs("bt " + Text.Join(ws, " ") + " -p " + Decimal.Show(n)) == Success(Request(Text.Join(ws, " "), n))
  {
    var m := "bt " + Text.Join(ws, " ") + " -p " + Decimal.Show(n);
    TypedPageWords(ws, n);
    ParseArgsWords(m);
    ShortFlag(ws, n, []);
    assert ["bt"] + ws + ["-p", Decimal.Show(n)] + [] == ["bt"] + ws + ["-p", Decimal.Show(n)];
    assert ws + [] == ws;
  }

  // ----- the reply ------------------------------------------------------------

  function OutOfRange(total: nat): string {
    "页码超出范围，当前共有 " + Decimal.Show(total) + " 页"
  }

  function Header(count: nat, page: nat, total: nat): string {
    "共找到 " + Decimal.Show(count) + " 条有效结果，当前第 " + Decimal.Show(page) + "/" + Decimal.Show(total) + " 页："
  }

  /** One result, numbered, between left-to-right marks. */
  function Entry(number: nat, res: string): string {
    "\U{200E}\n===== 结果 " + Decimal.Show(number) + " =====\n\U{200E}" + res
  }

  /** `enumerate(rs, first)`, each pair written as an entry. */
  function Entries(rs: seq<string>, first: nat): (es: seq<string>)
    ensures |es| == |rs|
    decreases |rs|
  {
    if rs == [] then [] else [Entry(first, rs[0])] + Entries(rs[1..], first + 1)
  }

  /** Entry `k` of `enumerate(rs, first)` is `rs[k]`, numbered `first + k`. */
  lemma {:induction false} EntriesAt(rs: seq<string>, first: nat, k: nat)
    requires k < |rs|
    ensures Entries(rs, first)[k] == Entry(first + k, rs[k])
    decreases k
  {
    if k > 0 {
      EntriesAt(rs[1..], first + 1, k - 1);
    }
  }

  /** The reply to a search: the no-result notice, the out-of-range notice,
      or a headline followed by the page's results, numbered from one across
      all pages. */
  function Present(results: seq<string>, pageSize: int, page: nat): (chain: seq<string>)
    requires page >= 1
    ensures chain != []
    ensures results == [] ==> chain == [NoResults]
    ensures |chain| <= 1 + Paging.PageSize(pageSize, |results|)
  {
    if |results| == 0 then [NoResults]
    else
      var ps := Paging.PageSize(pageSize, |results|);
      var total := Paging.TotalPages(|results|, ps);
      if page > total then [OutOfRange(total)]
      else
        var start := Paging.PageStart(page, ps);
        var end := Paging.PageEnd(page, ps, |results|);
        assert start < end by { Paging.PageFill(page, ps, |results|); }
        [Header(|results|, page, total)] + Entries(results[start..end], start + 1)
  }

  // ----- properties of the reply ----------------------------------------------

  /** A page beyond the last gets the out-of-range notice naming the page
      count. */
  lemma PageBeyond(results: seq<string>, pageSize: int, page: nat)
    requires results != [] && page >= 1
    requires page > Paging.TotalPages(|results|, Paging.PageSize(pageSize, |results|))
    ensures Present(results, pageSize, page) ==
      [OutOfRange(Paging.TotalPages(|results|, Paging.PageSize(pageSize, |results|)))]
  {
  }

  /** A page in range gets a headline and the entries of its own stretch of
      the results, which is not empty. */
  lemma PageWithin(results: seq<string>, pageSize: int, page: nat)
    requires results != [] && page >= 1
    requires page <= Paging.TotalPages(|results|, Paging.PageSize(pageSize, |results|))
    ensures var ps := Paging.PageSize(pageSize, |results|);
      var start := Paging.PageStart(page, ps);
      var end := Paging.PageEnd(page, ps, |results|);
      && start < end
      && Present(results, pageSize, page) ==
           [Header(|results|, page, Paging.TotalPages(|results|, ps))] + Entries(results[start..end], start + 1)
  {
    var ps := Paging.PageSize(pageSize, |results|);
    var total := Paging.TotalPages(|results|, ps);
    var start := Paging.PageStart(page, ps);
    var end := Paging.PageEnd(page, ps, |results|);
    assert start < end by {
      Paging.PageFill(page, ps, |results|);
    }
    InRangeReply(results, pageSize, page, ps, total, start, end);
  }

  /** `PageWithin` with the page arithmetic already done. */
  lemma InRangeReply(results: seq<string>, pageSize: int, page: nat, ps: nat, total: nat, start: nat, end: nat)
    requires results != [] && page >= 1
    requires ps == Paging.PageSize(pageSize, |results|) && total == Paging.TotalPages(|results|, ps)
    requires page <= total
    requires start == Paging.PageStart(page, ps) && end == Paging.PageEnd(page, ps, |results|)
    requires start < end
    ensures Present(results, pageSize, page) == [Header(|results|, page, total)] + Entries(results[start..end], start + 1)
  {
  }

  /** The notices are not replies with results: no results means the
      no-result notice and nothing else. */
  lemma NoResultsOnly(results: seq<string>, pageSize: int, page: nat)
    requires page >= 1
    ensures Present(results, pageSize, page) == [NoResults] <==> results == []
  {
    if results != [] {
      var ps := Paging.PageSize(pageSize, |results|);
      var total := Paging.TotalPages(|results|, ps);
      if page > total {
        PageBeyond(results, pageSize, page);
        assert |OutOfRange(total)| != |NoResults|;
      } else {
        PageWithin(results, pageSize, page);
        assert |Header(|results|, page, total)| != |NoResults|;
      }
    }
  }

  /** A page in range opens with the headline and holds at least one result;
      every page but the last is full. */
  lemma PageHeadline(results: seq<string>, pageSize: int, page: nat)
    requires results != [] && page >= 1
    requires page <= Paging.TotalPages(|results|, Paging.PageSize(pageSize, |results|))
    ensures var ps := Paging.PageSize(pageSize, |results|);
      var total := Paging.TotalPages(|results|, ps);
      var chain := Present(results, pageSize, page);
      && |chain| >= 2
      && chain[0] == Header(|results|, page, total)
      && (page < total ==> |chain| == 1 + ps)
  {
    var ps := Paging.PageSize(pageSize, |results|);
    PageWithin(results, pageSize, page);
    Paging.PageFill(page, ps, |results|);
  }

  /** After the headline, a page in range holds the results of its own
      stretch, in order, each numbered by its place among all results. */
  lemma PageContents(results: seq<string>, pageSize: int, page: nat)
    requires results != [] && page >= 1
    requires page <= Paging.TotalPages(|results|, Paging.PageSize(pageSize, |results|))
    ensures var ps := Paging.PageSize(pageSize, |results|);
      var chain := Present(results, pageSize, page);
      var start := Paging.PageStart(page, ps);
      && |chain| == 1 + Paging.PageEnd(page, ps, |results|) - start
      && forall k :: 1 <= k < |chain| ==> chain[k] == Entry(start + k, results[start + k - 1])
  {
    var ps := Paging.PageSize(pageSize, |results|);
    var start := Paging.PageStart(page, ps);
    var end := Paging.PageEnd(page, ps, |results|);
    var total := Paging.TotalPages(|results|, ps);
    assert start < end by {
      Paging.PageFill(page, ps, |results|);
    }
    InRangeReply(results, pageSize, page, ps, total, start, end);
    SliceEntries(results, start, end, Header(|results|, page, total), Present(results, pageSize, page));
  }

  /** A headline followed by the entries of `results[start..end]`. */
  lemma SliceEntries(results: seq<string>, start: nat, end: nat, head: string, chain: seq<string>)
    requires start <= end <= |results|
    requires chain == [head] + Entries(results[start..end], start + 1)
    ensures |chain| == 1 + end - start
    ensures forall k :: 1 <= k < |chain| ==> chain[k] == Entry(start + k, results[start + k - 1])
  {
    forall k | 1 <= k < |chain|
      ensures chain[k] == Entry(start + k, results[start + k - 1])
    {
      EntryAt(results, start, end, k - 1);
    }
  }

  /** The `k`-th entry of the slice from `start` is result `start + k`,
      numbered `start + k + 1`. */
  lemma EntryAt(results: seq<string>, start: nat, end: nat, k: nat)
    requires start <= end <= |results| && k < end - start
    ensures Entries(results[start..end], start + 1)[k] == Entry(start + k + 1, results[start + k])
  {
    EntriesAt(results[start..end], start + 1, k);
  }

  /** Every result is shown: result `i` (from 0) is on page `i // size + 1`,
      which is in range, at place `i % size` after the headline, numbered
      `i + 1`. `Paging.PageOfResult` shows that no other page holds it,
      and `Paging.PagesConcat` that the pages together show each result once,
      in order. */
  lemma ResultPlacement(results: seq<string>, pageSize: int, i: nat)
    requires i < |results|
    ensures var ps := Paging.PageSize(pageSize, |results|);
      var page := i / ps + 1;
      var chain := Present(results, pageSize, page);
      && page <= Paging.TotalPages(|results|, ps)
      && 1 + i % ps < |chain|
      && chain[1 + i % ps] == Entry(i + 1, results[i])
  {
    var ps := Paging.PageSize(pageSize, |results|);
    Paging.Placement(i, ps, |results|);
    PlacedAt(results, pageSize, i, i / ps + 1, i % ps);
  }

  /** `ResultPlacement` for a page and place already worked out. */
  lemma PlacedAt(results: seq<string>, pageSize: int, i: nat, page: nat, r: nat)
    requires i < |results| && page >= 1
    requires var ps := Paging.PageSize(pageSize, |results|);
      && page <= Paging.TotalPages(|results|, ps)
      && Paging.PageStart(page, ps) + r == i
      && i < Paging.PageEnd(page, ps, |results|)
    ensures var chain := Present(results, pageSize, page);
      1 + r < |chain| && chain[1 + r] == Entry(i + 1, results[i])
  {
    var ps := Paging.PageSize(pageSize, |results|);
    var start := Paging.PageStart(page, ps);
    var end := Paging.PageEnd(page, ps, |results|);
    var total := Paging.TotalPages(|results|, ps);
    assert start < end by {
      Paging.PageFill(page, ps, |results|);
    }
    InRangeReply(results, pageSize, page, ps, total, start, end);
    HeadedEntryAt(Present(results, pageSize, page), Header(|results|, page, total), results, start, end, r, i);
  }

  /** `HeadedEntry` for the result at `i`, `r` places into the stretch. */
  lemma HeadedEntryAt(chain: seq<string>, head: string, results: seq<string>, start: nat, end: nat, r: nat, i: nat)
    requires start <= end <= |results| && start + r == i && i < end
    requires chain == [head] + Entries(results[start..end], start + 1)
    ensures 1 + r < |chain| && chain[1 + r] == Entry(i + 1, results[i])
  {
    HeadedEntry(chain, head, results, start, end, r);
  }

  /** In a headline followed by the entries of `results[start..end]`, place
      `1 + r` holds result `start + r`, numbered `start + r + 1`. */
  lemma HeadedEntry(chain: seq<string>, head: string, results: seq<string>, start: nat, end: nat, r: nat)
    requires start <= end <= |results| && r < end - start
    requires chain == [head] + Entries(results[start..end], start + 1)
    ensures 1 + r < |chain| && chain[1 + r] == Entry(start + r + 1, results[start + r])
  {
    EntryAt(results, start, end, r);
  }

  /** With no positive page size every result is on page 1 ... */
  lemma SinglePage(results: seq<string>, pageSize: int)
    requires results != [] && pageSize <= 0
    ensures Present(results, pageSize, 1) == [Header(|results|, 1, 1)] + Entries(results, 1)
  {
    var n := |results|;
    Paging.OnePage(n);
    PageWithin(results, pageSize, 1);
    assert results[0..n] == results;
  }

  /** ... and there is no page 2. */
  lemma NoSecondPage(results: seq<string>, pageSize: int)
    requires results != [] && pageSize <= 0
    ensures Present(results, pageSize, 2) == [OutOfRange(1)]
  {
    Paging.OnePage(|results|);
  }

  /** A single result is page 1, whatever the page size. */
  lemma SingleResult(res: string, pageSize: int)
    ensures Present([res], pageSize, 1) == [Header(1, 1, 1), Entry(1, res)]
  {
    var ps := Paging.PageSize(pageSize, 1);
    assert Paging.TotalPages(1, ps) == 1;
    assert Paging.PageEnd(1, ps, 1) == 1;
    assert [res][0..1] == [res];
  }

  // ----- the command ----------------------------------------------------------

  /** `magnet_search_handler`: read the settings, parse the message, and
      either reply with the parse error or search and present one page. */
  function Handle(settings: Config.Settings, message: string, fetch: Search.Fetch, parse: string -> Search.Document): (chain: seq<string>)
    ensures chain != []
    ensures ParseArgs(message).Failure? ==> chain == [ParseArgs(message).error]
  {
    var cfg := Config.BuildConfig(settings);
    match ParseArgs(message)
    case Failure(e) => [e]
    case Success(req) => Present(Search.Search(cfg, req.keyword, fetch, parse), cfg.pageSize, req.page)
  }

  /** A message that is not the `bt` command with a keyword gets the usage
      text, and no page is ever fetched for it. */
  lemma HandleUsage(settings: Config.Settings, message: string, fetch: Search.Fetch, parse: string -> Search.Document)
    requires |Text.Words(message)| < 2 || Text.Words(message)[0] != "bt"
    ensures Handle(settings, message, fetch, parse) == [Usage]
  {
    ParseArgsWords(message);
  }

  /** When the search page cannot be fetched, the failure is shown as the
      only result on page 1, whatever the page size. */
  lemma HandleSearchFailure(settings: Config.Settings, ws: seq<string>, fetch: Search.Fetch, parse: string -> Search.Document)
    requires KeywordWords(ws)
    requires fetch(Search.SearchUrl(Config.BuildConfig(settings), Text.Join(ws, " "))).Failure?
    ensures var chain := Handle(settings, "bt " + Text.Join(ws, " "), fetch, parse);
      && |chain| == 2
      && chain[0] == Header(1, 1, 1)
      && Text.StartsWith(chain[1], Entry(1, Search.SearchFailedLabel))
  {
    var cfg := Config.BuildConfig(settings);
    var kw := Text.Join(ws, " ");
    var results := Search.Search(cfg, kw, fetch, parse);
    assert Handle(settings, "bt " + kw, fetch, parse) == Present(results, cfg.pageSize, 1) by {
      TypedKeyword(ws);
    }
    var line := results[0];
    assert results == [line];
    assert Present(results, cfg.pageSize, 1) == [Header(1, 1, 1), Entry(1, line)] by {
      SingleResult(line, cfg.pageSize);
    }
    assert line == Search.SearchFailedLabel + line[|Search.SearchFailedLabel|..];
  }
}

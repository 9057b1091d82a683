# BitTorrent magnet search plugin — a Dafny model

The plugin answers the chat command `bt <keyword> [-p <page>]`. It searches a
magnet-link site for the keyword and replies with one page of results.

The site hides its pages inside `window.atob('<payload>')`. The payload is
Base64 of the percent-encoded page. The plugin works in four steps:

1. It decrypts the search page.
2. It collects one candidate per distinct detail link among the first
   `max_results` list items.
3. It fetches each detail page and formats a record with a title, magnet
   link, size and creation time.
4. It pages the records for the chat.

This project models that core in Dafny and proves properties of it:

- the settings and their normalisation (`config.dfy`);
- the decryption pipeline (`base64.dfy`, `utf8.dfy`, `percent.dfy`,
  `utils.dfy`);
- the five regular expressions the scraper applies (`patterns.dfy`);
- the search itself (`search.dfy`);
- the page arithmetic of the reply (`paging.dfy`);
- the command handler with its argument parsing and the paged reply
  (`command.dfy`).

`text.dfy` and `decimal.dfy` model the Python string and integer primitives
the code relies on: `str.isspace`, `strip`, `split`, `join`, `isdigit`,
`int` and `str`. `int()` strips a narrower whitespace set than `strip()`:
the ASCII separators U+001C to U+001F count as whitespace for `str.isspace`,
but not for `int()`, which rejects them.

The network and the HTML parser are oracles passed in as parameters:

- `fetch` maps a URL to a page body, or to the text of the exception the
  request raised.
- `parse` maps HTML to the parts of the page the scraper looks at:
  - the anchors that have an `href`, in document order;
  - the `li` items of `ul#Search_list_wrapper`, if there is one.

Each item records whether it holds a `ul.pagination`, its anchors, and its
text.

Python's library functions are modelled precisely:

- **`base64.b64decode`**: the non-strict decoder of CPython 3.11 and later,
  as a state machine. Decoding stops where `=` completes a quad.
  It skips characters outside the alphabet, honours `=` padding and rejects a
  dangling data character. A `str` with a non-ASCII character is a
  `ValueError`.
- **`bytes.decode('utf-8', errors)`**: the maximal-subpart error handling,
  for both the `'ignore'` and `'replace'` handlers.
- **`urllib.parse.quote` and `unquote`**: UTF-8 based, with the default safe
  set.

Every exception the scraper catches becomes the error arm of a `Result`, or
the fallback value the code returns.

The candidate limit follows the code. `max_results` counts list items, not
kept candidates (main.py:123-125). Pagination items, items without a detail
link and repeated URLs use up the budget too, so fewer than `max_results`
candidates may be kept even when the list has more items.

The page count and the start of a page are defined by recursion: one page
per page size, plus one for a remainder. Lemmas prove them equal to the
code's `(len(results) + page_size - 1) // page_size` and
`(page - 1) * page_size` (main.py:318, main.py:324).

## Model

| member | source | states |
|---|---|---|
| Config.Normalize | main.py:25-36 | After `__post_init__` the cookies are the two fixed ones, the base URL has no trailing `/` and is the original less only trailing slashes, and the search path has exactly one added leading `/` if it lacked one; the numeric settings are untouched |
| Config.NormalizeIdempotent | main.py:25-36 | A normal configuration is left unchanged, so normalising twice equals normalising once |
| Config.CoerceInt | main.py:216-220 | `_coerce_int(store.get(key, default), default)`: an absent key gives the default, a number is kept, text `int()` accepts gives the value `int()` reads from it, and text `int()` rejects gives the default |
| Config.CoerceShownInt | main.py:216-220 | A number stored as its decimal text is read back as that number |
| Config.CoercePaddedText | main.py:216-220 | Stored text with surrounding whitespace that `int()` strips, a sign or leading zeros is read as `int()` reads it: `" +7 "` and `"007"` both give 7, `"-3"` gives -3 |
| Config.CoerceSeparatedText | main.py:216-220 | Digits after U+001C are text `int()` rejects, so the default is kept |
| Config.BuildConfig | main.py:234-247 | The built configuration is always normal; every absent setting takes its documented default (site URL, `/cllj.php`, 20, 5, 15); a present base URL loses only its trailing `/` characters, a present search path gains a leading `/` only if it lacks one, and each number is what `_coerce_int` makes of the stored value |
| Config.BuildStored | main.py:234-247 | Round trip: storing a normal configuration and building it again gives that configuration back |
| Decimal.ParseShow | main.py:218 | `int(str(n)) == n` for every integer, negative ones included |
| Decimal.ValuePositive | main.py:282-298 | A page of digits is at least 1 exactly when some digit is not `0`, so `-p 0` and `-p 00` hit the page-too-small check |
| Decimal.ParseInt | main.py:216-220 | `int(text)` succeeds exactly when the text, stripped of `int()`'s whitespace (`str.isspace` without U+001C to U+001F), is an optional sign and a run of digits; it then gives that numeral's value |
| Decimal.SeparatorNotIntSpace | main.py:216-220 | Digits after U+001C strip to the digits, yet `int()` rejects them, because `int()` does not treat the separator as whitespace |
| Decimal.ValueLeadingZeros | main.py:282 | Leading zeros do not change the value of a digit string: `int("007") == 7` |
| Decimal.ParseIntPadded | main.py:216-220 | `int()` of whitespace it strips (`str.isspace` without U+001C to U+001F), an optional `+` or `-`, zeros and the numeral of `n`, then more such whitespace, is `n`, negated after `-` |
| Base64.PadShape | main.py:44 | `ljust` keeps the payload as a prefix, appends only `=`, and reaches the least length that is at least the original and a multiple of four |
| Base64.Pad | main.py:44 | The padded payload has a length that is a multiple of four, below the original length plus four, and keeps the payload as its prefix |
| Base64.PadIdempotent | main.py:44 | A padded payload needs no more padding: padding twice is padding once |
| Base64.Decode | main.py:45 | CPython 3.11+ non-strict `b64decode`, which stops where `=` completes a quad. Decoding a `str` accepts only ASCII text; what it makes of alphabet text is stated by the round trip and the failure lemmas that follow |
| Base64.DecodePadEncode | main.py:44-45 | Round trip: decoding the `=`-padded unpadded Base64 of any byte string gives the byte string back |
| Base64.DecodePadFailsIff | main.py:44-45 | For a payload of alphabet characters, decoding after padding fails exactly when its length is one more than a multiple of four |
| Base64.DecodePadRejects | main.py:44-45 | Padding cannot rescue a payload with a non-ASCII character, nor an alphabet-only payload whose length is one more than a multiple of four: both fail to decode |
| Utf8.DecodeEncode | main.py:45 | Round trip: decoding the UTF-8 encoding of any string gives it back, with either error handler |
| Utf8.Decode | main.py:45 | `bytes.decode('utf-8', errors)` never yields more characters than there are bytes; `DecodeEncode` is its round trip |
| Percent.QuoteChars | main.py:94 | `quote` output holds only unreserved characters, `/` and `%`, so it is ASCII |
| Percent.Quote | main.py:94 | `quote(s)` is the percent-encoding of the UTF-8 bytes of `s`; `QuoteChars` and `UnquoteQuote` state what it produces |
| Percent.UnquoteQuote | main.py:46 | Round trip: `unquote(quote(s)) == s` for every string, multi-byte characters included |
| Percent.UnquotePlain | main.py:46 | A string without `%` is left unchanged by `unquote` |
| Percent.Unquote | main.py:46 | `unquote(s)` keeps non-ASCII characters and decodes each run of ASCII characters, `%xx` escapes included, as UTF-8 with replacement; `UnquoteQuote` and `UnquotePlain` state its behaviour |
| MagnetUtils.DecryptBase64 | main.py:41-49 | A payload with a non-ASCII character, or of alphabet characters with a length one more than a multiple of four, decrypts to `""`; any payload whose decoding fails decrypts to `""`, and a decoded one to the percent-decoding of the UTF-8 text of its bytes with malformed sequences dropped |
| MagnetUtils.DecryptEncoded | main.py:44-46 | A payload that is the Base64 of the UTF-8 of a text decrypts to that text percent-decoded |
| MagnetUtils.DecryptHidden | main.py:41-49 | Round trip: the site's hiding of a page, Base64 of its percent-encoding, with the `=` padding dropped or kept, is undone for every page |
| MagnetUtils.DecryptPadded | main.py:44 | A payload and its `=`-padded form decrypt to the same text |
| MagnetUtils.DecryptDangling | main.py:43-49 | An alphabet-only payload decrypts to `""` when its length is one more than a multiple of four, and is decoded for every other length |
| MagnetUtils.GetFullUrl | main.py:52-60 | An `http…` link is kept as it is; any other link becomes the base URL, one `/`, and the link less a leading `./` or `/` |
| MagnetUtils.SpellingsAgree | main.py:56-60 | `./p`, `/p` and `p` all resolve to the same URL `base/p` |
| MagnetUtils.ResolveIdempotent | main.py:52-60 | Over an `http` base, a resolved link is absolute and resolving it again changes nothing |
| Text.WordsOfStrip | main.py:260-261 | `s.strip().split() == s.split()` for every string |
| Text.Strip | main.py:260 | `strip()` is empty exactly when the text is all whitespace, and otherwise neither starts nor ends with whitespace |
| Text.StripPadded | main.py:260 | Whitespace around a text that neither starts nor ends with whitespace is exactly what `strip()` removes |
| Text.StripWith | main.py:216-220 | Stripping the characters of a set leaves nothing exactly when all of them are in the set, and otherwise a text that neither starts nor ends with one; `int()` strips this way with its own whitespace set |
| Text.StripWithPadded | main.py:216-220 | Characters of the set around a text that neither starts nor ends with one are exactly what `StripWith` removes |
| Text.Words | main.py:261 | `split()` yields only non-empty words free of whitespace; `WordsOfJoin` is its round trip with `join` |
| Text.WordsOfJoin | main.py:305 | Splitting the space-joined keyword gives back the words it was joined from |
| Text.SplitOnJoin | main.py:178-185 | Joining lines with a separator none of them holds and splitting on it gives the lines back |
| Patterns.AtobPayload | main.py:105 | No payload exactly when the pattern matches nowhere; otherwise the payload is non-empty, holds no `'`, and sits between the marker and a `'` at the leftmost match |
| Patterns.AtobPayloadOf | main.py:105 | A page opening with `window.atob('p')` yields exactly `p` |
| Patterns.SizeOf | main.py:140-141 | `未知大小` exactly when the size pattern matches nowhere; otherwise the group captured at the leftmost match, a size text (digits and dots, a space, `G`/`M`/`K`, `B`) that follows the label in the item text |
| Patterns.SizeOfLabelled | main.py:140-141 | A size written right after `文件大小：` is the size reported |
| Patterns.SizeTextStripped | main.py:141 | A captured size has no surrounding whitespace, so the `.strip()` is the identity |
| Patterns.DateOf | main.py:142-143 | `未知时间` exactly when the date pattern matches nowhere; otherwise the group captured at the leftmost match, a `dddd-dd-dd` date that follows the label in the item text |
| Patterns.DateOfLabelled | main.py:142-143 | A date written right after `创建时间：` is the date reported |
| Patterns.DateStripped | main.py:143 | A captured date has no surrounding whitespace, so the `.strip()` is the identity |
| Patterns.MagnetIn | main.py:173-175 | No magnet exactly when the pattern matches nowhere; otherwise the stripped maximal match at the leftmost position where the pattern matches: it starts with the magnet prefix, holds no quotation mark, and occurs in the page |
| Patterns.MagnetInOf | main.py:173-175 | A magnet link written with forty hex digits and closed by a quotation mark is extracted whole |
| Search.FindAnchor | main.py:129 | `find("a", href=…)` gives nothing exactly when no anchor matches, and otherwise the first matching anchor |
| Search.Title | main.py:139 | The title is never empty and already stripped: it is the stripped link text, or `搜索结果{idx+1}` when the link text is blank |
| Search.Limit | main.py:123-125 | The loop sees at most `max_results` items, and stops early only at that bound |
| Search.Examine | main.py:126-131 | An item yields no candidate exactly when it holds a pagination list or has no detail link |
| Search.ExamineFields | main.py:129-150 | A candidate's URL and title come from the item's first detail link, and its size and date are what the size and date patterns report for the item text, with their fallbacks |
| Search.DedupeSelect | main.py:120-150 | The loop's candidates equal an independent definition: the first item to yield each URL, in item order; a URL is kept exactly when some examined item yields it |
| Search.DedupeDistinct | main.py:134-136 | No two candidates share a URL |
| Search.CandidatesSpec | main.py:120-150 | `detail_links` has at most `max_results` entries, has distinct URLs, equals the reference selection, and holds exactly the URLs yielded by items below the bound |
| Search.Candidates | main.py:120-150 | `detail_links` has no more entries than the loop visits items; `CandidatesSpec` states its contents |
| Search.ExtractCandidates | main.py:120-150 | The loop as written, with `processed_urls`, `continue` and `break`, computes the candidate list |
| Search.OuterMagnet | main.py:168-171 | No outer magnet exactly when the search page has no magnet anchor; otherwise the non-empty stripped `href` of the first magnet anchor |
| Search.DetailHtml | main.py:159-165 | A detail page without a `window.atob` payload is read as it is; `DetailHtmlHidden` states the hidden case |
| Search.MagnetLink | main.py:168-175 | The outer magnet wins when present; otherwise `未提取到` exactly when the detail page has no magnet match, and otherwise the magnet the pattern finds in the page, which occurs in it |
| Search.OuterMagnetShared | main.py:169-171 | Once the search page has a magnet anchor, every fetched detail record carries that same magnet |
| Search.DetailHtmlHidden | main.py:159-165 | A detail page served hidden inside `window.atob` is read as the page itself |
| Search.Details | main.py:156-185 | One record per candidate, in order; each depends only on the fetch of its own candidate's page |
| Search.DetailRecord | main.py:176-185 | One detail record: the four labelled lines for a fetched page, the three failure lines for a failed fetch; `RecordOpensWithTitle`, `SuccessRecordLines` and `FailureRecordLines` state its shape |
| Search.DetailsInOrder | main.py:156-185 | Each record opens with the candidate's title line |
| Search.SuccessRecordLines | main.py:178-183 | A success record splits back into its four labelled lines when no field holds a line break |
| Search.FailureRecordLines | main.py:185 | A failure record splits back into its three lines; the error is cut to thirty characters |
| Search.SearchUrlQuery | main.py:94 | The search URL is the base, path and `?name=`, followed by a query of safe characters that unquotes to the keyword |
| Search.SearchUrl | main.py:94 | The search URL is the base URL, the search path, `?name=` and the quoted keyword; `SearchUrlQuery` states that the query unquotes to the keyword |
| Search.Search | main.py:87-194 | A failed search request gives the one record `搜索失败：` followed by the first fifty characters of the error, or all of it when shorter; no payload or no result list gives no records; otherwise the result is the detail records of the candidates |
| Command.IndexOf | main.py:276-277 | `list.index`: nothing exactly when the word is absent; otherwise the first position holding it |
| Command.PageAt | main.py:278-283 | The flag is refused exactly when no word or a non-digit word follows it; otherwise the page is the value of that digit word and the keyword words are the others, with the flag and its number taken out |
| Command.PickPage | main.py:276-293 | With neither flag, every word stays in the keyword on page 1; any refusal is one of the two flag hints |
| Command.ParseWords | main.py:268-305 | A message without the command word and a keyword gives the usage text; every refusal is one of the four messages; an accepted page is at least 1 |
| Command.ParseArgs | main.py:260-305 | Any accepted message asks for a page of at least 1; `ParseArgsWords` and the flag lemmas state which request it makes |
| Command.ParseArgsWords | main.py:260-261 | The request depends only on the whitespace-separated words of the message |
| Command.ShortFlag | main.py:276-305 | `bt ws -p n vs` gives page `n` and the other words as the keyword, even with `--page` among them; page 0 and an empty keyword are refused |
| Command.ShortFlagZeros | main.py:276-305 | Leading zeros in the page number are read as `int()` reads them: `bt x -p 007` asks for page 7, and `bt x -p 00` is refused as page 0 |
| Command.ShortFlagInvalid | main.py:276-281 | `-p` not followed by a number is refused with the `-p` hint |
| Command.LongFlag | main.py:284-305 | With no `-p`, `bt ws --page n vs` gives page `n` and the other words as the keyword; page 0 and an empty keyword are refused |
| Command.LongFlagInvalid | main.py:284-289 | `--page` not followed by a number is refused with the `--page` hint |
| Command.NoFlag | main.py:292-305 | Without a flag the keyword is all the words after `bt`, on page 1 |
| Command.TypedKeyword | main.py:260-305 | Round trip: `bt <keyword>` gives back the keyword on page 1, and the keyword splits back into its words |
| Command.TypedPage | main.py:260-305 | Round trip: `bt <keyword> -p <n>` gives back the keyword and page `n` for every page from 1 on |
| Paging.TotalPagesFormula | main.py:318 | The page count, defined as one page per page size plus one for a remainder, equals `(len(results) + page_size - 1) // page_size` |
| Paging.PageStartFormula | main.py:324 | A page's start, defined as one page size per earlier page, equals `(page - 1) * page_size` |
| Paging.PageSize | main.py:313-317 | The page size is the configured one when positive, and otherwise the number of results |
| Paging.TotalPages | main.py:318 | There are no pages exactly when there are no results; `TotalPagesFormula` equates the count with the code's formula |
| Paging.PageStart | main.py:324 | A page starts one page size after the previous one, the first at 0; `PageStartFormula` equates it with `(page - 1) * page_size` |
| Paging.PageEnd | main.py:325-326 | `results[start:end]` ends at the next page's start, cut at the last result |
| Paging.TotalPagesBounds | main.py:318 | The page count is the ceiling: its pages hold every result, and one page fewer would not |
| Paging.PageInRange | main.py:318-324 | A page passes the out-of-range check exactly when it starts before the last result |
| Paging.PageFill | main.py:318-326 | A page in range shows at least one result, and every page before the last shows a full page size |
| Paging.Placement | main.py:318-326 | Result `i` falls on page `i // page_size + 1`, which is in range, at place `i % page_size` of it |
| Paging.PageOfResult | main.py:324-326 | Any page whose `results[start:end]` holds result `i` is page `i // page_size + 1`, so no result is on two pages |
| Paging.PagesPrefix | main.py:324-326 | Pages 1 to `k`, read one after another, show the results up to the end of page `k`, with no gap or overlap |
| Paging.PagesConcat | main.py:318-326 | Read one after another, all `total_pages` pages show every result exactly once, in order |
| Command.Present | main.py:308-329 | The reply is never empty, holds at most one page of results after its headline, and is the no-result notice when there are no results |
| Command.NoResultsOnly | main.py:308-310 | The reply is the no-result notice exactly when there are no results |
| Command.PageBeyond | main.py:319-322 | A page past the last gets only the out-of-range notice with the page count |
| Command.PageWithin | main.py:324-329 | A page in range is the headline and then the entries of its own stretch of the results, which is not empty |
| Command.PageHeadline | main.py:318-329 | A page in range opens with the headline giving the result count, the page and the page count, holds at least one result, and is full unless it is the last |
| Command.EntriesAt | main.py:328-329 | `enumerate(page_results, start + 1)`: entry `k` is result `k` numbered `start + 1 + k` |
| Command.Entries | main.py:328-329 | `enumerate` gives one entry per result; `EntriesAt` states each entry |
| Command.PageContents | main.py:324-329 | After the headline a page in range holds exactly its own stretch of the results, in order, each numbered by its place among all results |
| Command.ResultPlacement | main.py:318-329 | Result `i` is shown on page `i / size + 1`, which is in range, at place `i % size` and numbered `i + 1`. With `Paging.PageOfResult`, no other page shows it |
| Command.SinglePage | main.py:313-329 | With no positive page size, page 1 shows every result |
| Command.NoSecondPage | main.py:313-322 | With no positive page size, page 2 is out of range and reports one page |
| Command.SingleResult | main.py:313-329 | A single result is page 1 of 1, whatever the page size |
| Command.Handle | main.py:253-332 | The handler always replies; a refused message is answered with its one message and nothing else |
| Command.HandleUsage | main.py:260-272 | A message that is not `bt` followed by a keyword gets the usage text, whatever the settings and the network do |
| Command.HandleSearchFailure | main.py:187-189 | When the search page cannot be fetched, the reply is page 1 of 1, holding the `搜索失败：` record as its only result |

## Left out

- HTTP: the `httpx` client, its headers, cookies, timeout and redirect settings, and closing it, are left out (main.py:68-85, 190-192). Fetching is the `fetch` oracle. The cookies are modelled as configuration data only. `request_timeout` is carried but has no effect.
- HTML parsing: BeautifulSoup is left out. It is the `parse` oracle, which returns the anchors, the result-list items, the item texts and the pagination flag.
- The `fetch` oracle is a function, so fetching the same URL twice gives the same answer. A real server may answer differently.
- Logging (`logger.*`), the plugin registration and the host framework glue (`event.chain_result`, `Comp.Plain`) are left out. The reply is the sequence of plain texts.
- `_get_plugin_config` and `_refresh_config` (main.py:222-232, 249-251) are left out. The settings arrive as a `Settings` value, and the handler rebuilds the configuration on every command, as the code does.
- Config.CoerceInt: only numbers and text are modelled as stored values. Floats, booleans and other types that `int()` accepts or rejects are not. A text number with `_` digit separators is treated as invalid, although `int()` accepts it.
- Config.BuildConfig: `base_url` and `search_path` must be strings. A non-string value would raise in `__post_init__`, and that exception is not modelled.
- Decimal.ParseShow: `isdigit`, `int()` and the regex `\d` are modelled over ASCII digits only. Python also accepts other Unicode digits there.
- Search.Search: an exception raised anywhere other than a failed request, such as in the parser, is not modelled. The parser oracle is total.
- Search.MagnetLink: the magnet anchor is looked up in the search page (main.py:169), not in the detail page. This is modelled as written, and `Search.OuterMagnetShared` states its consequence.

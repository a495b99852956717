# Link2InstantViewBot message pipeline, in Dafny

This project models the decision logic of the Telegram bot in `bot.py`. The
bot takes a link from its single authorised operator, extracts the article
from `www.jw.org` or `wol.jw.org`, republishes it on Telegra.ph and replies
with the new page's link. Four pieces are modelled as pure functions over
`seq<char>`:

- `UrlScanner`: the semantics of `re.search(r'https?://[^\s]+', text)` and
  `.group(0)`. It finds the leftmost matching position and the longest
  whitespace-free run from there. `\s` is Python's Unicode whitespace
  (`Text.IsSpace`).
- `Router`: the ordered substring test. `"www.jw.org"` is tested first, then
  `"wol.jw.org"`, else the URL is unsupported.
- `Extractor`: the post-processing shared by `extract_from_www_jw_org` and
  `extract_from_wol_jw_org`. Its input is an abstract `Page`: the fetch
  failed, or the `h1` title and the serialised `p`/`h2` fragments of the
  body container, each possibly absent. The output is `(None, None)` or
  `(title, ''.join(fragments))`.
- `Handler`: `handle_message` and `start` as decision tables. The page and
  the outcome of `create_page` are inputs. The result is the reply sent, if
  any, plus an `Effects` record of the extractor call and the publish
  request that were attempted.

Points where the code's behaviour may be unexpected:

- Routing tests the whole URL, not only its host. `Router.PathMentionRoutesToWww`
  shows a link on another host that is routed to the `www.jw.org` extractor.
- A container that is present but holds no `p`/`h2` counts as a successful
  extraction with empty content. `bs4` tags are always truthy. The handler
  then replies with the processing-failure message and does not publish.
- An unauthorised sender gets no reply on either path. The greeting path has
  no prompt for them.

## Model

| member | source | states |
|---|---|---|
| Text.IsSpace | bot.py:65 | `\s` of a `str` pattern: space, `\t`, `\n`, `\r`, `\v` and `\f` are whitespace, and no printable ASCII character is |
| Text.Contains | bot.py:73-76 | `pat in s` holds exactly when `pat` occurs at some index of `s` |
| Text.ContainsFrom | bot.py:73-76 | the substring search from an index holds exactly when an occurrence starts at or after that index |
| UrlScanner.MatchesAt | bot.py:65 | a match at a position needs a scheme and one more character there, starting with `h` and with `/` at offset 6 |
| UrlScanner.MatchesAtIffPattern | bot.py:65 | the pattern matches at a position exactly when some non-empty piece of text from there is a word of the language of `https?://[^\s]+`, so the optional `s` gives no other match |
| UrlScanner.RunEnd | bot.py:65 | greedy `[^\s]+`: the end index bounds a whitespace-free run and is the end of text or a whitespace position |
| UrlScanner.SearchFrom | bot.py:65 | no result exactly when no position from `from` matches; otherwise the first matching position and its maximal run |
| UrlScanner.Search | bot.py:65 | `re.search` returns no match exactly when no position matches, otherwise the leftmost-longest match |
| UrlScanner.ScanUrl | bot.py:65-70 | the URL is absent exactly when nothing matches, otherwise it is the text of the leftmost-longest match |
| UrlScanner.LeftmostLongestUnique | bot.py:65 | at most one span meets the search specification, so the scanned URL is determined by it |
| UrlScanner.ScannedUrlScheme | bot.py:65-70 | the URL is a word of the pattern's language: `https://` or `http://` followed by at least one non-whitespace character |
| UrlScanner.ScannedUrlHasNoSpace | bot.py:65-70 | the URL contains no whitespace character |
| UrlScanner.ScannedUrlIsLeftmostMaximal | bot.py:65-70 | the URL occurs in the text at a matching position, ends at the end of text or before whitespace, and no earlier position matches |
| UrlScanner.HttpsPositionIsNotHttp | bot.py:65 | at an `https://` position the optional `s` cannot backtrack into `http://` |
| UrlScanner.HttpsWithoutHostDoesNotMatch | bot.py:65 | `https://` followed by whitespace or the end of text is not a match |
| Router.Route | bot.py:73-79 | `Www` exactly when `www.jw.org` occurs in the URL; `Wol` exactly when it does not but `wol.jw.org` does; otherwise unsupported |
| Router.BothHostsRouteToWww | bot.py:73-76 | a URL containing both names goes to the `www.jw.org` extractor |
| Router.PathMentionRoutesToWww | bot.py:73 | the test looks at the whole URL, so a mention in the query routes a foreign host |
| Extractor.Truthy | bot.py:81 | Python truthiness of an optional string: `None` and `""` are false, any non-empty string is true |
| Extractor.Concat | bot.py:38 | `''.join(fragments)` is empty exactly when every fragment is empty |
| Extractor.ConcatAppend | bot.py:38 | joining two runs of fragments equals appending the two joins |
| Extractor.ConcatKeepsOrder | bot.py:38 | every fragment appears in the join at the offset where the earlier fragments end |
| Extractor.Extract | bot.py:29-57 | `(None, None)` exactly when the fetch failed, the title is absent or empty, or the container is absent; otherwise the page's title and content equal to `Concat` of the container's fragments, empty exactly when every fragment is |
| Extractor.ExtractJoinsInOrder | bot.py:34-39 | a page with title `t` and fragments `p`, `h` extracts to `(t, p + h)` |
| Extractor.PublishableIff | bot.py:34-39 | title and content are both non-empty exactly when the page was fetched, has a non-empty title and has a container with a non-empty fragment |
| Handler.HandleMessage | bot.py:60-94 | no reply exactly when the sender is unauthorised, and then no calls; a publish only after a fetch; a fetch only for the scanned URL and a supported site |
| Handler.HandleUrl | bot.py:70-94 | once a URL is scanned there is always a reply; the extractor runs exactly when the URL names a site, on that site and URL |
| Handler.PublishStep | bot.py:81-94 | after the extractor there is always a reply, the fetch is recorded, and a publish is attempted exactly when title and content are both truthy |
| Handler.Start | bot.py:96-98 | the greeting is sent exactly to the authorised sender |
| Handler.NoUrlMeansNoCalls | bot.py:65-68 | with no pattern match the reply is the valid-link prompt and nothing is fetched or published |
| Handler.UnsupportedMeansNoCalls | bot.py:73-79 | a URL naming neither site gets the configured-sites reply and nothing is fetched or published |
| Handler.FetchIff | bot.py:73-76 | the extractor runs exactly for an authorised sender whose scanned URL names a site, and it is the `www.jw.org` one whenever the URL contains `www.jw.org` |
| Handler.PublishIff | bot.py:81-88 | a publish is attempted exactly when the page has a non-empty title and a non-empty fragment; the request carries that title, the joined fragments, `JW.ORG` and the scanned URL |
| Handler.ReplyAfterFetch | bot.py:81-94 | after a fetch the reply is the processing-failure message, `https://telegra.ph/` + path, or the page-creation failure message |
| Handler.UnusedInputsDoNotMatter | bot.py:60-94 | the page and the publish outcome affect the result only when the handler reaches the fetch or the publish |
| Handler.ReplyFor | bot.py:62-94 | the reply table: only the unauthorised ending is silent, and a published page's reply starts with `https://telegra.ph/` |
| Handler.ReplyForInjective | bot.py:67-94 | different endings send different replies |
| Handler.HandleEndsInOneTerminal | bot.py:60-94 | every run ends in one of the endings and sends its reply; the silent ending happens exactly for unauthorised senders |

## Left out

- Environment loading, `int()` parsing and `sys.exit` at startup (bot.py:12-19): process bootstrap. The authorised id is a parameter. The model does not capture that an id of `0` makes the bot exit, because `not AUTHORIZED_USER_ID` is true for it.
- `Telegraph()` and `create_account` (bot.py:22-24): a side effect on a foreign service at import time.
- `requests.get` with its 30-second timeout and `raise_for_status` (bot.py:31-32, 46-47): network I/O. All of these become `Page.FetchFailed`.
- BeautifulSoup parsing, the `h1`, `docClass-106` and `scalable ui-resizable` selectors, `get_text(strip=True)` and `str(tag)` (bot.py:33-35, 38, 48-50, 53): library behaviour. `Page` supplies the title and fragments. The two extractors differ only in their selectors, so one `Extract` models both.
- Handler.HandleMessage: assumes sending a reply succeeds. At bot.py:89 the link is sent inside the same `try` as `create_page`, so a failed send of the link falls into the `except` at bot.py:90-92 and sends the page-creation failure message although the page exists. Transport failures are outside the model.
- `telegraph.create_page` (bot.py:83-88): a foreign call. Its outcome is the `PublishOutcome` input. A missing `path` key raises inside the `try`, so it counts as `CreateFailed`.
- The Telegram `Application`, handler registration, polling and `async` scheduling (bot.py:101-105): transport and concurrency.
- Logging (bot.py:25-26, 41, 56, 91): it has no effect on replies.

# Pinterest search-and-detail scraper, modelled in Dafny

The repository holds three Node.js scripts that share one core:

- `crawler-parser.js` searches Pinterest for each keyword and logs one stub per result card. A stub holds a name, a url and an image.
- `crawler-proxy.js` does the same through the ScrapeOps proxy. It appends each stub with `writeToCsv` to the file named after the keyword, with its first space replaced by `-` and `.csv` added (`Rewrites.OutputFile`).
- `scraper-parser.js` adds a second stage. `processResults` reads those files back and calls `processPin` on each row. `processPin` is written to visit the row's page with a bounded retry loop and extract the creator, website, star count and follower count. As called at scraper-parser.js:176, though, it receives the locale as its ceiling and visits no page at all (see Findings).

This project models that core as pure functions over immutable data, plus a few methods with loops, and proves what the scripts promise.

| module (file) | what it models |
|---|---|
| `Results` (results.dfy) | `Option` and `Result` |
| `JsString` (js_string.dfy) | `String.prototype.replace` with a string pattern: only the first occurrence is replaced |
| `Utf8` (utf8.dfy) | the UTF-8 encoder and decoder the URL encoder relies on |
| `FormUrlEncoded` (form_urlencoded.dfy) | the application/x-www-form-urlencoded serializer and parser of the WHATWG URL Standard (sections 5.1 and 5.2), which `URLSearchParams.toString()` uses |
| `ProxyUrl` (proxy_url.dfy) | `getScrapeOpsUrl`, and the direct-or-proxied choice of URL |
| `Rewrites` (rewrites.dfy) | the keyword → query and keyword → file-name rewrites, the search URL, the stub url, the follower count |
| `CsvSink` (csv_sink.dfy) | `writeToCsv`, over an abstract store of files, each with a header and rows |
| `Retry` (retry.dfy) | the `while (tries <= retries && !success)` loop shared by both stages, as one generic method |
| `SearchStage` (search_stage.dfy) | `scrapeSearchResults` in its persisting and its logging variant |
| `DetailStage` (detail_stage.dfy) | `processPin` |
| `Crawl` (crawl.dfy) | `main`, `startScrape` and `processResults`, and how arguments bind at their call sites |

Parameters stand in for everything outside the program:

- A page is an abstract record of what the DOM queries return.
- A browser is an oracle `fetch(url, attempt)` that gives the page seen on each attempt.
- The file system is a map from path to file, plus a set of paths the CSV writer cannot write.
- The API key from `config.json` is a parameter.

Dafny `int` is unbounded. The source's counters are small, so no wrap-around is involved.

In these places the model follows the code as written:

- `processPin` only logs its record with `console.log(pinData)`. Detail records are never written to a file.
- `processPin` navigates to `row.url` directly, not through the proxy.
- A card with no `a` or no `img` does not produce a stub with null fields. `page.evaluate` throws on the null element, and the whole attempt fails. Rows appended earlier in that attempt stay, and the retry starts again from the first card.

## Model

| member | source | states |
|---|---|---|
| JsString.ReplaceFirst | scraper-parser.js:60 | A string pattern that does not occur leaves the string unchanged. Otherwise exactly its leftmost occurrence is replaced, and the length changes by the difference in lengths. |
| JsString.ReplaceFirstChar | scraper-parser.js:90 | With a one-character pattern, only the first occurrence changes. Every other character, including later occurrences, is kept, and the length is unchanged. |
| JsString.DeleteFirst | crawler-parser.js:40 | Replacing by "" deletes exactly the first occurrence, or nothing when the pattern is absent. |
| Rewrites.FormatQuery | scraper-parser.js:60 | The query has the keyword's length, and a keyword without a space is used as it is. |
| Rewrites.OutputFile | scraper-parser.js:90 | The file name is the keyword's length plus four and ends in `.csv`. A keyword without a space is followed by `.csv` as it is. |
| Rewrites.FormatQueryFirstSpaceOnly | scraper-parser.js:60 | In the query, only the first space of the keyword becomes `+`. Later spaces and every other character stay. |
| Rewrites.OutputFileFirstSpaceOnly | scraper-parser.js:90 | In the file name, only the first space becomes `-`, followed by `.csv`. |
| Rewrites.QueryExample | scraper-parser.js:60-66 | "bbq grill ideas" is searched as "bbq+grill ideas": the second space survives. |
| Rewrites.FileNameExample | crawler-proxy.js:75 | "bbq grill ideas" is written to "bbq-grill ideas.csv". |
| Rewrites.SearchUrl | crawler-parser.js:15-21 | The search URL is the fixed prefix, then the formatted keyword, then `&rs=typed`. |
| Rewrites.StubUrl | scraper-parser.js:86 | Every stub url starts with `https://www.pinterest.com`. |
| Rewrites.StubUrlStripsFirstProxyHost | crawler-proxy.js:71 | The stub url is the root plus the href with its first `https://proxy.scrapeops.io` deleted. An href without it is only prefixed. |
| Rewrites.StubUrlOfProxiedHref | crawler-proxy.js:64-71 | A proxied href `https://proxy.scrapeops.io<path>` becomes `https://www.pinterest.com<path>`. |
| Rewrites.FollowerCount | scraper-parser.js:147 | The count is never longer than the profile text. A text containing neither the name nor ` followers` is returned whole. |
| Rewrites.FollowerCountDeletesName | scraper-parser.js:147 | The name is deleted first, at its leftmost occurrence, then ` followers` from what remains. A name that does not occur deletes nothing. |
| Rewrites.FollowerCountOfProfile | scraper-parser.js:141-147 | From the profile text `<name><count> followers`, with no space in count, the follower count is exactly `<count>`. |
| Rewrites.FollowerCountExample | scraper-parser.js:147 | "Jane Doe1.2K followers" with the name "Jane Doe" gives "1.2K". |
| Utf8.DecodeEncode | scraper-parser.js:45-51 | Decoding the UTF-8 encoding of any string gives the string back. |
| FormUrlEncoded.Serialize | scraper-parser.js:51 | The serialized query is pure ASCII. |
| FormUrlEncoded.EncodeByte | scraper-parser.js:45-51 | A space is written as `+`. The ASCII letters and digits and `*-._` are written as they are. Every other byte is `%` followed by two upper-case hex digits of its value. No byte is written as `&` or `=`. |
| FormUrlEncoded.EncodeKeptBytes | scraper-parser.js:45-51 | Bytes that are all kept are written unchanged. |
| FormUrlEncoded.EncodeKeptComponent | scraper-parser.js:45-51 | A name or value made only of kept ASCII characters is written unchanged. |
| FormUrlEncoded.DecodeEncodedComponent | crawler-proxy.js:30-35 | Parsing inverts the encoding of one name or value. |
| FormUrlEncoded.SerializeEndsWithKeptPair | scraper-parser.js:45-51 | For a list of at least two pairs whose last name and value are made of kept characters, the serialization ends with `&<name>=<value>`. |
| FormUrlEncoded.ParseSerialize | crawler-proxy.js:30-36 | Parsing a serialization gives back the same pairs, in order, for any names and values. |
| ProxyUrl.GetScrapeOpsUrl | scraper-parser.js:44-52 | The proxy URL starts with `https://proxy.scrapeops.io/v1/?`. Its query decodes to exactly `api_key`, `url`, `country`, `wait`, in that order, with the target url and the country unchanged and `wait` equal to "2000". |
| ProxyUrl.ProxyUrlEndsWithWait | scraper-parser.js:44-52 | The proxy URL ends with `&wait=2000`, as written. |
| ProxyUrl.FetchUrl | crawler-parser.js:21-22 | The direct route navigates to the target URL itself. The proxied route gives a URL whose query decodes to the key, the target and the country. |
| CsvSink.WriterFor | scraper-parser.js:13-21 | The header columns are the keys of `data[0]`, in order, with `id == title == key`. Append mode is on exactly when the file exists. |
| CsvSink.WriteRecords | crawler-proxy.js:22-26 | A writer that cannot write fails with WriteFailed. Otherwise the rows go after the existing rows. In append mode the header is that of the existing file, or empty if there is none; otherwise the file is new and headed by the titles. No other path changes. |
| CsvSink.WriteToCsv | scraper-parser.js:9-27 | A null or empty batch gives NoData, logged as "No data to write!", before the store is looked at. An unwritable path gives WriteFailed, logged as "Failed to write to csv". Otherwise the rows are appended, the header is kept or taken from `data[0]`, and every other path is unchanged. |
| CsvSink.AppendsAccumulate | crawler-proxy.js:9-27 | Two writes to one path append both batches, in order, with no deduplication. |
| CsvSink.HeaderFromFirstBatch | crawler-proxy.js:13-21 | The batch that creates a file fixes its header. A later batch appends rows only. |
| CsvSink.GrowsStep | crawler-proxy.js:106-111 | One keyword's crawl leaves the rows already in every file first. |
| CsvSink.UntouchedStep | crawler-proxy.js:106-111 | After one more keyword's crawl, only the recorded files can differ. |
| Retry.Run | scraper-parser.js:54-102 | The loop makes at most `retries + 1` attempts (none when `retries < 0`) and stops at the first success. `tries` counts the failures, and all attempts fail when it gives up. The state is that of the attempts made. Each attempt opens one page and closes it before the next opens. Failure `j` reports `retries - j` tries left. |
| Retry.StateAfterKeeps | scraper-parser.js:58-101 | A property of the state that every attempt keeps holds after any number of attempts. |
| Retry.FirstSuccessDecides | crawler-proxy.js:43-86 | When attempt `k` is the first to succeed and lies within the budget, the loop ends with `tries == k` and success. |
| Retry.SuccessIffSomeAttemptSucceeds | crawler-parser.js:13-55 | For attempts that do not depend on the state, the loop succeeds exactly when some attempt within the budget would. |
| SearchStage.CardToStub | scraper-parser.js:77-88 | A card yields a stub exactly when it has an `a` with an `href` and an `img`. The name and image may be null. The url is the stub url of the href, so it is always on the site. |
| SearchStage.StubsBeforeFailure | crawler-parser.js:29-45 | The stubs, in order, of the cards before the first card that cannot be read. |
| SearchStage.StubsOnSite | crawler-parser.js:29-45 | Every stub read from the cards has a url on the site. |
| SearchStage.AllWellFormedStubs | crawler-parser.js:31-35 | Every card yields a stub exactly when the stubs cover all the cards. |
| SearchStage.StubRecordsAreStubRows | scraper-parser.js:84-90 | Every row the search stage writes has the keys `name, url, image` and a url on the site. |
| SearchStage.PersistCards | crawler-proxy.js:60-76 | The card loop changes only the keyword's file and leaves an unwritable file as it was. |
| SearchStage.PersistCardsSucceeds | crawler-proxy.js:60-79 | The card loop completes exactly when every card can be read and, if there is any card, the file can be written. |
| SearchStage.PersistCardsRows | crawler-proxy.js:62-79 | The file gains the rows of the readable cards before the first failure, in order. Rows appended before the failure stay. |
| SearchStage.PersistCardsHeader | scraper-parser.js:84-90 | An existing file keeps its header. A file the loop creates gets `name,url,image`. |
| SearchStage.LogCards | crawler-parser.js:29-48 | The logging loop completes exactly when every card can be read, and logs the stubs before the first unreadable card. |
| SearchStage.PersistAttempt | scraper-parser.js:58-100 | One attempt: a failed navigation fails and changes nothing. Otherwise only the keyword's file can change, and the read-only set is kept. |
| SearchStage.LogAttempt | crawler-parser.js:13-54 | One logging attempt: a failed navigation fails and logs nothing. A loaded page succeeds exactly when every card can be read, and logs the stubs before the first unreadable card. |
| SearchStage.PersistRunAppendsStubRows | scraper-parser.js:58-101 | After any number of attempts, only the keyword's file has changed. Its old rows come first and every new row is a stub row. |
| SearchStage.PersistSucceedsAt | scraper-parser.js:64-94 | An attempt succeeds exactly when its page loads, every card can be read, and the file can be written if there are cards. |
| SearchStage.PersistSuccessIff | crawler-proxy.js:43-86 | The persisting loop succeeds exactly when some attempt within the budget meets that condition. |
| SearchStage.PersistingCrawl | crawler-proxy.js:39-87 | The persisting loop keeps the loop's guarantees, succeeds exactly as above, and only appends stub rows to its file. |
| SearchStage.ScrapeSearchResults | scraper-parser.js:54-102 | The same, on the proxied search URL and `<keyword with first space as '-'>.csv`. |
| SearchStage.RetryReappendsFromFirstCard | scraper-parser.js:75-97 | When attempt 0 breaks off at an unreadable card and attempt 1 reads all cards, the loop ends after one failure. The file then holds the readable prefix of attempt 0 followed by all rows of attempt 1, with the earlier rows repeated. |
| SearchStage.TwoAttemptsRows | crawler-proxy.js:58-79 | Two loaded attempts append their batches one after the other. |
| SearchStage.LogRunStubs | crawler-parser.js:13-55 | The logging attempts only add to the log, and every logged url is on the site. |
| SearchStage.LogSucceedsAt | crawler-parser.js:19-48 | A logging attempt succeeds exactly when its page loads and every card can be read. |
| SearchStage.LoggedLast | crawler-parser.js:29-48 | After a loaded attempt whose cards can all be read, the log ends with the stubs of all its cards. |
| SearchStage.ScrapeSearchResultsDirect | crawler-parser.js:9-56 | The crawl navigates to the search URL itself. Every logged stub has a url on the site. On success, every card of the successful page was read and its stubs were logged last. |
| DetailStage.ExtractPin | scraper-parser.js:125-155 | A record is produced exactly when the page loaded and has the main card, the follower box, the name element and its nested div. A missing follower box is the explicit "blocked" error. `website` is the underlined text or "n/a", `stars` is the number of full stars, `image` is `row.image`, and `name` is the title, possibly null. The follower count is the profile text with the first occurrence of the title deleted (of "null" when there is no title), then the first ` followers`. |
| DetailStage.UntitledNameDeletesNull | scraper-parser.js:141-147 | A nested div without a `title` still yields a record, with a null name. Its follower count deletes the first "null" in the profile text, if any, before ` followers`. |
| DetailStage.FollowerCountOfPage | scraper-parser.js:136-147 | On a page whose profile text is `<name><count> followers`, the record's follower count is `<count>`. |
| DetailStage.PinAttempt | scraper-parser.js:118-167 | One attempt succeeds exactly when extraction from its page succeeds. On success it logs that record after the earlier ones; on failure it logs nothing. |
| DetailStage.NothingLoggedBeforeSuccess | scraper-parser.js:149-160 | Failed attempts log nothing. |
| DetailStage.PinSucceedsAt | scraper-parser.js:122-160 | An attempt succeeds exactly when extraction from its page succeeds. |
| DetailStage.PinSuccessIff | scraper-parser.js:119-168 | The pin loop succeeds exactly when some attempt within the budget extracts a record. |
| DetailStage.PinLoggedOnce | scraper-parser.js:157-160 | The loop logs exactly one record on success, the one extracted by the successful attempt, and none otherwise. |
| DetailStage.ThirdAttemptSucceeds | scraper-parser.js:119-168 | With ceiling 3, two failures then a success give `tries == 2`, tries-left messages 3 and 2, one record and six page events. |
| DetailStage.AllFourAttemptsFail | scraper-parser.js:161-164 | With ceiling 3 and every attempt failing, there are four tries, messages 3, 2, 1 and 0, no record, and eight page events. |
| DetailStage.ProcessPin | scraper-parser.js:113-169 | The pin loop has the loop's guarantees. It succeeds exactly when some attempt extracts a record, and then logs exactly that record, carrying the row's image. What it logs is the record of the first attempt within the budget that yields one. |
| Crawl.AttemptBudget | scraper-parser.js:119 | A numeric ceiling allows `retries + 1` attempts. `undefined` or a word such as a country code allows none, because the comparison with NaN is false. |
| Crawl.SearchCallAsWritten | scraper-parser.js:104-108 | As called from `main`, the search stage receives the locale as `pageNumber`, so it uses the default country "us" and the default ceiling 3. |
| Crawl.SearchCallCorrected | crawler-proxy.js:89-93 | The corrected call passes the keyword, the configured locale and the ceiling. |
| Crawl.CrawlCountryFinding | scraper-parser.js:185-191 | With `main`'s locale "uk", the proxy query as written carries `country=us`; corrected, it carries `country=uk`. |
| Crawl.PinRetriesAsWritten | scraper-parser.js:176 | `processPin(browser, pin, location, location, retries)` binds the locale to `retries`. |
| Crawl.PinRetriesCorrected | scraper-parser.js:113 | The corrected call binds the ceiling to `retries`. |
| Crawl.DetailLoopFinding | scraper-parser.js:171-176 | As written, a country code as `retries` allows no attempt, so no detail page is ever visited. Corrected, ceiling 3 allows four attempts. |
| Crawl.StartScrape | scraper-parser.js:104-111 | (corrected call) One keyword's crawl makes at most the budgeted attempts and succeeds exactly when some attempt within the budget reads every card (and can write, if there are cards). It stops at the first successful attempt: every earlier attempt failed, and when it gives up it has used the whole budget. The store is the one its attempts leave: only that keyword's file changes, only by appending, and every appended row is a stub row. |
| Crawl.SearchOutcomeUnique | scraper-parser.js:58-101 | Two crawls of the same keyword over the same pages agree on the number of tries, on success and on the store they leave. |
| Crawl.CrawlKeyword | scraper-parser.js:189-194 | One iteration of `main`'s loop records the keyword's file and leaves the store of that keyword's search crawl, as `Crawl.StartScrape` describes it. Files not recorded stay as they were, and every file keeps its earlier rows first. |
| Crawl.CrawlKeywords | scraper-parser.js:189-194 | `aggregateFiles[i]` is the file the `i`-th keyword's crawl appends to. Every other file is untouched, and every file keeps its earlier rows first. |
| DetailStage.FirstRecord | scraper-parser.js:118-168 | The record of the first attempt within the budget whose page yields one, or none; at most one, carrying the row's image. |
| DetailStage.FirstRecordSkips | scraper-parser.js:118-168 | Attempts that yield no record do not change which record comes first. |
| DetailStage.PinLoggedIsFirstRecord | scraper-parser.js:118-168 | The pin loop logs exactly the record of the first attempt within the budget that yields one, and nothing when none does. |
| Crawl.ProcessResults | scraper-parser.js:171-180 | (corrected call) The records logged are, in row order, each row's first extracted record within the budget (`PinRecords`). One record is logged per row whose loop succeeds, and every logged image is a row's image. |
| Crawl.OneOfTwoPinsSucceeds | scraper-parser.js:175-177 | Two rows with ceiling 3: the first fails twice then succeeds, the second fails all four attempts. Exactly one record results. |

## Left out

- Retry.Run: assumes that `browser.newPage()` and `page.setJavaScriptEnabled(false)` cannot fail. In the source both run before the `try` (scraper-parser.js:61-62, crawler-proxy.js:46-47, crawler-parser.js:16-17); `processPin` calls only `newPage()` there (scraper-parser.js:120). A failure there escapes the loop instead of counting as a try, and a failing `setJavaScriptEnabled` leaves its page unclosed. Likewise `await page.close()` in `finally` (scraper-parser.js:99 and :166, crawler-proxy.js:84, crawler-parser.js:53) is taken to succeed. A rejected close escapes the loop too; in `processPin` it also leaves `processResults`' loop, and the remaining rows are skipped. `Retry.PagesPaired` does not cover those cases.
- Puppeteer is left out: launch and close, `newPage`, `setJavaScriptEnabled`, `goto` and its 60-second timeout, and the DOM queries. Each page is the result of the oracle `fetch(url, attempt)`, and a navigation error or timeout is `FetchFailed` or `NavigationFailed`.
- `readCsv` and csv-parse are left out (scraper-parser.js:29-42). `Crawl.ProcessResults` takes the rows as a parameter and does not connect them to the rows the search stage wrote.
- csv-writer's text format is left out: quoting, line endings, and how values are rendered. A file is a header plus records. A path the writer cannot write is in the store's `readOnly` set, and that is the only writer failure modelled.
- `page.screenshot` in `processPin`'s `catch` (scraper-parser.js:162) is left out, as is its own failure, which would escape the loop.
- Console output is left out, except the tries-left count `retries - tries` that every failure reports.
- The unused parameters `pageNumber`, `concurrencyLimit` and `location` (in `processPin`) are left out, and so is any concurrency.
- `main`'s hard-coded keyword list, locale and ceiling are parameters of `Crawl.CrawlKeywords`. It models the persisting crawl only. The crawl of crawler-parser.js differs in two ways: it logs stubs instead of writing them, and it navigates to the search URL directly with `page.goto(url)` (crawler-parser.js:22), not through the proxy. Its search stage is `SearchStage.ScrapeSearchResultsDirect`; its `main` loop is not modelled separately.
- JsString.ReplaceFirst: requires a replacement string without `$`. JavaScript gives `$` patterns a special meaning, and every replacement in the scripts ("+", "-", "") is free of them.
- Utf8.Decode: returns None on malformed input, where the standard substitutes U+FFFD. It is only applied to serializer output, which is always well formed.
- Dafny's `char` is a Unicode scalar value. JavaScript's lone UTF-16 surrogates, which `URLSearchParams` would replace by U+FFFD, cannot occur in the model.
- Crawl.AttemptBudget: gives no answer for strings other than words of letters (for example "3"), because `ToNumber` on numeric strings is not modelled. The call sites only pass numbers, `undefined` and country codes.
- Crawl.ProcessResults: uses the corrected call `processPin(browser, pin, location, retries)`, not the call as written at scraper-parser.js:176, which visits no page (see Findings). It states which records are logged and in which order, through `PinRecords`.
- Crawl.StartScrape: uses the corrected call of the search stage, with the configured locale and ceiling, not the shifted arguments of scraper-parser.js:108 (see Findings).
- Crawl.CrawlKeywords: states how the store changes per file over the whole loop, not which rows each keyword added. The store each keyword's crawl leaves is stated per iteration by `Crawl.CrawlKeyword`.

## Findings

| source | as written | input that shows it | evidently intended | confidence | as-written member | corrected member |
|---|---|---|---|---|---|---|
| scraper-parser.js:191 | `startScrape(keyword, location, retries)` against the parameters `(keyword, location, concurrencyLimit, retries)`, then `scrapeSearchResults(browser, keyword, location, retries)` at line 108, which shifts the locale into `pageNumber` | `main`'s locale "uk" with ceiling 3: the proxy query carries `country=us`, and the ceiling is the default | the configured locale and ceiling reach the search stage | not executed | Crawl.SearchCallAsWritten, shown by Crawl.CrawlCountryFinding | Crawl.SearchCallCorrected |
| scraper-parser.js:176 | `processPin(browser, pin, location, location, retries)` binds the locale to `retries` | locale "uk": `0 <= "uk"` is false, so no detail page is ever opened | `processPin(browser, pin, location, retries)` | not executed | Crawl.PinRetriesAsWritten, shown by Crawl.DetailLoopFinding | Crawl.PinRetriesCorrected |

The other two scripts share the first argument shift (crawler-proxy.js:93 and :108, crawler-parser.js:62 and :77). The rest of the model, `Crawl.StartScrape` and `Crawl.ProcessResults`, uses the corrected calls.

/** `main`, `startScrape` and `processResults`: crawl every keyword, record the
    file each crawl appends to, then visit every row of those files. Also the
    positional argument passing at these call sites, which the source gets
    wrong in two places. */
module Crawl {
  import opened Results
  import opened Rewrites
  import CsvSink
  import Retry
  import ProxyUrl
  import FormUrlEncoded
  import SearchStage
  import DetailStage

  // ---------------------------------------------------------------------------
  // Argument binding at the call sites

  /** The JavaScript values passed as arguments here; JsObject stands for the
      browser and for a row. */
  datatype JsValue = Undefined | JsString(s: string) | JsNumber(n: int) | JsObject

  /** Positional binding of parameter `i` with a default: a missing or
      `undefined` argument takes the default. */
  function Bind(args: seq<JsValue>, i: nat, default: JsValue): (v: JsValue)
    ensures i < |args| && !args[i].Undefined? ==> v == args[i]
    ensures (i >= |args| || args[i].Undefined?) ==> v == default
  {
    if i < |args| && !args[i].Undefined? then args[i] else default
  }

  /** A non-empty word of ASCII letters other than "Infinity", such as a
      country code: `ToNumber` turns it into NaN. */
  predicate IsLetterWord(s: string) {
    && |s| > 0 && s != "Infinity"
    && forall i :: 0 <= i < |s| ==> ('a' <= s[i] <= 'z' || 'A' <= s[i] <= 'Z')
  }

  /** Attempts the loop `while (tries <= retries && !success)` allows for a
      `retries` argument: `retries + 1` for a number (none when negative), none
      when `retries` converts to NaN, since every comparison with NaN is false.
      Other strings are not modelled. */
  function AttemptBudget(retries: JsValue): (r: Option<nat>)
    ensures retries.JsNumber? ==> r == Some(Retry.Budget(retries.n))
    ensures retries.Undefined? || (retries.JsString? && IsLetterWord(retries.s)) ==> r == Some(0)
  {
    match retries
    case JsNumber(n) => Some(Retry.Budget(n))
    case Undefined => Some(0)
    case JsString(s) => if IsLetterWord(s) then Some(0) else None
    case JsObject => None
  }

  /** The parameters `scrapeSearchResults(browser, keyword, pageNumber,
      location = "us", retries = 3)` receive. */
  datatype SearchCall = SearchCall(keyword: JsValue, pageNumber: JsValue, location: JsValue, retries: JsValue)

  function BindSearch(args: seq<JsValue>): SearchCall {
    SearchCall(Bind(args, 1, Undefined), Bind(args, 2, Undefined),
               Bind(args, 3, JsString(ProxyUrl.DefaultCountry)), Bind(args, 4, JsNumber(3)))
  }

  /** As written: `main` calls `startScrape(keyword, location, retries)`
      against the parameters `(keyword, location, concurrencyLimit, retries)`,
      so `startScrape`'s `retries` is undefined; it then calls
      `scrapeSearchResults(browser, keyword, location, retries)`, so the locale
      lands in `pageNumber` and both defaults apply. */
  function SearchCallAsWritten(keyword: string, location: string, retries: int): (c: SearchCall)
    ensures c.location == JsString("us") && c.retries == JsNumber(3)
    ensures c.pageNumber == JsString(location)
  {
    var startArgs := [JsString(keyword), JsString(location), JsNumber(retries)];
    var startKeyword, startLocation, startRetries := Bind(startArgs, 0, Undefined), Bind(startArgs, 1, Undefined), Bind(startArgs, 3, Undefined);
    BindSearch([JsObject, startKeyword, startLocation, startRetries])
  }

  /** The evidently intended call: the configured locale and retry ceiling
      reach the search stage. */
  function SearchCallCorrected(keyword: string, location: string, retries: int): (c: SearchCall)
    ensures c.keyword == JsString(keyword) && c.location == JsString(location) && c.retries == JsNumber(retries)
  {
    BindSearch([JsObject, JsString(keyword), Undefined, JsString(location), JsNumber(retries)])
  }

  /** With `main`'s locale "uk", the crawl as written asks the proxy for the
      country "us"; the corrected call asks for "uk". */
  lemma CrawlCountryFinding(apiKey: string, keyword: string, retries: int)
    ensures SearchCallAsWritten(keyword, "uk", retries).location.s == "us"
    ensures var url := SearchStage.ProxiedSearchUrl(apiKey, keyword, SearchCallAsWritten(keyword, "uk", retries).location.s);
      FormUrlEncodedQuery(url) == Some([("api_key", apiKey), ("url", SearchUrl(keyword)), ("country", "us"), ("wait", "2000")])
    ensures var url := SearchStage.ProxiedSearchUrl(apiKey, keyword, SearchCallCorrected(keyword, "uk", retries).location.s);
      FormUrlEncodedQuery(url) == Some([("api_key", apiKey), ("url", SearchUrl(keyword)), ("country", "uk"), ("wait", "2000")])
  {
  }

  /** The query of a proxy URL, decoded. */
  function FormUrlEncodedQuery(url: string): Option<seq<(string, string)>> {
    if |ProxyUrl.Endpoint| <= |url| then FormUrlEncoded.Parse(url[|ProxyUrl.Endpoint|..]) else None
  }

  /** The `retries` parameter of `processPin(browser, row, location, retries = 3)`. */
  function BindPinRetries(args: seq<JsValue>): JsValue {
    Bind(args, 3, JsNumber(3))
  }

  /** As written: `processPin(browser, pin, location, location, retries)`: the
      locale is bound to `retries`. */
  function PinRetriesAsWritten(location: string, retries: int): (v: JsValue)
    ensures v == JsString(location)
  {
    BindPinRetries([JsObject, JsObject, JsString(location), JsString(location), JsNumber(retries)])
  }

  /** The evidently intended call `processPin(browser, pin, location, retries)`. */
  function PinRetriesCorrected(location: string, retries: int): (v: JsValue)
    ensures v == JsNumber(retries)
  {
    BindPinRetries([JsObject, JsObject, JsString(location), JsNumber(retries)])
  }

  /** As written, a country code such as "uk" in `retries` makes `0 <= "uk"`
      false: no detail page is ever opened. Corrected, the ceiling 3 allows
      four attempts. */
  lemma DetailLoopFinding(location: string)
    requires IsLetterWord(location)
    ensures AttemptBudget(PinRetriesAsWritten(location, 3)) == Some(0)
    ensures AttemptBudget(PinRetriesCorrected(location, 3)) == Some(4)
  {
  }

  // ---------------------------------------------------------------------------
  // The two stages

  /** What one keyword's search stage does to the store: it makes at most the
      budgeted attempts and stops at the first that succeeds, succeeds exactly when some attempt within the budget
      reads every card (and can write, if there are cards), leaves the store
      its attempts leave, and appends only stub rows to the keyword's file. */
  ghost predicate SearchOutcome(sink: CsvSink.Sink, keyword: string, location: string, retries: int, apiKey: string,
                                fetch: (string, nat) -> SearchStage.SearchPage,
                                out: CsvSink.Sink, tries: nat, success: bool)
  {
    var url, file := SearchStage.ProxiedSearchUrl(apiKey, keyword, location), OutputFile(keyword);
    var attempt := SearchStage.PersistAttempt(fetch, url, file);
    && Retry.Attempts(tries, success) <= Retry.Budget(retries)
    && (forall j :: 0 <= j < tries ==> !Retry.SucceedsAt(attempt, sink, j))
    && (success ==> Retry.SucceedsAt(attempt, sink, tries))
    && (!success ==> tries == Retry.Budget(retries))
    && (success <==> exists k :: 0 <= k < Retry.Budget(retries) && SearchStage.PersistSucceeds(fetch(url, k), file, sink.readOnly))
    && out == Retry.StateAfter(attempt, sink, Retry.Attempts(tries, success))
    && (forall i :: |CsvSink.Rows(sink, file)| <= i < |CsvSink.Rows(out, file)| ==> SearchStage.IsStubRow(CsvSink.Rows(out, file)[i]))
  }

  /** The search outcome is determined by its inputs: the number of tries,
      whether it succeeded and the store it leaves are the same for any two
      runs, so the crawl cannot go on after its first success. */
  lemma SearchOutcomeUnique(sink: CsvSink.Sink, keyword: string, location: string, retries: int, apiKey: string,
                            fetch: (string, nat) -> SearchStage.SearchPage,
                            out1: CsvSink.Sink, tries1: nat, success1: bool,
                            out2: CsvSink.Sink, tries2: nat, success2: bool)
    requires SearchOutcome(sink, keyword, location, retries, apiKey, fetch, out1, tries1, success1)
    requires SearchOutcome(sink, keyword, location, retries, apiKey, fetch, out2, tries2, success2)
    ensures tries1 == tries2 && success1 == success2 && out1 == out2
  {
  }

  /** `startScrape` with the corrected call: the search stage for one keyword
      with the configured locale and ceiling. It succeeds exactly when some
      attempt within the budget reads every card (and can write, if there are
      cards); the store is the one its attempts leave, in which only the
      keyword's file changes, and only by appending stub rows. */
  method StartScrape(sink: CsvSink.Sink, keyword: string, location: string, retries: int, apiKey: string,
                     fetch: (string, nat) -> SearchStage.SearchPage)
    returns (out: CsvSink.Sink, tries: nat, success: bool)
    ensures SearchOutcome(sink, keyword, location, retries, apiKey, fetch, out, tries, success)
    ensures CsvSink.UntouchedOutside(sink, out, [OutputFile(keyword)])
    ensures CsvSink.RowsExtend(sink, out, OutputFile(keyword))
  {
    var call := SearchCallCorrected(keyword, location, retries);
    var pages, triesLeft;
    tries, success, out, pages, triesLeft := SearchStage.ScrapeSearchResults(sink, keyword, call.location.s, call.retries.n, apiKey, fetch);
    forall p | p !in [OutputFile(keyword)] ensures CsvSink.Lookup(out, p) == CsvSink.Lookup(sink, p) {
      assert p != OutputFile(keyword);
    }
  }

  /** `f` applied to every element, in order. */
  function MapSeq<A, B>(f: A -> B, xs: seq<A>): (ys: seq<B>)
    ensures |ys| == |xs|
    ensures forall i :: 0 <= i < |xs| ==> ys[i] == f(xs[i])
  {
    if |xs| == 0 then [] else MapSeq(f, xs[..|xs| - 1]) + [f(xs[|xs| - 1])]
  }

  /** One iteration of `main`'s crawl loop: crawl the keyword and record its
      file. Files not recorded stay as `sink` had them, and every file keeps
      the rows `sink` had first. */
  method CrawlKeyword(sink: CsvSink.Sink, before: CsvSink.Sink, files: seq<string>, keyword: string, location: string,
                      retries: int, apiKey: string, fetch: (string, nat) -> SearchStage.SearchPage)
    returns (after: CsvSink.Sink, recorded: seq<string>)
    requires CsvSink.UntouchedOutside(sink, before, files) && CsvSink.Grows(sink, before)
    ensures recorded == files + [OutputFile(keyword)]
    ensures exists tries: nat, success: bool :: SearchOutcome(before, keyword, location, retries, apiKey, fetch, after, tries, success)
    ensures CsvSink.UntouchedOutside(sink, after, recorded) && CsvSink.Grows(sink, after)
  {
    var file := OutputFile(keyword);
    var tries, success;
    after, tries, success := StartScrape(before, keyword, location, retries, apiKey, fetch);
    CsvSink.GrowsStep(sink, before, after, file);
    CsvSink.UntouchedStep(sink, before, after, files, file);
    recorded := files + [file];
  }

  /** `main`'s crawl loop, with the corrected calls: each keyword is crawled
      through the proxy with the configured locale and ceiling, and the file it
      appends to is recorded. Files not recorded are untouched, and rows
      already in any file stay first. */
  method CrawlKeywords(sink: CsvSink.Sink, keywords: seq<string>, location: string, retries: int, apiKey: string,
                       fetch: (string, nat) -> SearchStage.SearchPage)
    returns (out: CsvSink.Sink, aggregateFiles: seq<string>)
    ensures aggregateFiles == MapSeq(OutputFile, keywords)
    ensures CsvSink.UntouchedOutside(sink, out, aggregateFiles)
    ensures CsvSink.Grows(sink, out)
  {
    out, aggregateFiles := sink, [];
    for i := 0 to |keywords|
      invariant aggregateFiles == MapSeq(OutputFile, keywords[..i])
      invariant CsvSink.UntouchedOutside(sink, out, aggregateFiles)
      invariant CsvSink.Grows(sink, out)
    {
      assert keywords[..i + 1][..i] == keywords[..i];
      out, aggregateFiles := CrawlKeyword(sink, out, aggregateFiles, keywords[i], location, retries, apiKey, fetch);
    }
    assert keywords[..|keywords|] == keywords;
  }

  /** How many rows have an attempt within the budget that extracts a record. */
  ghost function SucceedingRows(rows: seq<DetailStage.PinRow>, retries: int, fetch: (string, nat) -> DetailStage.DetailPage): nat {
    if |rows| == 0 then 0
    else SucceedingRows(rows[..|rows| - 1], retries, fetch)
         + (if DetailStage.PinSucceeds(rows[|rows| - 1], retries, fetch) then 1 else 0)
  }

  /** The records the detail stage logs for the rows, in row order: for each
      row, the record of its first attempt within the budget that yields one. */
  function PinRecords(rows: seq<DetailStage.PinRow>, retries: int, fetch: (string, nat) -> DetailStage.DetailPage)
    : seq<DetailStage.PinData>
  {
    if |rows| == 0 then []
    else PinRecords(rows[..|rows| - 1], retries, fetch)
         + DetailStage.FirstRecord(fetch, rows[|rows| - 1], 0, Retry.Budget(retries))
  }

  /** `processResults`, with the corrected call: every row is visited in
      order, a row whose attempts all fail is skipped, and exactly one record
      is logged per row that succeeds. Reading the rows back from the CSV file
      is left to the caller. */
  method ProcessResults(rows: seq<DetailStage.PinRow>, location: string, retries: int,
                        fetch: (string, nat) -> DetailStage.DetailPage)
    returns (logged: seq<DetailStage.PinData>)
    ensures |logged| == SucceedingRows(rows, retries, fetch)
    ensures forall i :: 0 <= i < |logged| ==> exists j :: 0 <= j < |rows| && logged[i].image == rows[j].image
    ensures logged == PinRecords(rows, retries, fetch)
  {
    logged := [];
    for i := 0 to |rows|
      invariant |logged| == SucceedingRows(rows[..i], retries, fetch)
      invariant logged == PinRecords(rows[..i], retries, fetch)
      invariant forall m :: 0 <= m < |logged| ==> exists j :: 0 <= j < i && logged[m].image == rows[j].image
    {
      var pinRetries := PinRetriesCorrected(location, retries);
      var _, _, pinLogged, _, _ := DetailStage.ProcessPin(rows[i], pinRetries.n, fetch);
      assert rows[..i + 1][..i] == rows[..i];
      logged := logged + pinLogged;
    }
    assert rows[..|rows|] == rows;
  }

  /** Two stubs with ceiling 3: the first pin's page fails twice and then
      loads, the second's fails on all four attempts. Exactly one record is
      produced, so `processResults` logs one record and finishes. */
  lemma OneOfTwoPinsSucceeds(rows: seq<DetailStage.PinRow>, fetch: (string, nat) -> DetailStage.DetailPage)
    requires |rows| == 2
    requires !DetailStage.ExtractPin(fetch(rows[0].url, 0), rows[0].image).Ok?
    requires !DetailStage.ExtractPin(fetch(rows[0].url, 1), rows[0].image).Ok?
    requires DetailStage.ExtractPin(fetch(rows[0].url, 2), rows[0].image).Ok?
    requires forall k :: 0 <= k < 4 ==> !DetailStage.ExtractPin(fetch(rows[1].url, k), rows[1].image).Ok?
    ensures SucceedingRows(rows, 3, fetch) == 1
  {
    assert Retry.Budget(3) == 4;
    assert DetailStage.PinSucceeds(rows[0], 3, fetch) by {
      assert 0 <= 2 < Retry.Budget(3);
    }
    assert !DetailStage.PinSucceeds(rows[1], 3, fetch);
    var first := rows[..1];
    assert first[..0] == [] && first[0] == rows[0];
    assert SucceedingRows(first, 3, fetch) == 1;
    assert rows[..|rows| - 1] == first;
  }
}

/** `scrapeSearchResults`: fetch the search page for a keyword, turn every grid
    card into a result stub, and either append each stub to the keyword's CSV
    file (scraper-parser.js, crawler-proxy.js, through the proxy) or log it
    (crawler-parser.js, fetched directly). The page is an abstract record of
    what the DOM queries return. */
module SearchStage {
  import opened Results
  import opened Rewrites
  import CsvSink
  import Retry
  import ProxyUrl

  /** The first `a` of a card: its `aria-label` and `href` attributes, each
      possibly absent (`getAttribute` returns null). */
  datatype Anchor = Anchor(ariaLabel: Option<string>, href: Option<string>)

  /** The first `img` of a card: its `src` attribute. */
  datatype Image = Image(src: Option<string>)

  /** One `div[data-grid-item='true']`, with `divCard.$("a")` and `divCard.$("img")`. */
  datatype Card = Card(anchor: Option<Anchor>, image: Option<Image>)

  /** What one attempt finds: navigation or the card query threw, or the cards
      in document order. */
  datatype SearchPage = FetchFailed | Loaded(cards: seq<Card>)

  datatype Stub = Stub(name: Option<string>, url: string, image: Option<string>)

  /** Reading a card. A missing `a` or `img` makes `page.evaluate` throw on
      null, and a missing `href` makes `href.replace` throw: the card yields no
      stub and the whole attempt fails. A missing label or `src` is kept as null. */
  function CardToStub(card: Card): (r: Option<Stub>)
    ensures r.Some? <==> card.anchor.Some? && card.anchor.value.href.Some? && card.image.Some?
    ensures r.Some? ==> r.value.name == card.anchor.value.ariaLabel && r.value.image == card.image.value.src
    ensures r.Some? ==> r.value.url == StubUrl(card.anchor.value.href.value)
    ensures r.Some? ==> |PinterestRoot| <= |r.value.url| && r.value.url[..|PinterestRoot|] == PinterestRoot
  {
    if card.anchor.Some? && card.anchor.value.href.Some? && card.image.Some? then
      Some(Stub(card.anchor.value.ariaLabel, StubUrl(card.anchor.value.href.value), card.image.value.src))
    else None
  }

  predicate WellFormed(card: Card) {
    CardToStub(card).Some?
  }

  /** The stubs of the cards read before the first card that cannot be read. */
  function StubsBeforeFailure(cards: seq<Card>): (stubs: seq<Stub>)
    ensures |stubs| <= |cards|
    ensures forall i :: 0 <= i < |stubs| ==> CardToStub(cards[i]) == Some(stubs[i])
    ensures |stubs| < |cards| ==> !WellFormed(cards[|stubs|])
  {
    if |cards| == 0 then []
    else match CardToStub(cards[0])
      case None => []
      case Some(stub) => [stub] + StubsBeforeFailure(cards[1..])
  }

  predicate AllWellFormed(cards: seq<Card>) {
    forall i :: 0 <= i < |cards| ==> WellFormed(cards[i])
  }

  lemma AllWellFormedCons(cards: seq<Card>)
    requires |cards| > 0
    ensures AllWellFormed(cards) <==> WellFormed(cards[0]) && AllWellFormed(cards[1..])
  {
    assert forall i :: 1 <= i < |cards| ==> cards[i] == cards[1..][i - 1];
  }

  lemma AllWellFormedStubs(cards: seq<Card>)
    ensures AllWellFormed(cards) <==> |StubsBeforeFailure(cards)| == |cards|
  {
  }

  function OptionalValue(v: Option<string>): CsvSink.Value {
    match v
    case Some(s) => CsvSink.Str(s)
    case None => CsvSink.Null
  }

  /** `{name, url, image}` as a record with those keys in that order. */
  function StubRecord(stub: Stub): CsvSink.Record {
    [CsvSink.Field("name", OptionalValue(stub.name)),
     CsvSink.Field("url", CsvSink.Str(stub.url)),
     CsvSink.Field("image", OptionalValue(stub.image))]
  }

  function StubRecords(stubs: seq<Stub>): (rs: seq<CsvSink.Record>)
    ensures |rs| == |stubs|
    ensures forall i :: 0 <= i < |stubs| ==> rs[i] == StubRecord(stubs[i])
  {
    if |stubs| == 0 then [] else [StubRecord(stubs[0])] + StubRecords(stubs[1..])
  }

  lemma StubRecordsCons(stub: Stub, rest: seq<Stub>)
    ensures StubRecords([stub] + rest) == [StubRecord(stub)] + StubRecords(rest)
  {
    assert ([stub] + rest)[1..] == rest;
  }

  const StubKeys: seq<string> := ["name", "url", "image"]

  /** A row the search stage writes: the stub keys, with a url on the site. */
  predicate IsStubRow(r: CsvSink.Record) {
    && |r| == 3
    && CsvSink.Keys(r) == StubKeys
    && r[1].value.Str?
    && |PinterestRoot| <= |r[1].value.s|
    && r[1].value.s[..|PinterestRoot|] == PinterestRoot
  }

  lemma StubRecordsAreStubRows(stubs: seq<Stub>)
    requires forall i :: 0 <= i < |stubs| ==> |PinterestRoot| <= |stubs[i].url| && stubs[i].url[..|PinterestRoot|] == PinterestRoot
    ensures forall i :: 0 <= i < |stubs| ==> IsStubRow(StubRecords(stubs)[i])
  {
    forall i | 0 <= i < |stubs| ensures IsStubRow(StubRecords(stubs)[i]) {
      assert CsvSink.Keys(StubRecord(stubs[i])) == StubKeys;
    }
  }

  /** The `for` loop over the cards, each stub appended on its own with
      `writeToCsv([searchData], file)`. The loop stops at the first card that
      cannot be read or the first failing write; rows appended before that
      stay. Only `file` can change. */
  function PersistCards(cards: seq<Card>, sink: CsvSink.Sink, file: string): (r: (bool, CsvSink.Sink))
    ensures r.1.readOnly == sink.readOnly
    ensures forall p :: p != file ==> CsvSink.Lookup(r.1, p) == CsvSink.Lookup(sink, p)
    ensures file in sink.readOnly ==> r.1 == sink
    decreases |cards|
  {
    if |cards| == 0 then (true, sink)
    else match CardToStub(cards[0])
      case None => (false, sink)
      case Some(stub) =>
        match CsvSink.WriteToCsv(sink, Some([StubRecord(stub)]), file)
        case Err(_) => (false, sink)
        case Ok(next) => PersistCards(cards[1..], next, file)
  }

  /** The loop completes exactly when every card can be read and, if there
      is any card, the file can be written. */
  lemma {:induction false} PersistCardsSucceeds(cards: seq<Card>, sink: CsvSink.Sink, file: string)
    ensures PersistCards(cards, sink, file).0 <==> AllWellFormed(cards) && (file !in sink.readOnly || |cards| == 0)
  {
    if |cards| > 0 {
      AllWellFormedCons(cards);
      match CardToStub(cards[0])
      case None =>
      case Some(stub) =>
        match CsvSink.WriteToCsv(sink, Some([StubRecord(stub)]), file)
        case Err(_) =>
        case Ok(next) =>
          PersistCardsSucceeds(cards[1..], next, file);
    }
  }

  /** A writable file gains the rows of the readable cards before the first
      unreadable one, in card order, after the rows it had. */
  lemma {:induction false} PersistCardsRows(cards: seq<Card>, sink: CsvSink.Sink, file: string)
    requires file !in sink.readOnly
    ensures CsvSink.Rows(PersistCards(cards, sink, file).1, file)
            == CsvSink.Rows(sink, file) + StubRecords(StubsBeforeFailure(cards))
  {
    if |cards| > 0 {
      match CardToStub(cards[0])
      case None =>
      case Some(stub) =>
        match CsvSink.WriteToCsv(sink, Some([StubRecord(stub)]), file)
        case Err(_) =>
        case Ok(next) =>
          PersistCardsRows(cards[1..], next, file);
          var rest := StubsBeforeFailure(cards[1..]);
          StubsBeforeFailureCons(cards);
          StubRecordsCons(stub, rest);
          assert CsvSink.Rows(next, file) == CsvSink.Rows(sink, file) + [StubRecord(stub)];
          AppendCons(CsvSink.Rows(sink, file), StubRecord(stub), StubRecords(rest),
                     StubRecords(StubsBeforeFailure(cards)));
    }
  }

  /** An existing file keeps its header; a file the loop creates gets the
      header `name,url,image`. */
  lemma {:induction false} PersistCardsHeader(cards: seq<Card>, sink: CsvSink.Sink, file: string)
    ensures var r := PersistCards(cards, sink, file);
      && (file in sink.files ==> file in r.1.files && r.1.files[file].header == sink.files[file].header)
      && (file !in sink.files && file in r.1.files ==> r.1.files[file].header == StubKeys)
  {
    if |cards| > 0 {
      match CardToStub(cards[0])
      case None =>
      case Some(stub) =>
        match CsvSink.WriteToCsv(sink, Some([StubRecord(stub)]), file)
        case Err(_) =>
        case Ok(next) =>
          assert CsvSink.Keys(StubRecord(stub)) == StubKeys;
          PersistCardsHeader(cards[1..], next, file);
    }
  }

  /** A stub whose url lies under the site's root. */
  predicate OnSite(stub: Stub) {
    |PinterestRoot| <= |stub.url| && stub.url[..|PinterestRoot|] == PinterestRoot
  }

  predicate AllOnSite(stubs: seq<Stub>) {
    forall i :: 0 <= i < |stubs| ==> OnSite(stubs[i])
  }

  lemma AllOnSiteAppend(a: seq<Stub>, b: seq<Stub>)
    requires AllOnSite(a) && AllOnSite(b)
    ensures AllOnSite(a + b)
  {
    forall i | 0 <= i < |a + b| ensures OnSite((a + b)[i]) {
      if i >= |a| {
        assert (a + b)[i] == b[i - |a|];
      }
    }
  }

  /** Every stub read from the cards has a url on the site. */
  lemma {:induction false} StubsOnSite(cards: seq<Card>)
    ensures AllOnSite(StubsBeforeFailure(cards))
    decreases |cards|
  {
    if |cards| > 0 && WellFormed(cards[0]) {
      StubsBeforeFailureCons(cards);
      StubsOnSite(cards[1..]);
      AllOnSiteAppend([CardToStub(cards[0]).value], StubsBeforeFailure(cards[1..]));
    }
  }

  lemma AppendCons<T>(a: seq<T>, x: T, b: seq<T>, c: seq<T>)
    requires c == [x] + b
    ensures a + [x] + b == a + c
  {
  }

  /** A readable first card's stub comes before those of the rest. */
  lemma StubsBeforeFailureCons(cards: seq<Card>)
    requires |cards| > 0 && WellFormed(cards[0])
    ensures StubsBeforeFailure(cards) == [CardToStub(cards[0]).value] + StubsBeforeFailure(cards[1..])
  {
  }

  /** crawler-parser.js: the same loop, with each stub logged instead of written. */
  function LogCards(cards: seq<Card>, logged: seq<Stub>): (r: (bool, seq<Stub>))
    ensures r.0 <==> AllWellFormed(cards)
    ensures r.1 == logged + StubsBeforeFailure(cards)
    decreases |cards|
  {
    if |cards| == 0 then (true, logged)
    else match CardToStub(cards[0])
      case None => (false, logged)
      case Some(stub) =>
        var r := LogCards(cards[1..], logged + [stub]);
        AllWellFormedCons(cards);
        StubsBeforeFailureCons(cards);
        AppendCons(logged, stub, StubsBeforeFailure(cards[1..]), StubsBeforeFailure(cards));
        r
  }

  /** Whether an attempt on `page` succeeds when appending to `file`. */
  predicate PersistSucceeds(page: SearchPage, file: string, readOnly: set<string>) {
    page.Loaded? && AllWellFormed(page.cards) && (file !in readOnly || |page.cards| == 0)
  }

  /** One attempt of the persisting variant: attempt `k` fetches `url`. A
      failed navigation changes nothing; otherwise only `file` can change. */
  function PersistAttempt(fetch: (string, nat) -> SearchPage, url: string, file: string)
    : (a: (CsvSink.Sink, nat) -> (bool, CsvSink.Sink))
    ensures forall sink: CsvSink.Sink, k: nat :: fetch(url, k).FetchFailed? ==> a(sink, k) == (false, sink)
    ensures forall sink: CsvSink.Sink, k: nat :: a(sink, k).1.readOnly == sink.readOnly
    ensures forall sink: CsvSink.Sink, k: nat, p: string ::
              p != file ==> CsvSink.Lookup(a(sink, k).1, p) == CsvSink.Lookup(sink, p)
  {
    (sink: CsvSink.Sink, k: nat) =>
      match fetch(url, k)
      case FetchFailed => (false, sink)
      case Loaded(cards) => PersistCards(cards, sink, file)
  }

  /** One attempt of the logging variant: it succeeds exactly when the page
      loads and every card can be read, and it logs the stubs read before the
      first unreadable card. */
  function LogAttempt(fetch: (string, nat) -> SearchPage, url: string): (a: (seq<Stub>, nat) -> (bool, seq<Stub>))
    ensures forall logged: seq<Stub>, k: nat :: fetch(url, k).FetchFailed? ==> a(logged, k) == (false, logged)
    ensures forall logged: seq<Stub>, k: nat :: fetch(url, k).Loaded? ==>
              && (a(logged, k).0 <==> AllWellFormed(fetch(url, k).cards))
              && a(logged, k).1 == logged + StubsBeforeFailure(fetch(url, k).cards)
  {
    (logged: seq<Stub>, k: nat) =>
      match fetch(url, k)
      case FetchFailed => (false, logged)
      case Loaded(cards) => LogCards(cards, logged)
  }

  /** The URL the persisting variant navigates to. */
  function ProxiedSearchUrl(apiKey: string, keyword: string, location: string): string {
    ProxyUrl.FetchUrl(ProxyUrl.Proxied(apiKey, location), SearchUrl(keyword))
  }

  /** What any number of persisting attempts leave in the store: the read-only
      set and every other path unchanged, the rows already in the keyword's file
      still first, and every row after them a stub row. */
  lemma {:induction false} PersistRunAppendsStubRows(fetch: (string, nat) -> SearchPage, url: string, file: string,
                                                     sink: CsvSink.Sink, k: nat)
    ensures var s := Retry.StateAfter(PersistAttempt(fetch, url, file), sink, k);
      && s.readOnly == sink.readOnly
      && (forall p :: p != file ==> CsvSink.Lookup(s, p) == CsvSink.Lookup(sink, p))
      && |CsvSink.Rows(sink, file)| <= |CsvSink.Rows(s, file)|
      && CsvSink.Rows(s, file)[..|CsvSink.Rows(sink, file)|] == CsvSink.Rows(sink, file)
      && (forall i :: |CsvSink.Rows(sink, file)| <= i < |CsvSink.Rows(s, file)| ==> IsStubRow(CsvSink.Rows(s, file)[i]))
  {
    if k > 0 {
      var attempt := PersistAttempt(fetch, url, file);
      PersistRunAppendsStubRows(fetch, url, file, sink, k - 1);
      var prev := Retry.StateAfter(attempt, sink, k - 1);
      var s := Retry.StateAfter(attempt, sink, k);
      assert s == attempt(prev, k - 1).1;
      match fetch(url, k - 1)
      case FetchFailed =>
      case Loaded(cards) =>
        assert s == PersistCards(cards, prev, file).1;
        if file !in prev.readOnly {
          PersistCardsRows(cards, prev, file);
          var stubs := StubsBeforeFailure(cards);
          StubRecordsAreStubRows(stubs);
          assert CsvSink.Rows(s, file) == CsvSink.Rows(prev, file) + StubRecords(stubs);
        }
    }
  }

  /** Attempt `k` of a persisting run succeeds exactly when its page does. */
  lemma PersistSucceedsAt(fetch: (string, nat) -> SearchPage, url: string, file: string, sink: CsvSink.Sink, k: nat)
    ensures Retry.SucceedsAt(PersistAttempt(fetch, url, file), sink, k)
            <==> PersistSucceeds(fetch(url, k), file, sink.readOnly)
  {
    PersistRunAppendsStubRows(fetch, url, file, sink, k);
    match fetch(url, k)
    case FetchFailed =>
    case Loaded(cards) =>
      PersistCardsSucceeds(cards, Retry.StateAfter(PersistAttempt(fetch, url, file), sink, k), file);
  }

  /** A persisting run succeeds exactly when some attempt within the budget
      finds a page it can read and write in full. */
  lemma PersistSuccessIff(retries: int, fetch: (string, nat) -> SearchPage, url: string, file: string, sink: CsvSink.Sink,
                          tries: nat, success: bool, out: CsvSink.Sink, pages: seq<Retry.PageEvent>, triesLeft: seq<int>)
    requires Retry.Outcome(retries, PersistAttempt(fetch, url, file), sink, tries, success, out, pages, triesLeft)
    ensures success <==> exists k :: 0 <= k < Retry.Budget(retries) && PersistSucceeds(fetch(url, k), file, sink.readOnly)
  {
    if success {
      PersistSucceedsAt(fetch, url, file, sink, tries);
    } else {
      forall k | 0 <= k < Retry.Budget(retries) ensures !PersistSucceeds(fetch(url, k), file, sink.readOnly) {
        PersistSucceedsAt(fetch, url, file, sink, k);
      }
    }
  }

  /** The persisting retry loop for a given URL and file. */
  method PersistingCrawl(sink: CsvSink.Sink, url: string, file: string, retries: int, fetch: (string, nat) -> SearchPage)
    returns (tries: nat, success: bool, out: CsvSink.Sink, pages: seq<Retry.PageEvent>, triesLeft: seq<int>)
    ensures Retry.Outcome(retries, PersistAttempt(fetch, url, file), sink, tries, success, out, pages, triesLeft)
    ensures success <==> exists k :: 0 <= k < Retry.Budget(retries) && PersistSucceeds(fetch(url, k), file, sink.readOnly)
    ensures forall p :: p != file ==> CsvSink.Lookup(out, p) == CsvSink.Lookup(sink, p)
    ensures |CsvSink.Rows(sink, file)| <= |CsvSink.Rows(out, file)|
    ensures CsvSink.Rows(out, file)[..|CsvSink.Rows(sink, file)|] == CsvSink.Rows(sink, file)
    ensures forall i :: |CsvSink.Rows(sink, file)| <= i < |CsvSink.Rows(out, file)| ==> IsStubRow(CsvSink.Rows(out, file)[i])
  {
    tries, success, out, pages, triesLeft := Retry.Run(retries, PersistAttempt(fetch, url, file), sink);
    PersistRunAppendsStubRows(fetch, url, file, sink, Retry.Attempts(tries, success));
    PersistSuccessIff(retries, fetch, url, file, sink, tries, success, out, pages, triesLeft);
  }

  /** `scrapeSearchResults` in scraper-parser.js and crawler-proxy.js (the
      unused `pageNumber` parameter is left out): the persisting loop on the
      proxied search URL, appending to `<keyword with its first space as '-'>.csv`.
      The loop succeeds exactly when some attempt within the budget reads every
      card (and can write, if there are cards); the store only grows, by stub
      rows, in that file alone. */
  method ScrapeSearchResults(sink: CsvSink.Sink, keyword: string, location: string, retries: int, apiKey: string,
                             fetch: (string, nat) -> SearchPage)
    returns (tries: nat, success: bool, out: CsvSink.Sink, pages: seq<Retry.PageEvent>, triesLeft: seq<int>)
    ensures var url, file := ProxiedSearchUrl(apiKey, keyword, location), OutputFile(keyword);
      && Retry.Outcome(retries, PersistAttempt(fetch, url, file), sink, tries, success, out, pages, triesLeft)
      && (success <==> exists k :: 0 <= k < Retry.Budget(retries) && PersistSucceeds(fetch(url, k), file, sink.readOnly))
      && (forall p :: p != file ==> CsvSink.Lookup(out, p) == CsvSink.Lookup(sink, p))
      && |CsvSink.Rows(sink, file)| <= |CsvSink.Rows(out, file)|
      && CsvSink.Rows(out, file)[..|CsvSink.Rows(sink, file)|] == CsvSink.Rows(sink, file)
      && (forall i :: |CsvSink.Rows(sink, file)| <= i < |CsvSink.Rows(out, file)| ==> IsStubRow(CsvSink.Rows(out, file)[i]))
  {
    tries, success, out, pages, triesLeft :=
      PersistingCrawl(sink, ProxiedSearchUrl(apiKey, keyword, location), OutputFile(keyword), retries, fetch);
  }

  /** A retried attempt starts again from the first card: when the first
      attempt breaks off at an unreadable card and the second reads every card,
      the file holds the rows of the first attempt's readable prefix followed
      by all rows of the second, the earlier rows included a second time. */
  lemma RetryReappendsFromFirstCard(fetch: (string, nat) -> SearchPage, url: string, file: string, sink: CsvSink.Sink,
                                    retries: int, tries: nat, success: bool, out: CsvSink.Sink,
                                    pages: seq<Retry.PageEvent>, triesLeft: seq<int>,
                                    firstCards: seq<Card>, secondCards: seq<Card>)
    requires Retry.Outcome(retries, PersistAttempt(fetch, url, file), sink, tries, success, out, pages, triesLeft)
    requires 1 <= retries && file !in sink.readOnly
    requires fetch(url, 0) == Loaded(firstCards) && !AllWellFormed(firstCards)
    requires fetch(url, 1) == Loaded(secondCards) && AllWellFormed(secondCards)
    ensures tries == 1 && success
    ensures |StubsBeforeFailure(secondCards)| == |secondCards|
    ensures CsvSink.Rows(out, file) == CsvSink.Rows(sink, file) + StubRecords(StubsBeforeFailure(firstCards))
                                       + StubRecords(StubsBeforeFailure(secondCards))
  {
    var attempt := PersistAttempt(fetch, url, file);
    PersistSucceedsAt(fetch, url, file, sink, 0);
    PersistSucceedsAt(fetch, url, file, sink, 1);
    Retry.FirstSuccessDecides(retries, attempt, sink, tries, success, out, pages, triesLeft, 1);
    AllWellFormedStubs(secondCards);
    assert Retry.Attempts(tries, success) == 2;
    TwoAttemptsRows(fetch, url, file, sink, firstCards, secondCards);
  }

  /** The rows two loaded attempts append, one batch after the other. */
  lemma TwoAttemptsRows(fetch: (string, nat) -> SearchPage, url: string, file: string, sink: CsvSink.Sink,
                        firstCards: seq<Card>, secondCards: seq<Card>)
    requires file !in sink.readOnly
    requires fetch(url, 0) == Loaded(firstCards) && fetch(url, 1) == Loaded(secondCards)
    ensures CsvSink.Rows(Retry.StateAfter(PersistAttempt(fetch, url, file), sink, 2), file)
            == CsvSink.Rows(sink, file) + StubRecords(StubsBeforeFailure(firstCards))
               + StubRecords(StubsBeforeFailure(secondCards))
  {
    PersistStep(fetch, url, file, sink, 0, firstCards);
    PersistStep(fetch, url, file, sink, 1, secondCards);
    var s1 := Retry.StateAfter(PersistAttempt(fetch, url, file), sink, 1);
    PersistCardsRows(firstCards, sink, file);
    PersistCardsRows(secondCards, s1, file);
  }

  /** Attempt `k` on a loaded page runs the card loop on the state the
      earlier attempts left. */
  lemma PersistStep(fetch: (string, nat) -> SearchPage, url: string, file: string, sink: CsvSink.Sink, k: nat,
                    cards: seq<Card>)
    requires fetch(url, k) == Loaded(cards)
    ensures Retry.StateAfter(PersistAttempt(fetch, url, file), sink, k + 1)
            == PersistCards(cards, Retry.StateAfter(PersistAttempt(fetch, url, file), sink, k), file).1
  {
  }

  /** Appending stubs on the site to a log that starts with `logged` and
      continues on the site keeps both facts. */
  lemma ExtendLog(logged: seq<Stub>, prev: seq<Stub>, stubs: seq<Stub>)
    requires |logged| <= |prev| && prev[..|logged|] == logged && AllOnSite(prev[|logged|..])
    requires AllOnSite(stubs)
    ensures |logged| <= |prev + stubs| && (prev + stubs)[..|logged|] == logged
    ensures AllOnSite((prev + stubs)[|logged|..])
  {
    assert (prev + stubs)[..|logged|] == prev[..|logged|];
    assert (prev + stubs)[|logged|..] == prev[|logged|..] + stubs;
    AllOnSiteAppend(prev[|logged|..], stubs);
  }

  /** A log that starts with `logged` and continues with stubs on the site. */
  predicate ExtendsOnSite(logged: seq<Stub>, l: seq<Stub>) {
    |logged| <= |l| && l[..|logged|] == logged && AllOnSite(l[|logged|..])
  }

  /** What any number of logging attempts leave in the log: the earlier
      entries first, then stubs whose urls are on the site. */
  lemma LogRunStubs(fetch: (string, nat) -> SearchPage, url: string, logged: seq<Stub>, k: nat)
    ensures var l := Retry.StateAfter(LogAttempt(fetch, url), logged, k);
      |logged| <= |l| && l[..|logged|] == logged && AllOnSite(l[|logged|..])
  {
    var inv := (l: seq<Stub>) => ExtendsOnSite(logged, l);
    assert logged[|logged|..] == [];
    forall s: seq<Stub>, j: nat | inv(s)
      ensures inv(LogAttempt(fetch, url)(s, j).1)
    {
      if fetch(url, j).Loaded? {
        var cards := fetch(url, j).cards;
        StubsOnSite(cards);
        ExtendLog(logged, s, StubsBeforeFailure(cards));
      }
    }
    Retry.StateAfterKeeps(LogAttempt(fetch, url), logged, k, inv);
  }

  /** Attempt `k` of the logging variant succeeds exactly when its page loads
      and every card can be read. */
  lemma LogSucceedsAt(fetch: (string, nat) -> SearchPage, url: string, logged: seq<Stub>, k: nat)
    ensures Retry.SucceedsAt(LogAttempt(fetch, url), logged, k)
            <==> fetch(url, k).Loaded? && AllWellFormed(fetch(url, k).cards)
  {
  }

  /** After a loaded attempt whose cards can all be read, the log ends with
      the stubs of all of its cards. */
  lemma LoggedLast(fetch: (string, nat) -> SearchPage, url: string, logged: seq<Stub>, k: nat)
    requires fetch(url, k).Loaded? && AllWellFormed(fetch(url, k).cards)
    ensures var l := Retry.StateAfter(LogAttempt(fetch, url), logged, k + 1);
      var cards := fetch(url, k).cards;
      |cards| <= |l| && l[|l| - |cards|..] == StubsBeforeFailure(cards)
  {
    var cards := fetch(url, k).cards;
    var prev := Retry.StateAfter(LogAttempt(fetch, url), logged, k);
    var stubs := StubsBeforeFailure(cards);
    assert Retry.StateAfter(LogAttempt(fetch, url), logged, k + 1) == prev + stubs;
    AllWellFormedStubs(cards);
    SuffixOfAppend(prev, stubs);
  }

  lemma SuffixOfAppend<T>(a: seq<T>, b: seq<T>)
    ensures |b| <= |a + b| && (a + b)[|a + b| - |b|..] == b
  {
  }

  /** `scrapeSearchResults` in crawler-parser.js: the search URL is fetched
      directly, with no proxy, and every stub is logged rather than written.
      (Its `pageNumber` and `location` parameters are unused there and left
      out.) Every logged stub has a url on the site, and a successful attempt
      logged the stubs of all its cards, last. */
  method ScrapeSearchResultsDirect(keyword: string, retries: int, fetch: (string, nat) -> SearchPage)
    returns (tries: nat, success: bool, logged: seq<Stub>, pages: seq<Retry.PageEvent>, triesLeft: seq<int>)
    ensures Retry.Outcome(retries, LogAttempt(fetch, SearchUrl(keyword)), [], tries, success, logged, pages, triesLeft)
    ensures AllOnSite(logged)
    ensures success ==>
              && fetch(SearchUrl(keyword), tries).Loaded?
              && var cards := fetch(SearchUrl(keyword), tries).cards;
              && AllWellFormed(cards)
              && |cards| <= |logged|
              && logged[|logged| - |cards|..] == StubsBeforeFailure(cards)
  {
    var url := ProxyUrl.FetchUrl(ProxyUrl.Direct, SearchUrl(keyword));
    tries, success, logged, pages, triesLeft := Retry.Run(retries, LogAttempt(fetch, url), []);
    LogRunStubs(fetch, url, [], Retry.Attempts(tries, success));
    assert logged[0..] == logged;
    if success {
      LogSucceedsAt(fetch, url, [], tries);
      LoggedLast(fetch, url, [], tries);
    }
  }
}

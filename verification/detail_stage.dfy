/** `processPin`: visit one pin's page and extract the creator, website, star
    count and follower count, retrying a bounded number of times. The page is an
    abstract record of what the DOM queries return. The record is only logged
    (`console.log(pinData)`), never written to a file. */
module DetailStage {
  import opened Results
  import opened JsString
  import opened Rewrites
  import Retry

  /** The `div` nested in the creator-name element, with its `title` attribute. */
  datatype TitleDiv = TitleDiv(title: Option<string>)

  /** `div[data-test-id='creator-profile-name']` and its nested `div`, if any. */
  datatype NameDiv = NameDiv(nested: Option<TitleDiv>)

  /** `div[data-test-id='follower-count']`: its text content and its name element. */
  datatype FollowerBox = FollowerBox(text: string, nameDiv: Option<NameDiv>)

  /** `div[data-test-id='CloseupDetails']` and the follower box found inside it. */
  datatype MainCard = MainCard(followerBox: Option<FollowerBox>)

  /** What one attempt finds: navigation failed (or timed out after 60 s), or the
      results of the page's queries — the main card, the text of the underlined
      span, and how many full-star elements there are. */
  datatype DetailPage =
    | NavigationFailed
    | Loaded(mainCard: Option<MainCard>, underlinedText: Option<string>, fullStars: nat)

  /** A row read back from the search stage's file: `row.url` and `row.image`. */
  datatype PinRow = PinRow(url: string, image: string)

  /** `pinData`; `name` is null when the nested div has no `title`. */
  datatype PinData = PinData(name: Option<string>, website: string, stars: nat, followerCount: string, image: string)

  /** Why an attempt threw. Blocked is the source's explicit
      "Page failed to loaded, most likely blocked!"; the others are TypeErrors
      from using a null element. */
  datatype PinError = PageNotLoaded | NoMainCard | Blocked | NoNameDiv | NoTitleDiv

  const NoWebsite := "n/a"

  /** `replace` converts a null pattern to the string "null". */
  function NamePattern(title: Option<string>): string {
    match title
    case Some(name) => name
    case None => "null"
  }

  /** The extraction of one attempt, in the source's order: a missing main
      card throws when it is searched, a missing follower box is reported as a
      block, a missing name element or nested div throws when it is read. */
  function ExtractPin(page: DetailPage, image: string): (r: Result<PinData, PinError>)
    ensures r.Ok? <==>
              && page.Loaded? && page.mainCard.Some?
              && page.mainCard.value.followerBox.Some?
              && page.mainCard.value.followerBox.value.nameDiv.Some?
              && page.mainCard.value.followerBox.value.nameDiv.value.nested.Some?
    ensures page.Loaded? && page.mainCard.Some? && page.mainCard.value.followerBox.None? ==> r == Err(Blocked)
    ensures r.Ok? ==> r.value.website == (if page.underlinedText.Some? then page.underlinedText.value else NoWebsite)
    ensures r.Ok? ==> r.value.stars == page.fullStars && r.value.image == image
    ensures r.Ok? ==> r.value.name == page.mainCard.value.followerBox.value.nameDiv.value.nested.value.title
    ensures r.Ok? ==>
              var box := page.mainCard.value.followerBox.value;
              r.value.followerCount == FollowerCount(box.text, NamePattern(box.nameDiv.value.nested.value.title))
  {
    match page
    case NavigationFailed => Err(PageNotLoaded)
    case Loaded(mainCard, underlined, stars) =>
      var website := if underlined.Some? then underlined.value else NoWebsite;
      match mainCard
      case None => Err(NoMainCard)
      case Some(card) =>
        match card.followerBox
        case None => Err(Blocked)
        case Some(box) =>
          match box.nameDiv
          case None => Err(NoNameDiv)
          case Some(nameDiv) =>
            match nameDiv.nested
            case None => Err(NoTitleDiv)
            case Some(titleDiv) =>
              var count := FollowerCount(box.text, NamePattern(titleDiv.title));
              Ok(PinData(titleDiv.title, website, stars, count, image))
  }

  /** The follower count of a profile text "<name><count> followers", for a
      count without spaces, is the count. */
  lemma FollowerCountOfPage(page: DetailPage, image: string, name: string, count: string)
    requires page.Loaded? && page.mainCard.Some? && page.mainCard.value.followerBox.Some?
    requires page.mainCard.value.followerBox.value.text == name + count + FollowersLabel
    requires page.mainCard.value.followerBox.value.nameDiv == Some(NameDiv(Some(TitleDiv(Some(name)))))
    requires ' ' !in count
    ensures ExtractPin(page, image).Ok? && ExtractPin(page, image).value.followerCount == count
  {
    FollowerCountOfProfile(name, count);
  }

  /** A nested div without a `title` still yields a record, with a null name,
      and the follower count is computed with the pattern "null": its first
      occurrence in the profile text is deleted, if there is one, before the
      label. */
  lemma UntitledNameDeletesNull(page: DetailPage, image: string)
    requires page.Loaded? && page.mainCard.Some? && page.mainCard.value.followerBox.Some?
    requires page.mainCard.value.followerBox.value.nameDiv == Some(NameDiv(Some(TitleDiv(None))))
    ensures var r := ExtractPin(page, image);
      var text := page.mainCard.value.followerBox.value.text;
      && r.Ok? && r.value.name.None?
      && (!Contains(text, "null") ==> r.value.followerCount == ReplaceFirst(text, FollowersLabel, ""))
      && (forall i :: IsFirstOccurrence(text, "null", i) ==>
            r.value.followerCount == ReplaceFirst(text[..i] + text[i + 4..], FollowersLabel, ""))
  {
    FollowerCountDeletesName(page.mainCard.value.followerBox.value.text, "null");
  }

  /** One attempt: fetch `row.url` (directly, never through the proxy) and log
      the record when extraction succeeds. */
  function PinAttempt(fetch: (string, nat) -> DetailPage, row: PinRow): (a: (seq<PinData>, nat) -> (bool, seq<PinData>))
    ensures forall logged: seq<PinData>, k: nat :: a(logged, k).0 <==> ExtractPin(fetch(row.url, k), row.image).Ok?
    ensures forall logged: seq<PinData>, k: nat :: a(logged, k).0 ==>
              a(logged, k).1 == logged + [ExtractPin(fetch(row.url, k), row.image).value]
    ensures forall logged: seq<PinData>, k: nat :: !a(logged, k).0 ==> a(logged, k).1 == logged
  {
    (logged: seq<PinData>, k: nat) =>
      match ExtractPin(fetch(row.url, k), row.image)
      case Ok(pin) => (true, logged + [pin])
      case Err(_) => (false, logged)
  }

  /** Some attempt within the budget would extract a record. */
  ghost predicate PinSucceeds(row: PinRow, retries: int, fetch: (string, nat) -> DetailPage) {
    exists k :: 0 <= k < Retry.Budget(retries) && ExtractPin(fetch(row.url, k), row.image).Ok?
  }

  /** The record of the first attempt from `k` on, among the first `budget`,
      whose page yields one; none when no such attempt does. */
  function FirstRecord(fetch: (string, nat) -> DetailPage, row: PinRow, k: nat, budget: nat): (r: seq<PinData>)
    ensures |r| <= 1
    ensures |r| == 1 ==> r[0].image == row.image
    decreases budget - k
  {
    if k >= budget then []
    else match ExtractPin(fetch(row.url, k), row.image)
      case Ok(pin) => [pin]
      case Err(_) => FirstRecord(fetch, row, k + 1, budget)
  }

  /** Attempts that yield no record do not change which record comes first. */
  lemma {:induction false} FirstRecordSkips(fetch: (string, nat) -> DetailPage, row: PinRow, k: nat, m: nat, budget: nat)
    requires k <= m <= budget
    requires forall j :: k <= j < m ==> !ExtractPin(fetch(row.url, j), row.image).Ok?
    ensures FirstRecord(fetch, row, k, budget) == FirstRecord(fetch, row, m, budget)
    decreases m - k
  {
    if k < m {
      FirstRecordStep(fetch, row, k, budget);
      FirstRecordSkips(fetch, row, k + 1, m, budget);
    }
  }

  lemma FirstRecordStep(fetch: (string, nat) -> DetailPage, row: PinRow, k: nat, budget: nat)
    requires k < budget && !ExtractPin(fetch(row.url, k), row.image).Ok?
    ensures FirstRecord(fetch, row, k, budget) == FirstRecord(fetch, row, k + 1, budget)
  {
  }

  /** Nothing is logged before the first successful attempt. */
  lemma {:induction false} NothingLoggedBeforeSuccess(fetch: (string, nat) -> DetailPage, row: PinRow, k: nat)
    requires forall j :: 0 <= j < k ==> !Retry.SucceedsAt(PinAttempt(fetch, row), [], j)
    ensures Retry.StateAfter(PinAttempt(fetch, row), [], k) == []
  {
    if k > 0 {
      NothingLoggedBeforeSuccess(fetch, row, k - 1);
      assert !Retry.SucceedsAt(PinAttempt(fetch, row), [], k - 1);
    }
  }

  /** Whether attempt `k` succeeds depends only on the page it fetches, not on
      what earlier attempts logged. */
  lemma PinSucceedsAt(fetch: (string, nat) -> DetailPage, row: PinRow, k: nat)
    ensures Retry.SucceedsAt(PinAttempt(fetch, row), [], k) <==> ExtractPin(fetch(row.url, k), row.image).Ok?
  {
  }

  /** The retry loop over a pin succeeds exactly when some attempt within the
      budget extracts a record. */
  lemma PinSuccessIff(row: PinRow, retries: int, fetch: (string, nat) -> DetailPage,
                      tries: nat, success: bool, logged: seq<PinData>, pages: seq<Retry.PageEvent>, triesLeft: seq<int>)
    requires Retry.Outcome(retries, PinAttempt(fetch, row), [], tries, success, logged, pages, triesLeft)
    ensures success <==> PinSucceeds(row, retries, fetch)
  {
    if success {
      PinSucceedsAt(fetch, row, tries);
    } else {
      forall k | 0 <= k < Retry.Budget(retries) ensures !ExtractPin(fetch(row.url, k), row.image).Ok? {
        PinSucceedsAt(fetch, row, k);
      }
    }
  }

  /** The retry loop over a pin logs exactly the record of its successful
      attempt, and nothing when every attempt fails. */
  lemma PinLoggedOnce(row: PinRow, retries: int, fetch: (string, nat) -> DetailPage,
                      tries: nat, success: bool, logged: seq<PinData>, pages: seq<Retry.PageEvent>, triesLeft: seq<int>)
    requires Retry.Outcome(retries, PinAttempt(fetch, row), [], tries, success, logged, pages, triesLeft)
    ensures |logged| == if success then 1 else 0
    ensures success ==> Ok(logged[0]) == ExtractPin(fetch(row.url, tries), row.image)
  {
    NothingLoggedBeforeSuccess(fetch, row, tries);
  }

  /** The loop logs exactly the record of the first attempt within the
      budget that yields one, and nothing when none does. */
  lemma PinLoggedIsFirstRecord(row: PinRow, retries: int, fetch: (string, nat) -> DetailPage,
                               tries: nat, success: bool, logged: seq<PinData>, pages: seq<Retry.PageEvent>,
                               triesLeft: seq<int>)
    requires Retry.Outcome(retries, PinAttempt(fetch, row), [], tries, success, logged, pages, triesLeft)
    ensures logged == FirstRecord(fetch, row, 0, Retry.Budget(retries))
  {
    var budget := Retry.Budget(retries);
    PinLoggedOnce(row, retries, fetch, tries, success, logged, pages, triesLeft);
    forall j | 0 <= j < tries ensures !ExtractPin(fetch(row.url, j), row.image).Ok? {
      PinSucceedsAt(fetch, row, j);
    }
    FirstRecordSkips(fetch, row, 0, tries, budget);
    if success {
      PinSucceedsAt(fetch, row, tries);
      assert logged == [logged[0]];
    }
  }

  /** With ceiling 3, a pin whose first two attempts fail and third succeeds
      is logged once, after two failures that reported 3 and 2 tries left. */
  lemma ThirdAttemptSucceeds(row: PinRow, fetch: (string, nat) -> DetailPage,
                             tries: nat, success: bool, logged: seq<PinData>, pages: seq<Retry.PageEvent>,
                             triesLeft: seq<int>)
    requires Retry.Outcome(3, PinAttempt(fetch, row), [], tries, success, logged, pages, triesLeft)
    requires !ExtractPin(fetch(row.url, 0), row.image).Ok? && !ExtractPin(fetch(row.url, 1), row.image).Ok?
    requires ExtractPin(fetch(row.url, 2), row.image).Ok?
    ensures tries == 2 && success && triesLeft == [3, 2] && |logged| == 1 && |pages| == 6
  {
    PinSucceedsAt(fetch, row, 0);
    PinSucceedsAt(fetch, row, 1);
    PinSucceedsAt(fetch, row, 2);
    Retry.FirstSuccessDecides(3, PinAttempt(fetch, row), [], tries, success, logged, pages, triesLeft, 2);
    PinLoggedOnce(row, 3, fetch, tries, success, logged, pages, triesLeft);
    assert triesLeft[0] == 3 && triesLeft[1] == 2;
  }

  /** With ceiling 3, a pin whose every attempt fails is tried four times,
      reporting 3, 2, 1 and 0 tries left, and nothing is logged. */
  lemma AllFourAttemptsFail(row: PinRow, fetch: (string, nat) -> DetailPage,
                            tries: nat, success: bool, logged: seq<PinData>, pages: seq<Retry.PageEvent>,
                            triesLeft: seq<int>)
    requires Retry.Outcome(3, PinAttempt(fetch, row), [], tries, success, logged, pages, triesLeft)
    requires forall k :: 0 <= k < 4 ==> !ExtractPin(fetch(row.url, k), row.image).Ok?
    ensures tries == 4 && !success && triesLeft == [3, 2, 1, 0] && logged == [] && |pages| == 8
  {
    PinSucceedsAt(fetch, row, tries);
    PinLoggedOnce(row, 3, fetch, tries, success, logged, pages, triesLeft);
  }

  /** `processPin(browser, row, location, retries)` (`location` is unused).
      The loop succeeds exactly when some attempt within the budget extracts a
      record; it then logs exactly that one record, which carries the row's
      image, and logs nothing otherwise. */
  method ProcessPin(row: PinRow, retries: int, fetch: (string, nat) -> DetailPage)
    returns (tries: nat, success: bool, logged: seq<PinData>, pages: seq<Retry.PageEvent>, triesLeft: seq<int>)
    ensures Retry.Outcome(retries, PinAttempt(fetch, row), [], tries, success, logged, pages, triesLeft)
    ensures success <==> PinSucceeds(row, retries, fetch)
    ensures |logged| == if success then 1 else 0
    ensures success ==> Ok(logged[0]) == ExtractPin(fetch(row.url, tries), row.image)
    ensures success ==> logged[0].image == row.image
    ensures logged == FirstRecord(fetch, row, 0, Retry.Budget(retries))
  {
    tries, success, logged, pages, triesLeft := Retry.Run(retries, PinAttempt(fetch, row), []);
    PinSuccessIff(row, retries, fetch, tries, success, logged, pages, triesLeft);
    PinLoggedOnce(row, retries, fetch, tries, success, logged, pages, triesLeft);
    PinLoggedIsFirstRecord(row, retries, fetch, tries, success, logged, pages, triesLeft);
  }
}

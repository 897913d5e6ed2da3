/** The bounded retry loop shared by `scrapeSearchResults` and `processPin`:

      while (tries <= retries && !success) { open a page; try { …; success = true }
                                             catch { log; tries++ } finally { close } }

    One attempt is abstracted to a function from the state before it (whatever
    the attempt may change, such as the CSV store) and its index to whether it
    succeeded and the state after it. */
module Retry {

  /** Page lifecycle events, tagged with the attempt they belong to. */
  datatype PageEvent = NewPage(attempt: nat) | ClosePage(attempt: nat)

  /** Attempts allowed for a retry ceiling: `retries + 1`, or none when the
      guard `0 <= retries` already fails. */
  function Budget(retries: int): nat {
    if retries < 0 then 0 else retries + 1
  }

  /** Attempts actually made: the failed ones plus the successful one, if any. */
  function Attempts(tries: nat, success: bool): nat {
    if success then tries + 1 else tries
  }

  /** The state after the first `k` attempts. */
  function StateAfter<S>(attempt: (S, nat) -> (bool, S), s0: S, k: nat): S
    decreases k
  {
    if k == 0 then s0 else attempt(StateAfter(attempt, s0, k - 1), k - 1).1
  }

  /** Attempt `k`, made from the state the earlier attempts left, succeeds. */
  predicate SucceedsAt<S>(attempt: (S, nat) -> (bool, S), s0: S, k: nat) {
    attempt(StateAfter(attempt, s0, k), k).0
  }

  /** `n` attempts, each opening one page and closing it before the next opens. */
  predicate PagesPaired(pages: seq<PageEvent>, n: nat) {
    && |pages| == 2 * n
    && forall i :: 0 <= i < |pages| ==> pages[i] == if i % 2 == 0 then NewPage(i / 2) else ClosePage(i / 2)
  }

  /** Everything the loop promises about its outcome: it stays within the
      budget, every counted try failed, it stops at the first success, it gives
      up only when the budget is spent, its final state is that of the attempts
      it made, each attempt opened and closed one page, and each failure logged
      `retries - tries` as the tries left. */
  ghost predicate Outcome<S>(retries: int, attempt: (S, nat) -> (bool, S), s0: S,
                       tries: nat, success: bool, s: S, pages: seq<PageEvent>, triesLeft: seq<int>)
  {
    && Attempts(tries, success) <= Budget(retries)
    && (forall j :: 0 <= j < tries ==> !SucceedsAt(attempt, s0, j))
    && (success ==> SucceedsAt(attempt, s0, tries))
    && (!success ==> tries == Budget(retries))
    && s == StateAfter(attempt, s0, Attempts(tries, success))
    && PagesPaired(pages, Attempts(tries, success))
    && |triesLeft| == tries
    && (forall j :: 0 <= j < tries ==> triesLeft[j] == retries - j)
  }

  /** The loop itself. `pages` records `browser.newPage()` and the `finally`
      block's `page.close()`; `triesLeft` records the count each failure logs. */
  method Run<S>(retries: int, attempt: (S, nat) -> (bool, S), s0: S)
    returns (tries: nat, success: bool, s: S, pages: seq<PageEvent>, triesLeft: seq<int>)
    ensures Outcome(retries, attempt, s0, tries, success, s, pages, triesLeft)
  {
    tries, success, s, pages, triesLeft := 0, false, s0, [], [];
    while tries <= retries && !success
      invariant Attempts(tries, success) <= Budget(retries)
      invariant forall j :: 0 <= j < tries ==> !SucceedsAt(attempt, s0, j)
      invariant success ==> SucceedsAt(attempt, s0, tries)
      invariant s == StateAfter(attempt, s0, Attempts(tries, success))
      invariant PagesPaired(pages, Attempts(tries, success))
      invariant |triesLeft| == tries
      invariant forall j :: 0 <= j < tries ==> triesLeft[j] == retries - j
      decreases Budget(retries) - tries, if success then 0 else 1
    {
      var current := tries;
      pages := pages + [NewPage(current)];
      var (ok, next) := attempt(s, current);
      s := next;
      if ok {
        success := true;
      } else {
        triesLeft := triesLeft + [retries - tries];
        tries := tries + 1;
      }
      pages := pages + [ClosePage(current)];
    }
  }

  /** The loop succeeds exactly when some attempt within the budget would, for
      attempts whose success does not depend on what earlier attempts did. */
  lemma SuccessIffSomeAttemptSucceeds<S>(retries: int, attempt: (S, nat) -> (bool, S), s0: S,
                                         tries: nat, success: bool, s: S, pages: seq<PageEvent>, triesLeft: seq<int>,
                                         ok: nat -> bool)
    requires Outcome(retries, attempt, s0, tries, success, s, pages, triesLeft)
    requires forall k: nat, t: S :: attempt(t, k).0 == ok(k)
    ensures success <==> exists k :: 0 <= k < Budget(retries) && ok(k)
  {
    if success {
      assert SucceedsAt(attempt, s0, tries);
      assert ok(tries);
    } else {
      forall k | 0 <= k < Budget(retries) ensures !ok(k) {
        assert !SucceedsAt(attempt, s0, k);
      }
    }
  }

  /** The loop's outcome is determined by the first successful attempt: when
      attempt `k` is the first to succeed and lies within the budget, the loop
      made exactly `k` failed tries and then succeeded. */
  lemma FirstSuccessDecides<S>(retries: int, attempt: (S, nat) -> (bool, S), s0: S,
                               tries: nat, success: bool, s: S, pages: seq<PageEvent>, triesLeft: seq<int>, k: nat)
    requires Outcome(retries, attempt, s0, tries, success, s, pages, triesLeft)
    requires k < Budget(retries)
    requires forall j :: 0 <= j < k ==> !SucceedsAt(attempt, s0, j)
    requires SucceedsAt(attempt, s0, k)
    ensures tries == k && success
  {
  }

  /** A property of the state that every attempt keeps holds after any number
      of attempts. */
  lemma {:induction false} StateAfterKeeps<S>(attempt: (S, nat) -> (bool, S), s0: S, k: nat, inv: S -> bool)
    requires inv(s0)
    requires forall s: S, j: nat :: inv(s) ==> inv(attempt(s, j).1)
    ensures inv(StateAfter(attempt, s0, k))
  {
    if k > 0 {
      StateAfterKeeps(attempt, s0, k - 1, inv);
    }
  }
}

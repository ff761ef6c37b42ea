/**
 * The cookie-wait protocol `waitForCookieNamed` of auth.ts.
 *
 * The browser is abstracted as the sequence of what each attempt observes:
 * either something inside the attempt's `try` throws (the wait for a settled
 * navigation, or the cookie read after it), or both return and the page's
 * cookie jar is known. Attempt `i` (numbered from 1) observes
 * `OutcomeAt(outcomes, i)`. An attempt past the end of the sequence observes
 * `NavThrows`: when no further navigation happens, the navigation wait runs
 * into its timeout and throws.
 */
module CookieWait {
  import opened Cookies

  /** Retry budget when the caller passes none. */
  const DefaultRetries: nat := 5

  /** What one attempt observes. */
  datatype Outcome =
    | NavThrows                  // the navigation wait or the cookie read threw; the catch breaks the loop
    | Settled(jar: seq<Cookie>)  // the navigation settled; the cookies read afterwards

  /** The terminal states of the protocol. */
  datatype WaitResult =
    | Found(attempt: nat)    // the cookie was seen on this attempt; the function returns
    | Aborted(attempt: nat)  // the navigation wait or the cookie read threw on this attempt; the loop breaks
    | Exhausted              // every attempt ran without seeing the cookie

  /** The outcome of attempt `i`. */
  function OutcomeAt(outcomes: seq<Outcome>, i: nat): Outcome
  {
    if 1 <= i <= |outcomes| then outcomes[i - 1] else NavThrows
  }

  /** The attempt settled and the cookie was among those read. */
  predicate Hit(o: Outcome, name: string)
  {
    o.Settled? && HasCookieNamed(o.jar, name)
  }

  /** The attempt settled but the cookie was not among those read. */
  predicate Miss(o: Outcome, name: string)
  {
    o.Settled? && !HasCookieNamed(o.jar, name)
  }

  /** Attempts `lo` up to (not including) `hi` all settled without the cookie. */
  predicate MissesBetween(name: string, outcomes: seq<Outcome>, lo: nat, hi: nat)
  {
    forall j: nat :: lo <= j < hi ==> Miss(OutcomeAt(outcomes, j), name)
  }

  /**
   * Reference description of the protocol's end, entered at attempt `i` with a
   * budget of `n` attempts: which terminal state the observed outcomes lead to.
   */
  predicate EndsFrom(name: string, outcomes: seq<Outcome>, n: nat, i: nat, r: WaitResult)
  {
    match r
    case Found(a) =>
      i <= a <= n && MissesBetween(name, outcomes, i, a) && Hit(OutcomeAt(outcomes, a), name)
    case Aborted(a) =>
      i <= a <= n && MissesBetween(name, outcomes, i, a) && OutcomeAt(outcomes, a).NavThrows?
    case Exhausted =>
      MissesBetween(name, outcomes, i, n + 1)
  }

  /** The terminal state of a whole run, which starts at attempt 1. */
  predicate Ends(name: string, outcomes: seq<Outcome>, n: nat, r: WaitResult)
  {
    EndsFrom(name, outcomes, n, 1, r)
  }

  /** Number of navigation waits the run performed before reaching `r`. */
  function AttemptsMade(r: WaitResult, n: nat): nat
  {
    match r
    case Found(a) => a
    case Aborted(a) => a
    case Exhausted => n
  }

  /** The loop in state "waiting at attempt `i`" with budget `n`. */
  function WaitFrom(name: string, outcomes: seq<Outcome>, n: nat, i: nat): (r: WaitResult)
    requires 1 <= i <= n + 1
    ensures EndsFrom(name, outcomes, n, i, r)
    decreases n + 1 - i
  {
    if i > n then Exhausted
    else
      match OutcomeAt(outcomes, i)
      case NavThrows => Aborted(i)
      case Settled(jar) =>
        if HasCookieNamed(jar, name) then Found(i)
        else WaitFrom(name, outcomes, n, i + 1)
  }

  /** `waitForCookieNamed(name, page, n)`: attempts 1..n, first match wins. */
  function WaitForCookieNamed(name: string, outcomes: seq<Outcome>, n: nat): (r: WaitResult)
    ensures Ends(name, outcomes, n, r)
    ensures AttemptsMade(r, n) <= n
  {
    WaitFrom(name, outcomes, n, 1)
  }

  /**
   * The observed outcomes determine the terminal state: whatever end the
   * reference description admits from attempt `i` is the one the loop reaches.
   */
  lemma EndsFromDetermined(name: string, outcomes: seq<Outcome>, n: nat, i: nat, r: WaitResult)
    requires 1 <= i <= n + 1
    requires EndsFrom(name, outcomes, n, i, r)
    ensures r == WaitFrom(name, outcomes, n, i)
  {
    // Both ends are pinned to the first attempt from `i` that is not a miss,
    // which the contract of `WaitFrom` already exposes.
  }

  /** The protocol and its reference description agree, in both directions. */
  lemma EndsIffWait(name: string, outcomes: seq<Outcome>, n: nat, r: WaitResult)
    ensures Ends(name, outcomes, n, r) <==> r == WaitForCookieNamed(name, outcomes, n)
  {
    if Ends(name, outcomes, n, r) {
      EndsFromDetermined(name, outcomes, n, 1, r);
    }
  }

  /**
   * First match wins: when attempt `i` is reached (every earlier attempt settled
   * without the cookie) and sees the cookie, the protocol succeeds there and
   * makes no attempt after `i`.
   */
  lemma FirstMatchWins(name: string, outcomes: seq<Outcome>, n: nat, i: nat)
    requires 1 <= i <= n
    requires MissesBetween(name, outcomes, 1, i)
    requires Hit(OutcomeAt(outcomes, i), name)
    ensures WaitForCookieNamed(name, outcomes, n) == Found(i)
    ensures AttemptsMade(WaitForCookieNamed(name, outcomes, n), n) == i
  {
    EndsIffWait(name, outcomes, n, Found(i));
  }

  /**
   * A throwing navigation wait on a reached attempt `i` ends the loop there, as
   * a failure, without spending the remaining attempts.
   */
  lemma ThrowAborts(name: string, outcomes: seq<Outcome>, n: nat, i: nat)
    requires 1 <= i <= n
    requires MissesBetween(name, outcomes, 1, i)
    requires OutcomeAt(outcomes, i).NavThrows?
    ensures WaitForCookieNamed(name, outcomes, n) == Aborted(i)
    ensures !WaitForCookieNamed(name, outcomes, n).Found?
    ensures AttemptsMade(WaitForCookieNamed(name, outcomes, n), n) == i
  {
    EndsIffWait(name, outcomes, n, Aborted(i));
  }

  /**
   * With no throw and no sighting within the budget, exactly `n` attempts are
   * made and the protocol fails.
   */
  lemma AllMissesExhaust(name: string, outcomes: seq<Outcome>, n: nat)
    requires MissesBetween(name, outcomes, 1, n + 1)
    ensures WaitForCookieNamed(name, outcomes, n) == Exhausted
    ensures AttemptsMade(WaitForCookieNamed(name, outcomes, n), n) == n
  {
    EndsIffWait(name, outcomes, n, Exhausted);
  }

  /**
   * Success happens only through the early return: the protocol succeeds exactly
   * when some attempt within the budget is reached and sees the cookie.
   */
  lemma SucceedsIffSighted(name: string, outcomes: seq<Outcome>, n: nat)
    ensures WaitForCookieNamed(name, outcomes, n).Found?
        <==> exists a: nat :: 1 <= a <= n && MissesBetween(name, outcomes, 1, a) && Hit(OutcomeAt(outcomes, a), name)
  {
    if a: nat :| 1 <= a <= n && MissesBetween(name, outcomes, 1, a) && Hit(OutcomeAt(outcomes, a), name) {
      FirstMatchWins(name, outcomes, n, a);
    }
  }

  /**
   * A larger budget changes nothing about a run that already ended by success
   * or by an abort: extra attempts only matter after exhaustion.
   */
  lemma LargerBudgetKeepsEarlyEnd(name: string, outcomes: seq<Outcome>, n: nat, m: nat)
    requires n <= m
    requires !WaitForCookieNamed(name, outcomes, n).Exhausted?
    ensures WaitForCookieNamed(name, outcomes, m) == WaitForCookieNamed(name, outcomes, n)
  {
    EndsIffWait(name, outcomes, m, WaitForCookieNamed(name, outcomes, n));
  }

  /** The attempt numbers `1, 2, ..., k`, in order. */
  function AttemptNumbers(k: nat): (s: seq<nat>)
    ensures |s| == k
    ensures forall j :: 0 <= j < k ==> s[j] == j + 1
  {
    if k == 0 then [] else AttemptNumbers(k - 1) + [k]
  }

  /**
   * The `for` loop of `waitForCookieNamed`. `waits` lists the attempt numbers on
   * which a navigation wait was started.
   */
  method WaitForCookieNamedLoop(name: string, outcomes: seq<Outcome>, numOfRetries: nat)
    returns (r: WaitResult, waits: seq<nat>)
    ensures r == WaitForCookieNamed(name, outcomes, numOfRetries)
    ensures waits == AttemptNumbers(AttemptsMade(r, numOfRetries))
    ensures |waits| <= numOfRetries
  {
    waits := [];
    var aborted := false;
    var i := 1;
    while i <= numOfRetries
      invariant 1 <= i <= numOfRetries + 1
      invariant WaitFrom(name, outcomes, numOfRetries, i) == WaitForCookieNamed(name, outcomes, numOfRetries)
      invariant waits == AttemptNumbers(i - 1)
    {
      waits := waits + [i];
      var o := OutcomeAt(outcomes, i);
      if o.NavThrows? {
        aborted := true;
        break;
      }
      var seen := SomeNamed(o.jar, name);
      if seen {
        return Found(i), waits;
      }
      i := i + 1;
    }
    r := if aborted then Aborted(i) else Exhausted;
  }
}

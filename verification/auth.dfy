/**
 * The sign-in flow of auth.ts: choose credentials, open the portal, fill in and
 * submit the login form, wait for the session cookie, and save the cookies.
 *
 * A run is modelled by the browser actions it performs, in order, and by how
 * the process ends. The browser is reduced to what the flow observes of it:
 * whether the portal loads, whether the login form appears, how many of the
 * form's actions succeed, what each cookie-wait attempt observes, and what the
 * cookie read of `saveCookies` returns.
 */
module Auth {
  import opened Js
  import opened Cookies
  import opened Util
  import opened CookieWait
  import opened Credentials

  /**
   * A browser action the flow started. An action that throws is recorded too,
   * and the throw shows in what follows it (the catch, or the exit), with two
   * exceptions: `SaveCookies` means the file was written, so a throwing save
   * shows only as the catch after the last `NavWait`; and `waitForSelector` is
   * not an event, so its timeout shows as the catch right after `Goto`.
   */
  datatype Event =
    | LaunchBrowser                  // getBrowser and newPage
    | Goto                           // page.goto(baseUrl)
    | TypeUsername(username: string)
    | TypePassword(password: string)
    | Submit                         // click on the sign-in button
    | NavWait(attempt: nat)          // one attempt of the cookie-wait protocol
    | SaveCookies(jar: seq<Cookie>)  // saveCookies: the page's cookies written to cookies.json
    | Screenshot                     // saveErrorScreenshot
    | CloseBrowser

  /** How the process ends. */
  datatype Exit =
    | ExitDefault  // process.exit() without a code
    | ExitFailure  // process.exit(1)
    | Completed    // the main function ran to its end

  datatype Run = Run(events: seq<Event>, exit: Exit)

  /** What the browser does during a run. */
  datatype Browser = Browser(
    reachable: bool,              // page.goto(baseUrl) resolves
    formPresent: bool,            // the username field appears within the selector wait
    formActions: nat,             // how many of type username, type password, click succeed before one throws (3 or more: all)
    attempts: seq<Outcome>,       // what each cookie-wait attempt observes
    saveRead: Maybe<seq<Cookie>>  // the cookies saveCookies reads and writes; Undefined when the read or the write throws
  )

  /**
   * The process status each end produces: `process.exit()` falls back to
   * `process.exitCode`, which nothing sets, so it reports 0 like a normal end.
   */
  function ExitStatus(e: Exit): int
  {
    match e
    case ExitDefault => 0
    case ExitFailure => 1
    case Completed => 0
  }

  /** The navigation waits of attempts `1..k`, in order. */
  function NavWaits(k: nat): seq<Event>
  {
    seq(k, j requires 0 <= j < k => NavWait(j + 1))
  }

  /** Launching the browser, opening the portal, and submitting `c` in the login form. */
  function LoginSteps(c: Credentials): seq<Event>
  {
    [LaunchBrowser, Goto, TypeUsername(c.username), TypePassword(c.password), Submit]
  }

  /** What the catch of the main flow does: a screenshot, then the browser is closed. */
  const Caught: seq<Event> := [Screenshot, CloseBrowser]

  /** The cookie-wait protocol as the flow calls it: session cookie, default budget. */
  function SessionWait(browser: Browser): WaitResult
  {
    WaitForCookieNamed(SessionCookieName, browser.attempts, DefaultRetries)
  }

  /** The whole flow of auth.ts for the given arguments, environment and browser. */
  function SignIn(argv: seq<string>, env: Env, browser: Browser): (run: Run)
    ensures run.exit == ExitDefault <==> SelectCredentials(argv, env).MissingCredentials?
    ensures SelectCredentials(argv, env).MissingCredentials? ==> LaunchBrowser !in run.events
    ensures forall p :: 0 <= p < |run.events| && run.events[p].SaveCookies? ==>
              && 1 <= p
              && run.events[p - 1].NavWait?
              && Hit(OutcomeAt(browser.attempts, run.events[p - 1].attempt), SessionCookieName)
  {
    match SelectCredentials(argv, env)
    case MissingCredentials => Run([], ExitDefault)
    case Selected(c, _) =>
      if !browser.reachable then Run([LaunchBrowser, Goto], ExitFailure)
      else if !browser.formPresent then Run([LaunchBrowser, Goto] + Caught, Completed)
      else if browser.formActions < 3 then Run(LoginSteps(c)[..3 + browser.formActions] + Caught, Completed)
      else
        var k := AttemptsMade(SessionWait(browser), DefaultRetries);
        Run(LoginSteps(c) + NavWaits(k) + WaitEnding(browser),
            if SessionWait(browser).Found? then Completed else ExitFailure)
  }

  /**
   * What follows the navigation waits: the failure screenshot before `exit(1)`
   * when the wait failed; otherwise the save and the closing of the browser,
   * or the catch of the main flow when the save threw.
   */
  function WaitEnding(browser: Browser): seq<Event>
  {
    if !SessionWait(browser).Found? then [Screenshot]
    else
      match browser.saveRead
      case Defined(jar) => [SaveCookies(jar), CloseBrowser]
      case Undefined => Caught
  }

  /** The form was filled in and submitted. */
  predicate Submitted(browser: Browser)
  {
    browser.reachable && browser.formPresent && browser.formActions >= 3
  }

  /** The run wrote the cookie file. */
  predicate Persisted(run: Run)
  {
    exists p :: 0 <= p < |run.events| && run.events[p].SaveCookies?
  }

  /**
   * Cookies are saved exactly when credentials were found, the form was
   * submitted, the cookie-wait protocol saw the session cookie, and the save's
   * own cookie read and file write did not throw.
   */
  lemma PersistedIffSessionFound(argv: seq<string>, env: Env, browser: Browser)
    ensures Persisted(SignIn(argv, env, browser))
        <==> && SelectCredentials(argv, env).Selected?
             && Submitted(browser)
             && SessionWait(browser).Found?
             && browser.saveRead.Defined?
  {
    var run := SignIn(argv, env, browser);
    match SelectCredentials(argv, env)
    case MissingCredentials =>
    case Selected(c, _) =>
      if !browser.reachable || !browser.formPresent {
      } else if browser.formActions < 3 {
        var m := 3 + browser.formActions;
        assert run.events == LoginSteps(c)[..m] + Caught;
        forall p | 0 <= p < |run.events|
          ensures !run.events[p].SaveCookies?
        {
          if p < m { assert run.events[p] == LoginSteps(c)[p]; }
        }
      } else {
        var k := AttemptsMade(SessionWait(browser), DefaultRetries);
        assert run.events == LoginSteps(c) + NavWaits(k) + WaitEnding(browser);
        if SessionWait(browser).Found? && browser.saveRead.Defined? {
          assert run.events[5 + k].SaveCookies?;
        } else {
          forall p | 0 <= p < |run.events|
            ensures !run.events[p].SaveCookies?
          {
            if 5 <= p < 5 + k { assert run.events[p] == NavWaits(k)[p - 5]; }
          }
        }
      }
  }

  /**
   * A save comes right after the navigation wait whose attempt saw the session
   * cookie, and writes what the save's own cookie read returned.
   */
  lemma SaveFollowsSighting(argv: seq<string>, env: Env, browser: Browser, p: nat)
    requires p < |SignIn(argv, env, browser).events|
    requires SignIn(argv, env, browser).events[p].SaveCookies?
    ensures 1 <= p
    ensures SignIn(argv, env, browser).events[p - 1] == NavWait(SessionWait(browser).attempt)
    ensures SessionWait(browser).Found?
    ensures Hit(OutcomeAt(browser.attempts, SessionWait(browser).attempt), SessionCookieName)
    ensures browser.saveRead == Defined(SignIn(argv, env, browser).events[p].jar)
  {
    var run := SignIn(argv, env, browser);
    PersistedIffSessionFound(argv, env, browser);
    var c := SelectCredentials(argv, env).creds;
    var a := SessionWait(browser).attempt;
    assert run.events == LoginSteps(c) + NavWaits(a) + [SaveCookies(browser.saveRead.value), CloseBrowser];
    assert p == 5 + a;
  }

  /**
   * Reading back what a run saved succeeds exactly when the saved cookies hold
   * a session cookie, and then yields the first one, unchanged. When the
   * browser's cookies did not change between the sighting and the save, the
   * read-back succeeds.
   */
  lemma SavedCookiesReadBack(argv: seq<string>, env: Env, browser: Browser, p: nat)
    requires p < |SignIn(argv, env, browser).events|
    requires SignIn(argv, env, browser).events[p].SaveCookies?
    ensures ReadCookies(SignIn(argv, env, browser).events[p].jar).Returned?
        <==> HasCookieNamed(SignIn(argv, env, browser).events[p].jar, SessionCookieName)
    ensures ReadCookies(SignIn(argv, env, browser).events[p].jar).Returned? ==>
              exists k :: && IsFirstNamed(SignIn(argv, env, browser).events[p].jar, SessionCookieName, k)
                          && ReadCookies(SignIn(argv, env, browser).events[p].jar).value
                             == [SignIn(argv, env, browser).events[p].jar[k]]
    ensures browser.saveRead == Defined(OutcomeAt(browser.attempts, SessionWait(browser).attempt).jar) ==>
              ReadCookies(SignIn(argv, env, browser).events[p].jar).Returned?
  {
    SaveFollowsSighting(argv, env, browser, p);
  }

  /** The attempt numbers of the navigation waits among `events`, in order. */
  function WaitedAttempts(events: seq<Event>): seq<nat>
  {
    if |events| == 0 then []
    else (if events[0].NavWait? then [events[0].attempt] else []) + WaitedAttempts(events[1..])
  }

  lemma {:induction false} WaitedAttemptsAppend(a: seq<Event>, b: seq<Event>)
    ensures WaitedAttempts(a + b) == WaitedAttempts(a) + WaitedAttempts(b)
    decreases |a|
  {
    if |a| == 0 {
      assert a + b == b;
    } else {
      assert (a + b)[1..] == a[1..] + b;
      WaitedAttemptsAppend(a[1..], b);
    }
  }

  lemma {:induction false} WaitedAttemptsNone(events: seq<Event>)
    requires forall p :: 0 <= p < |events| ==> !events[p].NavWait?
    ensures WaitedAttempts(events) == []
    decreases |events|
  {
    if |events| > 0 {
      WaitedAttemptsNone(events[1..]);
    }
  }

  lemma {:induction false} WaitedAttemptsOfNavWaits(k: nat)
    ensures WaitedAttempts(NavWaits(k)) == AttemptNumbers(k)
  {
    if k > 0 {
      assert NavWaits(k) == NavWaits(k - 1) + [NavWait(k)];
      WaitedAttemptsOfNavWaits(k - 1);
      WaitedAttemptsAppend(NavWaits(k - 1), [NavWait(k)]);
    }
  }

  /** The navigation waits of a submitted run are those of attempts `1..k`. */
  lemma {:induction false} WaitedAfterLogin(c: Credentials, k: nat, ending: seq<Event>)
    requires forall p :: 0 <= p < |ending| ==> !ending[p].NavWait?
    ensures WaitedAttempts(LoginSteps(c) + NavWaits(k) + ending) == AttemptNumbers(k)
  {
    WaitedAttemptsAppend(LoginSteps(c) + NavWaits(k), ending);
    WaitedAttemptsAppend(LoginSteps(c), NavWaits(k));
    WaitedAttemptsNone(LoginSteps(c));
    WaitedAttemptsNone(ending);
    WaitedAttemptsOfNavWaits(k);
  }

  /**
   * A run starts at most `DefaultRetries` navigation waits, numbered 1, 2, ...
   * in order.
   */
  lemma NavWaitsBounded(argv: seq<string>, env: Env, browser: Browser)
    ensures |WaitedAttempts(SignIn(argv, env, browser).events)| <= DefaultRetries
    ensures WaitedAttempts(SignIn(argv, env, browser).events)
            == AttemptNumbers(|WaitedAttempts(SignIn(argv, env, browser).events)|)
  {
    var run := SignIn(argv, env, browser);
    match SelectCredentials(argv, env)
    case MissingCredentials =>
    case Selected(c, _) =>
      if !browser.reachable || !browser.formPresent {
        WaitedAttemptsNone(run.events);
      } else if browser.formActions < 3 {
        var m := 3 + browser.formActions;
        assert run.events == LoginSteps(c)[..m] + Caught;
        forall p | 0 <= p < |run.events|
          ensures !run.events[p].NavWait?
        {
          if p < m { assert run.events[p] == LoginSteps(c)[p]; }
        }
        WaitedAttemptsNone(run.events);
      } else {
        var k := AttemptsMade(SessionWait(browser), DefaultRetries);
        assert run.events == LoginSteps(c) + NavWaits(k) + WaitEnding(browser);
        WaitedAfterLogin(c, k, WaitEnding(browser));
      }
  }

  /** Every navigation wait follows the submission of the login form. */
  lemma SubmitPrecedesWaits(argv: seq<string>, env: Env, browser: Browser, p: nat)
    requires p < |SignIn(argv, env, browser).events|
    requires SignIn(argv, env, browser).events[p].NavWait?
    ensures Submitted(browser)
    ensures exists q :: 0 <= q < p && SignIn(argv, env, browser).events[q] == Submit
  {
    var run := SignIn(argv, env, browser);
    var c := SelectCredentials(argv, env).creds;
    var k := AttemptsMade(SessionWait(browser), DefaultRetries);
    assert run.events == LoginSteps(c) + (NavWaits(k) + WaitEnding(browser));
    assert run.events[4] == Submit;
  }

  /**
   * What is typed into the login form is the selected pair; when both
   * positional arguments are given, it is those.
   */
  lemma TypesSelectedCredentials(argv: seq<string>, env: Env, browser: Browser, p: nat)
    requires p < |SignIn(argv, env, browser).events|
    ensures SignIn(argv, env, browser).events[p].TypeUsername? ==>
              && SelectCredentials(argv, env).Selected?
              && SignIn(argv, env, browser).events[p].username == SelectCredentials(argv, env).creds.username
    ensures SignIn(argv, env, browser).events[p].TypePassword? ==>
              && SelectCredentials(argv, env).Selected?
              && SignIn(argv, env, browser).events[p].password == SelectCredentials(argv, env).creds.password
    ensures |argv| >= 4 && SignIn(argv, env, browser).events[p].TypeUsername? ==>
              SignIn(argv, env, browser).events[p].username == argv[2]
    ensures |argv| >= 4 && SignIn(argv, env, browser).events[p].TypePassword? ==>
              SignIn(argv, env, browser).events[p].password == argv[3]
  {
    var run := SignIn(argv, env, browser);
    match SelectCredentials(argv, env)
    case MissingCredentials =>
    case Selected(c, _) =>
      if !browser.reachable || !browser.formPresent {
      } else if browser.formActions < 3 {
        var m := 3 + browser.formActions;
        assert run.events == LoginSteps(c)[..m] + Caught;
        if p < m { assert run.events[p] == LoginSteps(c)[p]; }
      } else {
        var k := AttemptsMade(SessionWait(browser), DefaultRetries);
        assert run.events == LoginSteps(c) + (NavWaits(k) + WaitEnding(browser));
        if p >= 5 {
          assert run.events[p] == (NavWaits(k) + WaitEnding(browser))[p - 5];
        }
      }
  }

  /**
   * The process reports failure (status 1) exactly when the portal did not load
   * or the cookie wait ended without the session cookie; missing credentials,
   * a login form that fails, and a save that throws all end with status 0.
   */
  lemma FailureStatusIff(argv: seq<string>, env: Env, browser: Browser)
    ensures ExitStatus(SignIn(argv, env, browser).exit) == 1
        <==> && SelectCredentials(argv, env).Selected?
             && (!browser.reachable || (Submitted(browser) && !SessionWait(browser).Found?))
  {
  }
}

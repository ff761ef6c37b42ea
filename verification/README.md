# Verified model of the veracode_login sign-in flow

The tool signs in to the Veracode portal through its Okta login form in a
controlled browser, waits until the `vsid` session cookie appears, and writes
the browser's cookies to `cookies.json` for other tools to read back. This
project models, in Dafny, the logic of that flow:

- the cookie-wait protocol `waitForCookieNamed` (module `CookieWait`): a
  bounded retry loop over attempts `1..numOfRetries` (default 5) that ends in
  one of three states — `Found(i)` (cookie seen on attempt `i`, early return),
  `Aborted(i)` (the navigation wait or the cookie read threw on attempt `i`,
  the loop breaks) or `Exhausted` (every attempt settled without the cookie);
- the choice of credentials between the command line and the environment
  (module `Credentials`);
- the main flow (module `Auth`) as the ordered list of browser actions a run
  performs plus how the process ends, so that "cookies are saved only after the
  cookie was seen" and the bound on navigation waits are statements about runs;
- `readCookies` and `isNumeric` of `src/util/util.ts` (module `Util`), with the
  cookie searches they share in module `Cookies`.

The browser is a parameter: whether the portal loads, whether the login form
appears within its wait, how many of the form's actions (type the username,
type the password, click submit) succeed before one throws, a sequence of
per-attempt outcomes of the cookie wait, and what the cookie read of
`saveCookies` returns (or that it or the file write threw). Each attempt
outcome is either `NavThrows` — the navigation wait or the cookie read inside
the attempt's `try` threw, and the `catch` breaks the loop — or `Settled(jar)`
with the cookies read after the navigation settled. An attempt beyond the end
of that sequence observes `NavThrows`, as a navigation wait does when no
navigation arrives before its timeout. `saveCookies` reads the browser's
cookies a second time, so what it writes is its own read, which need not be
the jar the successful attempt saw. A run records every browser action it
started, including one that throws (`Goto` when the portal does not load, a
`type` or `click` that fails, the navigation wait of an aborted attempt); the
throw shows in what follows it, the catch of the main flow or the exit. There
are two exceptions. A `SaveCookies` action means the file was written, so a
save that throws shows only as the catch right after the last navigation
wait. `waitForSelector` is not an action of the model, so its timeout shows as
the catch right after `Goto`.

Behaviour of the code worth noting:

- Missing credentials end with `process.exit()` without a code; nothing sets
  `process.exitCode`, so the status is 0, not a failure status (`Auth.ExitStatus`).
- A login form that fails (the `waitForSelector` timeout, or a throwing `type`
  or `click`) and a save that throws are caught by the main flow, which takes a
  screenshot, closes the browser and ends normally, again with status 0.
- Both failures of the cookie wait call `process.exit(1)` from inside the
  protocol, after a screenshot, without closing the browser.
- `isNumeric` is true of every string: `Number.isNaN` is true only of the number
  NaN and never of a string. The model states this behaviour as written.

## Model

| member | source | states |
|---|---|---|
| Cookies.FirstIndexNamed | src/util/util.ts:10 | the search finds nothing exactly when no cookie has the name, and otherwise stops at the first cookie with that name |
| Cookies.SomeNamed | auth.ts:68 | the left-to-right scan answers true exactly when some cookie of the jar has the exact name |
| Util.ReadCookies | src/util/util.ts:6-16 | reading fails exactly when no cookie is named `vsid`; on success the list has exactly one cookie, the first one named `vsid`, unchanged |
| Util.IsNumeric | src/util/util.ts:22-24 | every string is reported numeric, because `Number.isNaN` is never true of a string |
| CookieWait.WaitFrom | auth.ts:64-77 | from attempt `i` the loop ends as the reference description says: found at the first sighting, aborted at the first throw, exhausted when every attempt up to the budget settled without the cookie |
| CookieWait.WaitForCookieNamed | auth.ts:63-81 | a whole run ends as the reference description says and performs no more navigation waits than the budget |
| CookieWait.EndsFromDetermined | auth.ts:64-80 | any terminal state the reference description admits is the one the loop reaches, so the observed outcomes determine the end |
| CookieWait.EndsIffWait | auth.ts:63-81 | the protocol and the reference description of its end agree in both directions |
| CookieWait.FirstMatchWins | auth.ts:68-70 | a reached attempt that sees the cookie ends the run as a success on that attempt, with no attempt after it |
| CookieWait.ThrowAborts | auth.ts:73-75 | a navigation wait that throws on a reached attempt ends the run there as a failure, leaving the remaining attempts unused |
| CookieWait.AllMissesExhaust | auth.ts:64-80 | with no throw and no sighting, exactly `numOfRetries` attempts are made and the run fails |
| CookieWait.SucceedsIffSighted | auth.ts:68-80 | the run succeeds exactly when some attempt within the budget is reached and sees the cookie; every other path reaches the failure exit |
| CookieWait.LargerBudgetKeepsEarlyEnd | auth.ts:63-75 | a run that ended by success or by an abort ends the same way with any larger budget |
| CookieWait.WaitForCookieNamedLoop | auth.ts:63-81 | the `for` loop with its `return` and `break` reaches the same end as the protocol, and starts navigation waits on attempts 1, 2, ... in order, never more than the budget |
| Credentials.SelectCredentials | auth.ts:17-27 | both positional arguments are used whenever present, even over a complete environment; otherwise both environment variables; the configuration error exactly when neither pair is complete |
| Auth.SignIn | auth.ts:13-61 | a run ends with the code-less exit exactly when credentials are missing, and then launches no browser; every save comes straight after a navigation wait whose attempt saw `vsid` |
| Auth.PersistedIffSessionFound | auth.ts:42-58 | cookies are saved exactly when credentials were found, the form was submitted, the cookie wait saw `vsid`, and the save's own cookie read and write did not throw |
| Auth.SaveFollowsSighting | auth.ts:51-53 | the save comes right after the navigation wait whose attempt saw `vsid`, and writes what the save's own cookie read returned |
| Auth.SavedCookiesReadBack | auth.ts:83-88 | reading back the saved cookies succeeds exactly when they hold a `vsid` cookie, and yields the first one with its value unchanged; it succeeds whenever the cookies did not change between the sighting and the save |
| Auth.NavWaitsBounded | auth.ts:49-51 | a run makes at most 5 navigation waits, numbered 1, 2, ... in order |
| Auth.SubmitPrecedesWaits | auth.ts:49-51 | every navigation wait of a run comes after a `Submit` action, and only runs whose form actions all succeeded wait at all |
| Auth.TypesSelectedCredentials | auth.ts:17-47 | what is typed into the login form is the selected username and password, the positional arguments when both are given |
| Auth.FailureStatusIff | auth.ts:24-80 | the process reports status 1 exactly when the portal did not load or the cookie wait failed after submission; missing credentials, a failing form and a throwing save end with status 0 |

## Left out

- Puppeteer's page operations (`goto`, `waitForSelector`, `type`, `click`, `waitForNavigation` with `networkidle0`, `cookies`) are foreign calls; only whether each succeeds, and what the cookie reads return, is part of the browser parameter. Their 10 s and 15 s timeouts are only visible as a throw.
- `getBrowser` (process launch, the `arm` branch) and `newPage` are one `LaunchBrowser` action that is assumed to succeed; `browser.close` is assumed to succeed too.
- File I/O and JSON encoding in `saveCookies` and `readCookies`: the saved file is the cookie sequence itself, and `readCookies` works on the already-parsed sequence; a malformed file is not modelled.
- Auth.SavedCookiesReadBack: assumes `readCookies` reads the file `saveCookies` wrote. The source writes `cookies.json` in the parent of the script's directory (auth.ts:85) but reads `./cookies.json` relative to the working directory (src/util/util.ts:7), so the two meet only when the reader runs in that parent directory.
- Cookie attributes other than name and value (domain, path, expiry, ...) are not modelled.
- `saveErrorScreenshot` and `open` are one `Screenshot` action; their own failures are not modelled.
- Logging (src/util/log.ts and every `log` call), `dotenv` and `settings.json` carry no logic and are left out.
- Process exit is a tag on the run (`ExitDefault`, `ExitFailure`, `Completed`) rather than a termination.
- CookieWait.WaitForCookieNamed: the budget is a natural number; a negative budget behaves like 0 in the source and a fractional one is not modelled.

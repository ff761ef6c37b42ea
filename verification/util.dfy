/** The helpers of src/util/util.ts that carry logic: reading back the saved session cookie and `isNumeric`. */
module Util {
  import opened Js
  import opened Cookies

  /** Name of the session cookie whose presence confirms a sign-in. */
  const SessionCookieName: string := "vsid"

  /** The error `readCookies` throws when the saved file holds no session cookie. */
  datatype ReadError = NoVsidCookie

  /**
   * `readCookies` over the already-parsed contents of the cookie file: the first
   * cookie named `vsid`, alone in a list, or the "No vsid cookie found" error.
   */
  function ReadCookies(cookies: seq<Cookie>): (r: Completion<seq<Cookie>, ReadError>)
    ensures r.Threw? <==> !HasCookieNamed(cookies, SessionCookieName)
    ensures r.Returned? ==> |r.value| == 1
    ensures r.Returned? ==> exists k :: IsFirstNamed(cookies, SessionCookieName, k) && r.value[0] == cookies[k]
  {
    match FirstIndexNamed(cookies, SessionCookieName)
    case Undefined => Threw(NoVsidCookie)
    case Defined(k) => Returned([cookies[k]])
  }

  /** Numbers as JavaScript's `Number.isNaN` distinguishes them. */
  datatype Number = NaN | PositiveInfinity | NegativeInfinity | Finite(v: real)

  /** A JavaScript value of the two types `isNumeric` can be handed. */
  datatype JsValue = JsString(s: string) | JsNumber(n: Number)

  /** `Number.isNaN`: true only of the number NaN, never of a value of another type. */
  predicate NumberIsNaN(v: JsValue)
  {
    v.JsNumber? && v.n.NaN?
  }

  /**
   * `isNumeric(num)` as written: it asks `Number.isNaN` about a string, which is
   * never the number NaN, so every string is called numeric.
   */
  function IsNumeric(num: string): (r: bool)
    ensures r
  {
    !NumberIsNaN(JsString(num))
  }
}

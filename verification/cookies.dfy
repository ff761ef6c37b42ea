/** Browser cookies as the sign-in flow sees them, and searches by cookie name. */
module Cookies {
  import opened Js

  /** A cookie of the browser session; only the name and the value matter to the flow. */
  datatype Cookie = Cookie(name: string, value: string)

  /** Some cookie of `jar` is named exactly `name` (JavaScript `===` on strings). */
  predicate HasCookieNamed(jar: seq<Cookie>, name: string)
  {
    exists k :: 0 <= k < |jar| && jar[k].name == name
  }

  /** `k` is the position of the first cookie of `jar` named `name`. */
  predicate IsFirstNamed(jar: seq<Cookie>, name: string, k: int)
  {
    && 0 <= k < |jar|
    && jar[k].name == name
    && forall j :: 0 <= j < k ==> jar[j].name != name
  }

  /** The position `Array.prototype.find` stops at when looking for `name`, if any. */
  function FirstIndexNamed(jar: seq<Cookie>, name: string): (r: Maybe<nat>)
    ensures r.Undefined? <==> !HasCookieNamed(jar, name)
    ensures r.Defined? ==> IsFirstNamed(jar, name, r.value)
  {
    if |jar| == 0 then Undefined
    else if jar[0].name == name then Defined(0)
    else
      match FirstIndexNamed(jar[1..], name)
      case Undefined => Undefined
      case Defined(k) => Defined(k + 1)
  }

  /** `cookies.some(cookie => cookie.name === name)`, scanning left to right. */
  method SomeNamed(jar: seq<Cookie>, name: string) returns (found: bool)
    ensures found <==> HasCookieNamed(jar, name)
  {
    var i := 0;
    while i < |jar|
      invariant 0 <= i <= |jar|
      invariant forall j :: 0 <= j < i ==> jar[j].name != name
    {
      if jar[i].name == name {
        return true;
      }
      i := i + 1;
    }
    return false;
  }
}

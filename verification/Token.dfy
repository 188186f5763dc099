/**
 The signing token of the MTop client and its lifecycle counter.

 Every change of token, cookie and time goes through two operations, and each
 of them advances the generation.
 */
module Token {
  import opened Basics
  import opened Text

  const TOKEN_TTL: real := 3600.0

  datatype TokenState = TokenState(token: string, cookie: Option<string>, time: real, generation: nat)

  const NO_TOKEN := TokenState("", None, 0.0, 0)

  predicate Alphanumeric(s: string) {
    forall c <- s :: 'A' <= c <= 'Z' || 'a' <= c <= 'z' || '0' <= c <= '9'
  }

  predicate Digits(s: string) {
    forall c <- s :: '0' <= c <= '9'
  }

  /** The token part of `<token>_<timestamp>`, when the whole cookie has that form. */
  function ParseCookie(cookie: Option<string>): (token: Option<string>)
    ensures token.Some? ==> token.value != ""
  {
    if cookie.None? then None
    else
      var v := cookie.value;
      var k := IndexOf(v, '_', 0);
      if 1 <= k <= 128 && k < |v| && Alphanumeric(v[..k]) && 10 <= |v| - k - 1 <= 16 && Digits(v[k + 1..])
      then Some(v[..k])
      else None
  }

  lemma CookieParses(token: string, stamp: string)
    requires Alphanumeric(token) && 1 <= |token| <= 128 && Digits(stamp) && 10 <= |stamp| <= 16
    ensures ParseCookie(Some(token + "_" + stamp)) == Some(token)
  {
    var v := token + "_" + stamp;
    assert forall i | 0 <= i < |token| :: v[i] == token[i] && token[i] in token;
    IndexOfIs(v, '_', 0, |token|);
    assert v[..|token|] == token && v[|token| + 1..] == stamp;
  }

  /**
   A cookie gives a token exactly when it is 1 to 128 letters and digits, an
   underscore and 10 to 16 digits, and then it gives that first part.
   */
  lemma CookieParsesExactly(cookie: string, token: string)
    ensures ParseCookie(Some(cookie)) == Some(token) <==>
      && 1 <= |token| <= 128 && |token| + 11 <= |cookie| <= |token| + 17
      && (forall c <- token :: 'A' <= c <= 'Z' || 'a' <= c <= 'z' || '0' <= c <= '9')
      && token + "_" <= cookie && forall k | |token| < k < |cookie| :: '0' <= cookie[k] <= '9'
  {
    if ParseCookie(Some(cookie)) == Some(token) {
      assert cookie[..|token| + 1] == token + "_";
      var stamp := cookie[|token| + 1..];
      assert forall k | |token| < k < |cookie| :: cookie[k] == stamp[k - |token| - 1] && stamp[k - |token| - 1] in stamp;
    }
    if |token| < |cookie| && token + "_" <= cookie {
      var stamp := cookie[|token| + 1..];
      assert cookie == token + "_" + stamp;
      assert forall k | 0 <= k < |stamp| :: stamp[k] == cookie[|token| + 1 + k];
      if 1 <= |token| <= 128 && 10 <= |stamp| <= 16 && Alphanumeric(token) && Digits(stamp) {
        CookieParses(token, stamp);
      }
    }
  }

  function SetCookie(t: TokenState, cookie: string, now: real): TokenState {
    match ParseCookie(Some(cookie))
    case None => t
    case Some(token) =>
      if token == t.token && t.cookie == Some(cookie) then t
      else TokenState(token, Some(cookie), now, t.generation + 1)
  }

  function ClearIfCurrent(t: TokenState, expected: nat): TokenState {
    if t.generation != expected then t else TokenState("", None, 0.0, t.generation + 1)
  }

  /** Keep a cookie read from the jar, unless the state moved on since `captured`. */
  function Import(t: TokenState, captured: nat, jar: Option<string>, now: real): TokenState {
    if ParseCookie(jar).Some? && t.generation == captured then SetCookie(t, jar.value, now) else t
  }

  predicate Expired(t: TokenState, now: real) {
    t.token == "" || now - t.time > TOKEN_TTL
  }

  /** Token and cookie always belong together. */
  predicate Coherent(t: TokenState) {
    ParseCookie(t.cookie) == if t.token == "" then None else Some(t.token)
  }

  class MTopClient {
    var token: string
    var tokenCookie: Option<string>
    var tokenTime: real
    var tokenGeneration: nat

    function View(): TokenState
      reads this
    {
      TokenState(token, tokenCookie, tokenTime, tokenGeneration)
    }

    constructor ()
      ensures View() == NO_TOKEN
    {
      token, tokenCookie, tokenTime, tokenGeneration := "", None, 0.0, 0;
    }

    method SetTokenCookie(cookie: string, now: real) returns (changed: bool)
      modifies this
      ensures View() == SetCookie(old(View()), cookie, now)
      ensures changed == (View().generation != old(View()).generation)
    {
      var parsed := ParseCookie(Some(cookie));
      if parsed.None? {
        return false;
      }
      if parsed.value == token && tokenCookie == Some(cookie) {
        return false;
      }
      token, tokenCookie, tokenTime := parsed.value, Some(cookie), now;
      tokenGeneration := tokenGeneration + 1;
      return true;
    }

    method ClearTokenIfCurrent(expected: nat) returns (cleared: bool)
      modifies this
      ensures View() == ClearIfCurrent(old(View()), expected)
      ensures cleared == (old(tokenGeneration) == expected)
    {
      if tokenGeneration != expected {
        return false;
      }
      token, tokenCookie, tokenTime := "", None, 0.0;
      tokenGeneration := tokenGeneration + 1;
      return true;
    }
  }
}

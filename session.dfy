/**
 The session gate run before every route: public paths pass, any other
 path needs a `siteis_token` cookie that the token verifier accepts, and
 everything else is redirected to the login page.
 */
module Session {
  import opened Http
  import opened Paths

  const TOKEN_COOKIE := "siteis_token"
  const LOGIN_PAGE := "/login.html"

  /** The claims a session token carries (the expiry is the verifier's business). */
  datatype Claims = Claims(id: int, email: string)

  /**
   The token library as a pair of functions: `sign` issues a token for the
   claims and `verify` says whether a token is accepted at the time of the
   request (signature intact and not expired).
   */
  datatype Jwt = Jwt(sign: Claims -> string, verify: string -> bool)

  /** A freshly signed token is a non-empty string that the verifier accepts. */
  ghost predicate Sound(jwt: Jwt) {
    forall c :: jwt.sign(c) != "" && jwt.verify(jwt.sign(c))
  }

  /** The gate's two outcomes: `next()` or `res.redirect(location)`. */
  datatype Verdict = Next | Redirect(location: string)

  /** `req.cookies && req.cookies['siteis_token']` is truthy. */
  predicate HasToken(cookies: Cookies) {
    TOKEN_COOKIE in cookies && cookies[TOKEN_COOKIE] != ""
  }

  /** A token is present and the verifier accepts it. */
  predicate HasSession(cookies: Cookies, jwt: Jwt) {
    HasToken(cookies) && jwt.verify(cookies[TOKEN_COOKIE])
  }

  /** The gate middleware's decision for one request. */
  function Gate(path: string, cookies: Cookies, jwt: Jwt): (v: Verdict)
    ensures v == Next || v == Redirect(LOGIN_PAGE)
  {
    if IsPublic(path) then Next
    else if !HasToken(cookies) then Redirect(LOGIN_PAGE)
    else if jwt.verify(cookies[TOKEN_COOKIE]) then Next
    else Redirect(LOGIN_PAGE)
  }

  /** A request passes exactly when its path is public or it carries a valid session. */
  lemma GatePassesIff(path: string, cookies: Cookies, jwt: Jwt)
    ensures Gate(path, cookies, jwt) == Next <==> IsPublic(path) || HasSession(cookies, jwt)
    ensures Gate(path, cookies, jwt) != Next <==> Gate(path, cookies, jwt) == Redirect(LOGIN_PAGE)
  {
  }

  /** A public path passes whatever the cookies say. */
  lemma PublicPathPasses(path: string, cookies: Cookies, jwt: Jwt)
    requires IsPublic(path)
    ensures Gate(path, cookies, jwt) == Next
  {
  }

  /** A protected path without the cookie, or with an empty one, goes to the login page. */
  lemma MissingTokenRedirects(path: string, cookies: Cookies, jwt: Jwt)
    requires !IsPublic(path)
    requires TOKEN_COOKIE !in cookies || cookies[TOKEN_COOKIE] == ""
    ensures Gate(path, cookies, jwt) == Redirect(LOGIN_PAGE)
  {
  }

  /** A protected path whose token fails verification goes to the same place. */
  lemma RejectedTokenRedirects(path: string, cookies: Cookies, jwt: Jwt)
    requires !IsPublic(path)
    requires TOKEN_COOKIE in cookies && !jwt.verify(cookies[TOKEN_COOKIE])
    ensures Gate(path, cookies, jwt) == Redirect(LOGIN_PAGE)
  {
  }

  /** A protected path with a token the verifier accepts passes. */
  lemma ValidTokenPasses(path: string, cookies: Cookies, jwt: Jwt)
    requires TOKEN_COOKIE in cookies && cookies[TOKEN_COOKIE] != ""
    requires jwt.verify(cookies[TOKEN_COOKIE])
    ensures Gate(path, cookies, jwt) == Next
  {
  }

  /** The query string never changes the verdict. */
  lemma GateIgnoresQuery(p: string, q: string, cookies: Cookies, jwt: Jwt)
    requires '?' !in p
    ensures Gate(p + "?" + q, cookies, jwt) == Gate(p, cookies, jwt)
  {
    QueryStringIgnored(p, q);
  }

  /** `/logout` itself sits behind the gate: without a valid session it redirects. */
  lemma LogoutNeedsSession(cookies: Cookies, jwt: Jwt)
    requires !HasSession(cookies, jwt)
    ensures Gate("/logout", cookies, jwt) == Redirect(LOGIN_PAGE)
  {
    LogoutIsProtected();
  }

  /** The `/`, `/dashboard` scenario: no cookie redirects, a rejected (expired) token redirects. */
  lemma DashboardScenario(jwt: Jwt, stale: string)
    requires !jwt.verify(stale)
    ensures Gate("/dashboard", map[], jwt) == Redirect(LOGIN_PAGE)
    ensures Gate("/dashboard", map[TOKEN_COOKIE := stale], jwt) == Redirect(LOGIN_PAGE)
    ensures Gate("/", map[], jwt) == Redirect(LOGIN_PAGE)
  {
    UnlistedPageIsProtected();
    RootIsProtected();
  }
}

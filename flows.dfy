/**
 Properties that span several requests: registering and then logging in,
 the session cookie that login sets and logout clears, and the routes the
 gate must never block.
 */
module Flows {
  import opened Text
  import opened Http
  import opened Paths
  import opened Session
  import opened Users

  /**
   After a successful registration, logging in with the same password and the
   email in any letter case succeeds, answers with the new record minus its
   hash and sets a session token for its id and lower-cased email.
   */
  lemma {:induction false} RegisterThenLogin(users: seq<User>, form: RegisterForm, disk: Disk,
                                             now: int, isoTime: string, salt: string,
                                             bcrypt: Bcrypt, jwt: Jwt, login: LoginForm)
    requires RoundTrips(bcrypt)
    requires RegisterOutcome(users, form, disk, now, isoTime, salt, bcrypt).response.status == 200
    requires LoginComplete(login) && login.password == form.password
    requires Lower(login.email.value) == Lower(form.email.value)
    ensures var after := RegisterOutcome(users, form, disk, now, isoTime, salt, bcrypt).state;
      var email := Lower(form.email.value);
      LoginOutcome(after, login, true, bcrypt, jwt) ==
        Response(200, UserJson(PublicUser(now, form.name.value, email, isoTime)),
                 SetCookie(TOKEN_COOKIE, jwt.sign(Claims(now, email))))
  {
    var after := RegisterOutcome(users, form, disk, now, isoTime, salt, bcrypt).state;
    var u := NewUser(form, now, isoTime, salt, bcrypt);
    assert after == users + [u];
    LowerIdempotent(form.email.value);
    forall j | 0 <= j < |users| ensures !SameEmail(after[j], login.email.value) {
      assert !SameEmail(users[j], form.email.value);
    }
    assert FirstMatch(after, login.email.value, |users|);
    assert FindByEmail(after, login.email.value) == Some(|users|);
  }

  /** The scenario of registering `Ana@x.com` and logging in as `ana@x.com`. */
  lemma AnaScenario(now: int, isoTime: string, salt: string, bcrypt: Bcrypt, jwt: Jwt)
    requires RoundTrips(bcrypt)
    ensures var reg := RegisterForm(Some("Ana"), Some("Ana@x.com"), Some("pw"));
      var h := RegisterOutcome([], reg, Disk(true, true), now, isoTime, salt, bcrypt);
      var r := LoginOutcome(h.state, LoginForm(Some("ana@x.com"), Some("pw")), true, bcrypt, jwt);
      h.response.status == 200 && r.status == 200 && r.cookie.SetCookie? && r.cookie.name == TOKEN_COOKIE
  {
    var reg := RegisterForm(Some("Ana"), Some("Ana@x.com"), Some("pw"));
    var login := LoginForm(Some("ana@x.com"), Some("pw"));
    LowerAppend("A", "na@x.com");
    LowerAppend("a", "na@x.com");
    assert "Ana@x.com" == "A" + "na@x.com" && "ana@x.com" == "a" + "na@x.com";
    RegisterSuccessIff([], reg, Disk(true, true), now, isoTime, salt, bcrypt);
    RegisterThenLogin([], reg, Disk(true, true), now, isoTime, salt, bcrypt, jwt, login);
  }

  /** The cookie a successful login sets opens every path to the gate. */
  lemma LoginOpensSession(users: seq<User>, form: LoginForm, readOk: bool, bcrypt: Bcrypt, jwt: Jwt,
                          jar: Cookies, path: string)
    requires Sound(jwt)
    requires LoginOutcome(users, form, readOk, bcrypt, jwt).status == 200
    ensures Gate(path, ApplyCookie(jar, LoginOutcome(users, form, readOk, bcrypt, jwt).cookie), jwt) == Next
  {
    var k := FindByEmail(users, form.email.value).value;
    var token := jwt.sign(Claims(users[k].id, users[k].email));
    assert LoginOutcome(users, form, readOk, bcrypt, jwt).cookie == SetCookie(TOKEN_COOKIE, token);
  }

  /** Logout answers `{ ok: true }` and afterwards every protected path redirects to login. */
  lemma LogoutEndsSession(jar: Cookies, jwt: Jwt, path: string)
    requires !IsPublic(path)
    ensures Logout().status == 200 && Logout().body == OkJson
    ensures Gate(path, ApplyCookie(jar, Logout().cookie), jwt) == Redirect(LOGIN_PAGE)
  {
  }

  /** Logging out twice leaves the same cookies as logging out once. */
  lemma LogoutIdempotent(jar: Cookies)
    ensures ApplyCookie(ApplyCookie(jar, Logout().cookie), Logout().cookie) == ApplyCookie(jar, Logout().cookie)
  {
  }

  /**
   The login page the gate redirects to, and the login, registration and
   contact endpoints, are reachable without a session.
   */
  lemma AuthRoutesNeverBlocked(jar: Cookies, jwt: Jwt)
    ensures Gate(LOGIN_PAGE, jar, jwt) == Next
    ensures Gate("/login", jar, jwt) == Next
    ensures Gate("/register", jar, jwt) == Next
    ensures Gate("/contact", jar, jwt) == Next
  {
    AllowlistIsPublic(LOGIN_PAGE);
    AllowlistIsPublic("/login");
    AllowlistIsPublic("/register");
    AllowlistIsPublic("/contact");
  }

  /** The hypotheses on the crypto functions can be met, so the lemmas above are not vacuous. */
  lemma CryptoHypothesesSatisfiable()
    ensures RoundTrips(Bcrypt((pw: string, salt: string) => salt + pw, (pw: string, h: string) => |pw| <= |h| && h[|h| - |pw|..] == pw))
    ensures Sound(Jwt((c: Claims) => "token", (t: string) => t == "token"))
  {
  }
}

/**
 The user store behind `/register` and `/login`: a collection of user
 records that each request reads whole, changes in memory and writes back
 whole. Emails are matched without regard to ASCII letter case.
 */
module Users {
  import opened Text
  import opened Http
  import opened Session

  /** A stored user record, as kept in the users file. A missing hash is read as "". */
  datatype User = User(id: int, name: string, email: string, passwordHash: string, createdAt: string)

  /** `const { passwordHash, ...safe } = user`. */
  function Strip(u: User): PublicUser {
    PublicUser(u.id, u.name, u.email, u.createdAt)
  }

  /** bcrypt as a pair of functions: `hash(password, salt)` and `compare(password, hash)`. */
  datatype Bcrypt = Bcrypt(hash: (string, string) -> string, compare: (string, string) -> bool)

  /** A hash always matches the password it was made from. */
  ghost predicate RoundTrips(bcrypt: Bcrypt) {
    forall pw, salt :: bcrypt.compare(pw, bcrypt.hash(pw, salt))
  }

  /** Whether this request's read and write of the users file succeed. */
  datatype Disk = Disk(readOk: bool, writeOk: bool)

  /** Request bodies; a field the client did not send is `None`. */
  datatype RegisterForm = RegisterForm(name: Option<string>, email: Option<string>, password: Option<string>)
  datatype LoginForm = LoginForm(email: Option<string>, password: Option<string>)

  /** A request field is truthy: sent and not empty. */
  predicate Given(field: Option<string>) {
    field.Some? && field.value != ""
  }

  predicate RegisterComplete(form: RegisterForm) {
    Given(form.name) && Given(form.email) && Given(form.password)
  }

  predicate LoginComplete(form: LoginForm) {
    Given(form.email) && Given(form.password)
  }

  const MISSING_FIELDS := "Campos faltando"
  const INTERNAL_ERROR := "Erro interno"
  const EMAIL_TAKEN := "Email já cadastrado"
  const SAVE_USER_FAILED := "Não foi possível salvar usuário"
  const INVALID_CREDENTIALS := "Credenciais inválidas"

  /** `u.email && u.email.toLowerCase() === email.toLowerCase()`. */
  predicate SameEmail(u: User, email: string)
    ensures SameEmail(u, email) ==> email != "" && |email| == |u.email|
  {
    u.email != "" && Lower(u.email) == Lower(email)
  }

  /** The scan behind `users.find(...)`: the first match at or after `from`, if any. */
  function FindFrom(users: seq<User>, email: string, from: nat): (r: Option<nat>)
    requires from <= |users|
    ensures r.Some? ==> from <= r.value < |users| && SameEmail(users[r.value], email)
    ensures r.Some? ==> forall j :: from <= j < r.value ==> !SameEmail(users[j], email)
    ensures r.None? <==> forall j :: from <= j < |users| ==> !SameEmail(users[j], email)
    decreases |users| - from
  {
    if from == |users| then None
    else if SameEmail(users[from], email) then Some(from)
    else FindFrom(users, email, from + 1)
  }

  /** `users.find(...)` on the email test: the index of the first match, if any. */
  function FindByEmail(users: seq<User>, email: string): (r: Option<nat>)
    ensures r.Some? ==> r.value < |users| && SameEmail(users[r.value], email)
    ensures r.Some? ==> forall j :: 0 <= j < r.value ==> !SameEmail(users[j], email)
    ensures r.None? <==> forall j :: 0 <= j < |users| ==> !SameEmail(users[j], email)
  {
    FindFrom(users, email, 0)
  }

  /** No two records share an email, ignoring ASCII case. */
  ghost predicate EmailKeysUnique(users: seq<User>) {
    forall i, j :: 0 <= i < j < |users| ==> !SameEmail(users[j], users[i].email)
  }

  /** Every stored email is in lower case. */
  ghost predicate EmailsLowerCase(users: seq<User>) {
    forall i :: 0 <= i < |users| ==> IsLower(users[i].email)
  }

  /** The record `/register` builds from a complete form. */
  function NewUser(form: RegisterForm, now: int, isoTime: string, salt: string, bcrypt: Bcrypt): (u: User)
    requires RegisterComplete(form)
    ensures IsLower(u.email) && SameEmail(u, form.email.value)
  {
    LowerIsLower(form.email.value);
    LowerIdempotent(form.email.value);
    User(now, form.name.value, Lower(form.email.value), bcrypt.hash(form.password.value, salt), isoTime)
  }

  /** What `/register` answers and the users file it leaves behind. */
  function RegisterOutcome(users: seq<User>, form: RegisterForm, disk: Disk,
                           now: int, isoTime: string, salt: string, bcrypt: Bcrypt): (r: Handled<seq<User>>)
    ensures r.response.status == 200 <==> r.state != users
    ensures r.state != users ==> RegisterComplete(form) && r.state == users + [NewUser(form, now, isoTime, salt, bcrypt)]
  {
    if !RegisterComplete(form) then Handled(ErrorResponse(400, MISSING_FIELDS), users)
    else if !disk.readOk then Handled(ErrorResponse(500, INTERNAL_ERROR), users)
    else if FindByEmail(users, form.email.value).Some? then Handled(ErrorResponse(409, EMAIL_TAKEN), users)
    else if !disk.writeOk then Handled(ErrorResponse(500, SAVE_USER_FAILED), users)
    else
      var u := NewUser(form, now, isoTime, salt, bcrypt);
      Handled(Response(200, UserJson(Strip(u)), KeepCookies), users + [u])
  }

  /** What `/login` answers for the users file as it stands. */
  function LoginOutcome(users: seq<User>, form: LoginForm, readOk: bool, bcrypt: Bcrypt, jwt: Jwt): (r: Response)
    ensures r.status == 200 ==> r.body.UserJson? && r.cookie.SetCookie? && r.cookie.name == TOKEN_COOKIE
    ensures r.status != 200 ==> r.body.ErrorJson? && r.cookie == KeepCookies
  {
    if !LoginComplete(form) then ErrorResponse(400, MISSING_FIELDS)
    else if !readOk then ErrorResponse(500, INTERNAL_ERROR)
    else match FindByEmail(users, form.email.value)
      case None => ErrorResponse(401, INVALID_CREDENTIALS)
      case Some(k) =>
        var u := users[k];
        if !bcrypt.compare(form.password.value, u.passwordHash) then ErrorResponse(401, INVALID_CREDENTIALS)
        else Response(200, UserJson(Strip(u)), SetCookie(TOKEN_COOKIE, jwt.sign(Claims(u.id, u.email))))
  }

  /** `/logout`: clear the session cookie and report success. */
  function Logout(): (r: Response)
    ensures r.status == 200 && r.body == OkJson
    ensures forall jar :: TOKEN_COOKIE !in ApplyCookie(jar, r.cookie)
    ensures forall jar, n :: n in jar && n != TOKEN_COOKIE ==> n in ApplyCookie(jar, r.cookie) && ApplyCookie(jar, r.cookie)[n] == jar[n]
  {
    Response(200, OkJson, ClearCookie(TOKEN_COOKIE))
  }

  // ---------------------------------------------------------------------
  // Register

  /** 400 comes exactly from a missing or empty field, before the file is read, and changes nothing. */
  lemma RegisterBadRequestIff(users: seq<User>, form: RegisterForm, disk: Disk,
                              now: int, isoTime: string, salt: string, bcrypt: Bcrypt)
    ensures var h := RegisterOutcome(users, form, disk, now, isoTime, salt, bcrypt);
      (h.response.status == 400 <==> !RegisterComplete(form)) &&
      (h.response.status == 400 ==> h.response == ErrorResponse(400, MISSING_FIELDS) && h.state == users)
  {
  }

  /** 409 comes exactly from an email already stored under some letter case, and changes nothing. */
  lemma RegisterConflictIff(users: seq<User>, form: RegisterForm, disk: Disk,
                            now: int, isoTime: string, salt: string, bcrypt: Bcrypt)
    ensures var h := RegisterOutcome(users, form, disk, now, isoTime, salt, bcrypt);
      (h.response.status == 409 <==>
        RegisterComplete(form) && disk.readOk &&
        exists i :: 0 <= i < |users| && SameEmail(users[i], form.email.value)) &&
      (h.response.status == 409 ==> h.response == ErrorResponse(409, EMAIL_TAKEN) && h.state == users)
  {
  }

  /** A failed read or write answers 500 and leaves the users file as it was. */
  lemma RegisterStoreFailure(users: seq<User>, form: RegisterForm, disk: Disk,
                             now: int, isoTime: string, salt: string, bcrypt: Bcrypt)
    requires RegisterComplete(form)
    requires !disk.readOk || (!disk.writeOk && FindByEmail(users, form.email.value).None?)
    ensures var h := RegisterOutcome(users, form, disk, now, isoTime, salt, bcrypt);
      h.response.status == 500 && h.response.body.ErrorJson? && h.state == users
  {
  }

  /** Only a success changes the users file; every answer is one of 200, 400, 409, 500. */
  lemma RegisterFailureKeepsStore(users: seq<User>, form: RegisterForm, disk: Disk,
                                  now: int, isoTime: string, salt: string, bcrypt: Bcrypt)
    ensures var h := RegisterOutcome(users, form, disk, now, isoTime, salt, bcrypt);
      h.response.status in {200, 400, 409, 500} &&
      (h.response.status != 200 ==> h.state == users && h.response.body.ErrorJson?)
  {
  }

  /**
   A success happens exactly when the form is complete, both file operations
   succeed and the email is new; it appends one record, keeps the earlier ones,
   stores the email lower-cased, and answers with the record minus its hash.
   */
  lemma RegisterSuccessIff(users: seq<User>, form: RegisterForm, disk: Disk,
                           now: int, isoTime: string, salt: string, bcrypt: Bcrypt)
    ensures var h := RegisterOutcome(users, form, disk, now, isoTime, salt, bcrypt);
      h.response.status == 200 <==>
        RegisterComplete(form) && disk.readOk && disk.writeOk &&
        forall i :: 0 <= i < |users| ==> !SameEmail(users[i], form.email.value)
    ensures var h := RegisterOutcome(users, form, disk, now, isoTime, salt, bcrypt);
      h.response.status == 200 ==>
        |h.state| == |users| + 1 && h.state[..|users|] == users &&
        var u := h.state[|users|];
        u.id == now && u.name == form.name.value && u.email == Lower(form.email.value) &&
        IsLower(u.email) && u.createdAt == isoTime &&
        u.passwordHash == bcrypt.hash(form.password.value, salt) &&
        h.response == Response(200, UserJson(PublicUser(now, form.name.value, u.email, isoTime)), KeepCookies)
  {
    var h := RegisterOutcome(users, form, disk, now, isoTime, salt, bcrypt);
    if h.response.status == 200 {
      LowerIsLower(form.email.value);
      assert h.state == users + [NewUser(form, now, isoTime, salt, bcrypt)];
    }
  }

  /** Registering keeps emails unique up to case. */
  lemma {:induction false} RegisterPreservesUniqueness(users: seq<User>, form: RegisterForm, disk: Disk,
                                    now: int, isoTime: string, salt: string, bcrypt: Bcrypt)
    requires EmailKeysUnique(users)
    ensures EmailKeysUnique(RegisterOutcome(users, form, disk, now, isoTime, salt, bcrypt).state)
  {
    var h := RegisterOutcome(users, form, disk, now, isoTime, salt, bcrypt);
    if h.state != users {
      var email := form.email.value;
      var u := NewUser(form, now, isoTime, salt, bcrypt);
      assert h.state == users + [u];
      LowerIdempotent(email);
      forall i, j | 0 <= i < j < |h.state| ensures !SameEmail(h.state[j], h.state[i].email) {
        if j == |users| {
          assert !SameEmail(users[i], email);
        }
      }
    }
  }

  /** Registering keeps every stored email in lower case. */
  lemma RegisterPreservesLowerCase(users: seq<User>, form: RegisterForm, disk: Disk,
                                   now: int, isoTime: string, salt: string, bcrypt: Bcrypt)
    requires EmailsLowerCase(users)
    ensures EmailsLowerCase(RegisterOutcome(users, form, disk, now, isoTime, salt, bcrypt).state)
  {
    if RegisterComplete(form) {
      LowerIsLower(form.email.value);
    }
  }

  /**
   Registering the same email twice, in any letter case, stores exactly one
   record: the second attempt answers 409 and changes nothing.
   */
  lemma {:induction false} RegisterTwiceConflicts(users: seq<User>, form: RegisterForm, again: RegisterForm, disk: Disk,
                                now: int, isoTime: string, salt: string, bcrypt: Bcrypt,
                                disk2: Disk, now2: int, isoTime2: string, salt2: string)
    requires RegisterOutcome(users, form, disk, now, isoTime, salt, bcrypt).response.status == 200
    requires RegisterComplete(again) && disk2.readOk
    requires Lower(again.email.value) == Lower(form.email.value)
    ensures var after := RegisterOutcome(users, form, disk, now, isoTime, salt, bcrypt).state;
      var h := RegisterOutcome(after, again, disk2, now2, isoTime2, salt2, bcrypt);
      h.response == ErrorResponse(409, EMAIL_TAKEN) && h.state == after &&
      |after| == |users| + 1 &&
      forall i :: 0 <= i < |after| && SameEmail(after[i], again.email.value) ==> i == |users|
  {
    var after := RegisterOutcome(users, form, disk, now, isoTime, salt, bcrypt).state;
    var u := NewUser(form, now, isoTime, salt, bcrypt);
    assert after == users + [u];
    LowerIdempotent(form.email.value);
    assert SameEmail(after[|users|], again.email.value);
    forall i | 0 <= i < |users| ensures !SameEmail(after[i], again.email.value) {
      assert !SameEmail(users[i], form.email.value);
    }
  }

  // ---------------------------------------------------------------------
  // Login

  /** Login's 400 and 500 answers, which come before any lookup. */
  lemma LoginEarlyErrors(users: seq<User>, form: LoginForm, readOk: bool, bcrypt: Bcrypt, jwt: Jwt)
    ensures var r := LoginOutcome(users, form, readOk, bcrypt, jwt);
      (r.status == 400 <==> !LoginComplete(form)) &&
      (r.status == 500 <==> LoginComplete(form) && !readOk) &&
      r.status in {200, 400, 401, 500}
  {
  }

  /** An unknown email answers 401 "Credenciais inválidas". */
  lemma LoginUnknownEmail(users: seq<User>, form: LoginForm, bcrypt: Bcrypt, jwt: Jwt)
    requires LoginComplete(form)
    requires forall i :: 0 <= i < |users| ==> !SameEmail(users[i], form.email.value)
    ensures LoginOutcome(users, form, true, bcrypt, jwt) == ErrorResponse(401, INVALID_CREDENTIALS)
  {
  }

  /** A known email with the wrong password gets the identical 401 answer. */
  lemma LoginWrongPassword(users: seq<User>, form: LoginForm, bcrypt: Bcrypt, jwt: Jwt, k: nat)
    requires LoginComplete(form)
    requires k < |users| && SameEmail(users[k], form.email.value)
    requires forall j :: 0 <= j < k ==> !SameEmail(users[j], form.email.value)
    requires !bcrypt.compare(form.password.value, users[k].passwordHash)
    ensures LoginOutcome(users, form, true, bcrypt, jwt) == ErrorResponse(401, INVALID_CREDENTIALS)
  {
    assert FindByEmail(users, form.email.value) == Some(k);
  }

  /** The first record, in file order, whose email matches `email` ignoring case. */
  predicate FirstMatch(users: seq<User>, email: string, k: int) {
    0 <= k < |users| && SameEmail(users[k], email) &&
    forall j :: 0 <= j < k ==> !SameEmail(users[j], email)
  }

  /**
   Login succeeds exactly when the first record whose email matches, ignoring
   case, accepts the password.
   */
  lemma LoginSuccessIff(users: seq<User>, form: LoginForm, readOk: bool, bcrypt: Bcrypt, jwt: Jwt)
    ensures LoginOutcome(users, form, readOk, bcrypt, jwt).status == 200 <==>
      LoginComplete(form) && readOk &&
      exists k :: FirstMatch(users, form.email.value, k) && bcrypt.compare(form.password.value, users[k].passwordHash)
  {
    if LoginComplete(form) && readOk {
      var email := form.email.value;
      var found := FindByEmail(users, email);
      forall k | FirstMatch(users, email, k) ensures found == Some(k) {
      }
      if found.Some? {
        assert FirstMatch(users, email, found.value);
      }
    }
  }

  /**
   A successful login answers with the matching record minus its hash and sets
   the session cookie to a token for that record's id and stored email.
   */
  lemma LoginSuccessAnswer(users: seq<User>, form: LoginForm, readOk: bool, bcrypt: Bcrypt, jwt: Jwt, k: nat)
    requires LoginOutcome(users, form, readOk, bcrypt, jwt).status == 200
    requires FirstMatch(users, form.email.value, k)
    ensures var r := LoginOutcome(users, form, readOk, bcrypt, jwt);
      r.body == UserJson(PublicUser(users[k].id, users[k].name, users[k].email, users[k].createdAt)) &&
      r.cookie == SetCookie(TOKEN_COOKIE, jwt.sign(Claims(users[k].id, users[k].email)))
  {
    assert FindByEmail(users, form.email.value) == Some(k);
  }

  /** Every 401 carries the same body, and only a success touches the cookies. */
  lemma LoginRejectionsUniform(users: seq<User>, form: LoginForm, readOk: bool, bcrypt: Bcrypt, jwt: Jwt)
    ensures var r := LoginOutcome(users, form, readOk, bcrypt, jwt);
      (r.status == 401 ==> r == ErrorResponse(401, INVALID_CREDENTIALS)) &&
      (r.status != 200 ==> r.cookie == KeepCookies && r.body.ErrorJson?)
  {
  }

  /** Under the store invariant at most one record matches a given email. */
  lemma UniqueEmailMatch(users: seq<User>, email: string, i: nat, j: nat)
    requires EmailKeysUnique(users)
    requires i < |users| && SameEmail(users[i], email)
    requires j < |users| && SameEmail(users[j], email)
    ensures i == j
  {
  }

  /**
   With emails unique up to case, the record that matches is the one login
   checks: login succeeds exactly when that record accepts the password.
   */
  lemma LoginChecksTheMatch(users: seq<User>, form: LoginForm, bcrypt: Bcrypt, jwt: Jwt, k: nat)
    requires EmailKeysUnique(users) && LoginComplete(form)
    requires k < |users| && SameEmail(users[k], form.email.value)
    ensures FirstMatch(users, form.email.value, k)
    ensures LoginOutcome(users, form, true, bcrypt, jwt).status == 200 <==>
      bcrypt.compare(form.password.value, users[k].passwordHash)
  {
  }

  // ---------------------------------------------------------------------
  // The store as the handlers change it

  /** The users file: read whole at the start of a request, rewritten whole on a change. */
  class UserStore {
    var users: seq<User>

    constructor (persisted: seq<User>)
      ensures users == persisted
    {
      users := persisted;
    }

    /** The store invariant: no email is stored twice, ignoring case. */
    ghost predicate Valid()
      reads this
    {
      EmailKeysUnique(users)
    }

    /** `POST /register`. */
    method Register(form: RegisterForm, disk: Disk, now: int, isoTime: string, salt: string, bcrypt: Bcrypt)
      returns (resp: Response)
      modifies this
      ensures Handled(resp, users) == RegisterOutcome(old(users), form, disk, now, isoTime, salt, bcrypt)
      ensures resp.status != 200 ==> users == old(users)
      ensures old(Valid()) ==> Valid()
    {
      if !(Given(form.name) && Given(form.email) && Given(form.password)) {
        return ErrorResponse(400, MISSING_FIELDS);
      }
      if !disk.readOk {
        return ErrorResponse(500, INTERNAL_ERROR);
      }
      var loaded := users;
      var email := form.email.value;
      var existing := FindByEmail(loaded, email);
      if existing.Some? {
        return ErrorResponse(409, EMAIL_TAKEN);
      }
      var hash := bcrypt.hash(form.password.value, salt);
      var newUser := User(now, form.name.value, Lower(email), hash, isoTime);
      loaded := loaded + [newUser];
      if !disk.writeOk {
        return ErrorResponse(500, SAVE_USER_FAILED);
      }
      ghost var before := users;
      users := loaded;
      resp := Response(200, UserJson(Strip(newUser)), KeepCookies);
      if EmailKeysUnique(before) {
        RegisterPreservesUniqueness(before, form, disk, now, isoTime, salt, bcrypt);
      }
    }

    /** `POST /login`: reads the store and answers; the cookie it sets is part of the answer. */
    method Login(form: LoginForm, readOk: bool, bcrypt: Bcrypt, jwt: Jwt) returns (resp: Response)
      ensures resp == LoginOutcome(users, form, readOk, bcrypt, jwt)
      ensures resp.status == 200 ==> resp.cookie.SetCookie? && resp.cookie.name == TOKEN_COOKIE
      ensures Valid() && LoginComplete(form) && readOk ==>
        forall k :: 0 <= k < |users| && SameEmail(users[k], form.email.value) ==>
          (resp.status == 200 <==> bcrypt.compare(form.password.value, users[k].passwordHash))
    {
      if Valid() && LoginComplete(form) {
        forall k | 0 <= k < |users| && SameEmail(users[k], form.email.value)
          ensures LoginOutcome(users, form, true, bcrypt, jwt).status == 200 <==>
            bcrypt.compare(form.password.value, users[k].passwordHash)
        {
          LoginChecksTheMatch(users, form, bcrypt, jwt, k);
        }
      }
      if !(Given(form.email) && Given(form.password)) {
        return ErrorResponse(400, MISSING_FIELDS);
      }
      if !readOk {
        return ErrorResponse(500, INTERNAL_ERROR);
      }
      var found := FindByEmail(users, form.email.value);
      if found.None? {
        return ErrorResponse(401, INVALID_CREDENTIALS);
      }
      var user := users[found.value];
      var ok := bcrypt.compare(form.password.value, user.passwordHash);
      if !ok {
        return ErrorResponse(401, INVALID_CREDENTIALS);
      }
      var token := jwt.sign(Claims(user.id, user.email));
      resp := Response(200, UserJson(Strip(user)), SetCookie(TOKEN_COOKIE, token));
    }
  }
}

/**
 The shapes the handlers answer with: a status code, a JSON body and what
 the response does to the client's cookies.
 */
module Http {

  datatype Option<T> = None | Some(value: T)

  /** A request's cookies as cookie-parser hands them over: name to value. */
  type Cookies = map<string, string>

  /** A user record as sent to the client: the stored record without its hash. */
  datatype PublicUser = PublicUser(id: int, name: string, email: string, createdAt: string)

  datatype Body =
    | ErrorJson(error: string)     // { error: <message> }
    | UserJson(user: PublicUser)   // { ok: true, user: <user> }
    | OkJson                       // { ok: true }
    | SavedJson                    // { status: 'ok', saved: true }

  datatype CookieAction =
    | KeepCookies
    | SetCookie(name: string, value: string)
    | ClearCookie(name: string)

  datatype Response = Response(status: int, body: Body, cookie: CookieAction)

  /** What a handler answers and the collection it leaves persisted. */
  datatype Handled<S> = Handled(response: Response, state: S)

  /** `res.status(code).json({ error: message })`. */
  function ErrorResponse(code: int, message: string): Response {
    Response(code, ErrorJson(message), KeepCookies)
  }

  /** The browser's cookie jar after it has processed a response. */
  function ApplyCookie(jar: Cookies, action: CookieAction): (after: Cookies)
    ensures action.SetCookie? ==> action.name in after && after[action.name] == action.value
    ensures action.ClearCookie? ==> action.name !in after
    ensures action.SetCookie? ==> after.Keys == jar.Keys + {action.name}
    ensures action.ClearCookie? ==> after.Keys == jar.Keys - {action.name}
    ensures forall n :: n in jar && (action.SetCookie? || action.ClearCookie?) && n != action.name ==> n in after && after[n] == jar[n]
    ensures action.KeepCookies? ==> after == jar
  {
    match action
    case KeepCookies => jar
    case SetCookie(n, v) => jar[n := v]
    case ClearCookie(n) => jar - {n}
  }
}

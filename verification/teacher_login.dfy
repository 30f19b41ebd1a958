/** The login endpoint (functions/teacher-login.js): password in, session cookie out. */
module TeacherLogin {
  import opened Wrappers
  import opened Strings
  import opened JsValue
  import opened Auth
  import opened Http

  /** The reply texts of the refusals. */
  const NotConfigured: string := "Server not configured"
  const BadRequest: string := "Bad request"
  const InvalidPassword: string := "Invalid password"

  /** The `{ ok: true }` body of a successful login. */
  datatype LoginOk = LoginOk

  /** `const { password } = JSON.parse(event.body || '{}')`: throws on bad JSON and on `null`. */
  function PasswordOf(pr: Primitives, body: Option<string>): Js<Option<Value>> {
    match DestructuredBody(pr, body)
    case Throws => Throws
    case Ok(v) => Ok(Prop(v, "password"))
  }

  /** The token a successful login at `now` issues. */
  function IssuedToken(pr: Primitives, secret: string, now: int): string {
    Sign(pr, map["role" := Str("teacher")], secret, now, Some(DefaultTtl))
  }

  /** The `Set-Cookie` value of a successful login. */
  function IssuedCookie(pr: Primitives, secret: string, now: int): string {
    TeacherCookie(CookieName, IssuedToken(pr, secret, now), None, Some(true), Some(DefaultTtl))
  }

  /**
   * The `try` block, once both configuration values are set: the password must be truthy and
   * equal to the configured one; only then is `cookie`, the session cookie, set.
   */
  function Login(pr: Primitives, body: Option<string>, teacherPassword: string, cookie: string): (r: Response<LoginOk>)
    requires teacherPassword != ""
    ensures PasswordOf(pr, body).Throws? ==> r == Reply(400, Text(BadRequest))
    ensures PasswordOf(pr, body).Ok? && PasswordOf(pr, body).value != Some(Str(teacherPassword)) ==>
      r == Reply(401, Text(InvalidPassword))
    ensures PasswordOf(pr, body).Ok? && PasswordOf(pr, body).value == Some(Str(teacherPassword)) ==>
      r == Response(200, Payload(LoginOk), Some(cookie))
    ensures r.Response? && (r.setCookie.Some? <==> r.status == 200)
  {
    match PasswordOf(pr, body)
    case Throws => Reply(400, Text(BadRequest))
    case Ok(pw) =>
      if !TruthyOpt(pw) || pw != Some(Str(teacherPassword)) then Reply(401, Text(InvalidPassword))
      else Response(200, Payload(LoginOk), Some(cookie))
  }

  /**
   * `handler(event)` with the two configuration values passed in. The configuration is checked
   * before the body is parsed; only a successful login sets a cookie.
   */
  function Handle(pr: Primitives, req: Request, teacherPassword: Option<string>, sessionSecret: Option<string>, now: int): (r: Response<LoginOk>)
    ensures req.httpMethod == "OPTIONS" ==> r == Reply(200, Text(""))
    ensures req.httpMethod != "OPTIONS" && req.httpMethod != "POST" ==> r == Reply(405, Text("Method Not Allowed"))
    ensures req.httpMethod == "POST" && !(Given(teacherPassword) && Given(sessionSecret)) ==>
      r == Reply(500, Text(NotConfigured))
    ensures req.httpMethod == "POST" && Given(teacherPassword) && Given(sessionSecret) ==>
      r == Login(pr, req.body, teacherPassword.value, IssuedCookie(pr, sessionSecret.value, now))
    ensures r.Response? && r.setCookie.Some? ==> r.status == 200
  {
    if req.httpMethod == "OPTIONS" then Reply(200, Text(""))
    else if req.httpMethod != "POST" then Reply(405, Text("Method Not Allowed"))
    else if !Given(teacherPassword) || !Given(sessionSecret) then Reply(500, Text(NotConfigured))
    else Login(pr, req.body, teacherPassword.value, IssuedCookie(pr, sessionSecret.value, now))
  }

  /** An empty or absent body parses as `{}`: no password, so the login is refused. */
  lemma EmptyBodyRefused(pr: Primitives, req: Request, teacherPassword: Option<string>, sessionSecret: Option<string>, now: int)
    requires Lawful(pr)
    requires req.httpMethod == "POST" && Given(teacherPassword) && Given(sessionSecret)
    requires req.body.None? || req.body == Some("")
    ensures Handle(pr, req, teacherPassword, sessionSecret, now) == Reply(401, Text(InvalidPassword))
  {
    assert PasswordOf(pr, req.body) == Ok(None);
  }

  /**
   * The cookie of a successful login lists `tc=<token>`, `Path=/`, `HttpOnly`, `SameSite=Lax`,
   * `Max-Age=28800`, `Secure`, and no `Domain`.
   */
  lemma IssuedCookieLayout(pr: Primitives, secret: string, now: int)
    ensures CookieEntries(IssuedCookie(pr, secret, now))
         == [CookieName + "=" + IssuedToken(pr, secret, now), "Path=/", "HttpOnly", "SameSite=Lax",
             "Max-Age=" + IntToString(DefaultTtl), "Secure"]
  {
    LoginCookieOfToken(IssuedToken(pr, secret, now));
  }

  /** The login cookie's entries for any token of the token alphabet. */
  lemma LoginCookieOfToken(token: string)
    requires TokenChars(token)
    ensures CookieEntries(TeacherCookie(CookieName, token, None, Some(true), Some(DefaultTtl)))
         == [CookieName + "=" + token, "Path=/", "HttpOnly", "SameSite=Lax", "Max-Age=" + IntToString(DefaultTtl), "Secure"]
  {
    assert ';' !in token by {
      assert TokenChars(token);
    }
    TeacherCookieLayout(CookieName, token, None, Some(true), Some(DefaultTtl));
    var head := [CookieName + "=" + token, "Path=/", "HttpOnly", "SameSite=Lax", "Max-Age=" + IntToString(DefaultTtl)];
    assert head + ["Secure"] + [] == head + ["Secure"];
  }

  /** The only cookie the handler sets is the one a login with the configured secret issues. */
  lemma SetCookieIsIssued(pr: Primitives, req: Request, teacherPassword: Option<string>, sessionSecret: Option<string>, now: int)
    requires Handle(pr, req, teacherPassword, sessionSecret, now).Response?
    requires Handle(pr, req, teacherPassword, sessionSecret, now).setCookie.Some?
    ensures req.httpMethod == "POST" && Given(teacherPassword) && Given(sessionSecret)
    ensures Handle(pr, req, teacherPassword, sessionSecret, now).setCookie.value == IssuedCookie(pr, sessionSecret.value, now)
  {
  }

  /**
   * The `tc=<token>` pair of the issued cookie, sent back as the request's cookie header,
   * passes `requireTeacher` with the same secret up to and including `now + 28800`, and
   * fails after it.
   */
  lemma IssuedCookieAuthorizes(pr: Primitives, secret: string, now: int, later: int, headers: map<string, string>)
    requires Lawful(pr)
    requires now + DefaultTtl != 0
    requires "cookie" in headers
    requires headers["cookie"] == CookieEntries(IssuedCookie(pr, secret, now))[0]
    ensures later <= now + DefaultTtl ==> RequireTeacher(pr, headers, Some(secret), later).Authorized?
    ensures later > now + DefaultTtl ==> RequireTeacher(pr, headers, Some(secret), later) == Unauthorized
  {
    var token := IssuedToken(pr, secret, now);
    IssuedCookieLayout(pr, secret, now);
    var pair := CookieName + "=" + token;
    assert headers["cookie"] == pair;
    assert ';' !in pair by {
      assert TokenChars(token);
    }
    SplitNoSep(pair, ';');
    assert CookieEntries(CookieHeader(headers)) == [pair] + [];
    SignedCookieAuthorizes(pr, map["role" := Str("teacher")], secret, now, DefaultTtl, later, headers, []);
  }

  /**
   * End to end: the `tc=<token>` pair of a successful login's cookie, sent back as the request's
   * cookie header, passes `requireTeacher` with the same secret up to and including the expiry
   * second `now + 28800`, and fails after it.
   */
  lemma LoginCookieAuthorizes(pr: Primitives, req: Request, teacherPassword: Option<string>, sessionSecret: Option<string>, now: int, later: int, headers: map<string, string>)
    requires Lawful(pr)
    requires now + DefaultTtl != 0
    requires Handle(pr, req, teacherPassword, sessionSecret, now).Response?
    requires Handle(pr, req, teacherPassword, sessionSecret, now).setCookie.Some?
    requires "cookie" in headers
    requires headers["cookie"] == CookieEntries(Handle(pr, req, teacherPassword, sessionSecret, now).setCookie.value)[0]
    ensures later <= now + DefaultTtl ==> RequireTeacher(pr, headers, sessionSecret, later).Authorized?
    ensures later > now + DefaultTtl ==> RequireTeacher(pr, headers, sessionSecret, later) == Unauthorized
  {
    SetCookieIsIssued(pr, req, teacherPassword, sessionSecret, now);
    IssuedCookieAuthorizes(pr, sessionSecret.value, now, later, headers);
  }
}

/**
 * The request/response shapes of the serverless handlers, reduced to what they decide:
 * status code, body, and the `Set-Cookie` header. CORS and content-type headers are constant
 * and not modelled.
 */
module Http {
  import opened Wrappers
  import opened JsValue
  import opened Auth

  /** A row the backend sends or receives: a JSON object. */
  type Row = map<string, Value>

  /** `row[key]`, with `undefined` as `None`. */
  function Field(row: Row, key: string): (r: Option<Value>)
    ensures r.Some? <==> key in row
  {
    if key in row then Some(row[key]) else None
  }

  /** An inbound event: method, headers, the query parameters of its URL, and the raw body. */
  datatype Request = Request(
    httpMethod: string,
    headers: map<string, string>,
    query: map<string, string>,
    body: Option<string>)

  /** A response body: literal text, a structured JSON payload, or `Server error: <message>`. */
  datatype Body<B> = Text(text: string) | Payload(payload: B) | ServerError

  /** A handler's answer; `Uncaught` is an exception that escapes the handler. */
  datatype Response<B> = Response(status: int, body: Body<B>, setCookie: Option<string>) | Uncaught

  /**
   * A backend read's outcome as `jsonRes` hands it over: its rows on success; otherwise its
   * status and `shown`, the `String(data)` a handler forwards. That is the response text when
   * it is not JSON, and the rendering of the parsed value when it is: a JSON error object
   * shows as `[object Object]`, a JSON string without its quotes.
   */
  datatype Fetched<T> = Rows(rows: seq<T>) | Failed(status: int, shown: string)

  function Reply<B>(status: int, body: Body<B>): Response<B> {
    Response(status, body, None)
  }

  /**
   * `const { ... } = JSON.parse(event.body || '{}')`: an absent or empty body reads as `{}`;
   * text that does not parse, and a `null` that cannot be destructured, throw.
   */
  function DestructuredBody(pr: Primitives, body: Option<string>): (r: Js<Value>)
    ensures r.Ok? ==> r.value != Null
    ensures Lawful(pr) && (body.None? || body == Some("")) ==> r == Ok(Obj(map[]))
  {
    var text := if body.Some? && body.value != "" then body.value else "{}";
    match pr.parse(text)
    case None => Throws
    case Some(Null) => Throws
    case Some(v) => Ok(v)
  }

  /** `url.searchParams.get(key)`. */
  function Param(req: Request, key: string): Option<string> {
    if key in req.query then Some(req.query[key]) else None
  }

  /** A query parameter that is present and non-empty (truthy). */
  predicate Given(o: Option<string>) {
    o.Some? && o.value != ""
  }

  /**
   * The prologue shared by the teacher-only handlers: OPTIONS gets an empty 200, any method
   * but `allowed` gets 405, then `requireTeacher` must pass. `None` means "go on".
   */
  function TeacherGate<B>(pr: Primitives, req: Request, allowed: string, secret: Option<string>, now: int): (r: Option<Response<B>>)
    ensures req.httpMethod == "OPTIONS" ==> r == Some(Reply(200, Text("")))
    ensures req.httpMethod != "OPTIONS" && req.httpMethod != allowed ==> r == Some(Reply(405, Text("Method Not Allowed")))
    ensures r.None? <==>
      && req.httpMethod != "OPTIONS" && req.httpMethod == allowed
      && RequireTeacher(pr, req.headers, secret, now).Authorized?
    ensures r.Some? && req.httpMethod == allowed && allowed != "OPTIONS" ==>
      r.value == (if RequireTeacher(pr, req.headers, secret, now).AuthThrows? then Uncaught
                  else Reply(401, Text("Unauthorized")))
  {
    if req.httpMethod == "OPTIONS" then Some(Reply(200, Text("")))
    else if req.httpMethod != allowed then Some(Reply(405, Text("Method Not Allowed")))
    else
      match RequireTeacher(pr, req.headers, secret, now)
      case AuthThrows => Some(Uncaught)
      case Unauthorized => Some(Reply(401, Text("Unauthorized")))
      case Authorized(_) => None
  }
}

/**
 * The teacher session token (netlify/functions/_lib/auth.js): a JWS compact serialisation
 * (section 7.1 of RFC 7515) signed with HS256 (section 3.2 of RFC 7518), carrying `iat`/`exp`
 * claims (sections 4.1.6 and 4.1.4 of RFC 7519), delivered in a `Set-Cookie` string
 * (section 4.1 of RFC 6265) and read back from the `Cookie` request header.
 */
module Auth {
  import opened Wrappers
  import opened Strings
  import opened Base64Url
  import opened JsValue

  /** The decoded payload of a token: a JSON object. */
  type Claims = map<string, Value>

  /**
   * The primitives the module calls but that are not written out here: JSON, UTF-8, the
   * HMAC-SHA-256 digest, `decodeURIComponent` and the `ToNumber` coercion of `>`.
   * A `None` result stands for the primitive throwing (or for NaN in `toNumber`).
   */
  datatype Primitives = Primitives(
    stringify: Value -> string,
    parse: string -> Option<Value>,
    utf8Encode: string -> seq<byte>,
    utf8Decode: seq<byte> -> string,
    hmacSha256: (string, string) -> seq<byte>,
    uriDecode: string -> Option<string>,
    toNumber: Value -> Option<int>)

  /** The only facts about the primitives the model relies on. */
  ghost predicate Lawful(pr: Primitives) {
    && (forall v :: pr.parse(pr.stringify(v)) == Some(v))
    && (forall v :: |pr.stringify(v)| > 0)
    && pr.parse("{}") == Some(Obj(map[]))
    && (forall s :: pr.utf8Decode(pr.utf8Encode(s)) == s)
    && (forall s :: |s| > 0 ==> |pr.utf8Encode(s)| > 0)
    && (forall k, d :: |pr.hmacSha256(k, d)| == 32)
    && (forall s :: '%' !in s ==> pr.uriDecode(s) == Some(s))
    && (forall n :: pr.toNumber(Num(n)) == Some(n))
  }

  /** `60 * 60 * 8`: the default token lifetime and cookie Max-Age, in seconds. */
  const DefaultTtl: int := 28800

  /** The fixed JOSE header `{alg: 'HS256', typ: 'JWT'}`. */
  const Header: Value := Obj(map["alg" := Str("HS256"), "typ" := Str("JWT")])

  /** The cookie that carries the token. */
  const CookieName: string := "tc"

  /**
   * `jsonb64(obj)`. The segment never holds a `.`, and with lawful primitives it is
   * non-empty and `verify`'s decoding reads the value back.
   */
  function JsonB64(pr: Primitives, v: Value): (r: string)
    ensures '.' !in r && TokenChars(r)
    ensures Lawful(pr) ==> r != "" && DecodeJson(pr, r) == Some(v)
  {
    var bytes := pr.utf8Encode(pr.stringify(v));
    UrlCharsHaveNoDot(B64Url(bytes));
    B64UrlRoundTrip(bytes);
    B64Url(bytes)
  }

  /** How `verify` reads a segment back: reverse substitution, base64, UTF-8, `JSON.parse`. */
  function DecodeJson(pr: Primitives, seg: string): Option<Value> {
    match StdDecode(FromUrlAlphabet(seg))
    case None => None
    case Some(bytes) => pr.parse(pr.utf8Decode(bytes))
  }

  /** The signature segment for `data`: `b64url(HMAC-SHA-256(secret, data))`. */
  function Mac(pr: Primitives, secret: string, data: string): string {
    B64Url(pr.hmacSha256(secret, data))
  }

  /** `{ ...payload, iat: now, exp: now + ttl }`: the caller's claims with `iat`/`exp` overridden. */
  function TokenClaims(payload: Claims, now: int, ttl: int): (c: Claims)
    ensures "iat" in c && c["iat"] == Num(now)
    ensures "exp" in c && c["exp"] == Num(now + ttl)
    ensures forall k :: k != "iat" && k != "exp" ==> (k in c <==> k in payload)
    ensures forall k :: k in payload && k != "iat" && k != "exp" ==> c[k] == payload[k]
  {
    payload["iat" := Num(now)]["exp" := Num(now + ttl)]
  }

  /** The header and payload segments joined by `.`, which the signature covers. */
  function SigningInput(pr: Primitives, payload: Claims, now: int, ttl: int): string {
    JsonB64(pr, Header) + "." + JsonB64(pr, Obj(TokenClaims(payload, now, ttl)))
  }

  /** `sign(payload, secret, { expSec })` at time `now`; an absent `expSec` means 28800. */
  function Sign(pr: Primitives, payload: Claims, secret: string, now: int, expSec: Option<int>): (token: string)
    ensures TokenChars(token)
  {
    var ttl := expSec.GetOr(DefaultTtl);
    var h := JsonB64(pr, Header);
    var p := JsonB64(pr, Obj(TokenClaims(payload, now, ttl)));
    var data := h + "." + p;
    var s := Mac(pr, secret, data);
    TokenCharsConcat(h, p);
    TokenCharsConcat(data, s);
    data + "." + s
  }

  /** Every character is in the URL-safe alphabet or is `.`: no `%`, `;`, `=` or whitespace. */
  predicate TokenChars(s: string) {
    forall i :: 0 <= i < |s| ==> IsUrlChar(s[i]) || s[i] == '.'
  }

  lemma TokenCharsConcat(a: string, b: string)
    requires TokenChars(a) && TokenChars(b)
    ensures TokenChars(a + "." + b)
  {
    var s := a + "." + b;
    forall i | 0 <= i < |s| ensures IsUrlChar(s[i]) || s[i] == '.' {
      if i < |a| { assert s[i] == a[i]; }
      else if i > |a| { assert s[i] == b[i - |a| - 1]; }
    }
  }

  /**
   * `now > exp` under JavaScript's coercion: comparing with NaN is false, so a claim that
   * does not convert to a number never expires; a numeric claim expires once `now` passes it.
   */
  function Expired(pr: Primitives, now: int, exp: Value): (b: bool)
    ensures pr.toNumber(exp).None? ==> !b
    ensures Lawful(pr) && exp.Num? ==> (b <==> now > exp.n)
  {
    match pr.toNumber(exp)
    case Some(n) => now > n
    case None => false
  }

  /**
   * `verify(token, secret)` at time `now`. Only the first three `.`-segments are looked at;
   * every failure, thrown or returned, is the same `None`.
   */
  function Verify(pr: Primitives, token: string, secret: string, now: int): (r: Option<Claims>)
    ensures r.Some? ==>
      var segs := Split(token, '.');
      && |segs| >= 3 && segs[0] != "" && segs[1] != "" && segs[2] != ""
      && segs[2] == Mac(pr, secret, segs[0] + "." + segs[1])
      && DecodeJson(pr, segs[1]) == Some(Obj(r.value))
      && "exp" in r.value && Truthy(r.value["exp"])
      && !Expired(pr, now, r.value["exp"])
    ensures
      var segs := Split(token, '.');
      (|segs| >= 3 && segs[0] != "" && segs[1] != "" && segs[2] != ""
       && segs[2] == Mac(pr, secret, segs[0] + "." + segs[1])
       && DecodeJson(pr, segs[1]).Some? && DecodeJson(pr, segs[1]).value.Obj?) ==>
      var claims := DecodeJson(pr, segs[1]).value.fields;
      ("exp" in claims && Truthy(claims["exp"]) && !Expired(pr, now, claims["exp"]) ==> r == Some(claims))
  {
    var segs := Split(token, '.');
    if |segs| < 3 || segs[0] == "" || segs[1] == "" || segs[2] == "" then None
    else if Mac(pr, secret, segs[0] + "." + segs[1]) != segs[2] then None
    else
      match DecodeJson(pr, segs[1])
      case Some(Obj(claims)) =>
        if !TruthyOpt(Prop(Obj(claims), "exp")) || Expired(pr, now, claims["exp"]) then None
        else Some(claims)
      case _ => None
  }

  lemma UrlCharsHaveNoDot(s: string)
    requires forall i :: 0 <= i < |s| ==> IsUrlChar(s[i])
    ensures '.' !in s && TokenChars(s)
  {
  }

  /** A signature segment is the 43 characters of a 32-byte digest, free of `.`. */
  lemma MacSegment(pr: Primitives, secret: string, data: string)
    requires Lawful(pr)
    ensures |Mac(pr, secret, data)| == 43 && '.' !in Mac(pr, secret, data)
  {
    UrlCharsHaveNoDot(Mac(pr, secret, data));
  }

  /** Three segments with no `.` in them split back apart. */
  lemma SplitThree(a: string, b: string, c: string)
    requires '.' !in a && '.' !in b && '.' !in c
    ensures Split(a + "." + b + "." + c, '.') == [a, b, c]
  {
    SplitConcat(a + "." + b, c, '.');
    SplitConcat(a, b, '.');
    SplitNoSep(a, '.');
    SplitNoSep(b, '.');
    SplitNoSep(c, '.');
  }

  /**
   * A signed token is exactly three non-empty segments: the header, the claims with `iat`
   * and `exp` set, and the MAC of the first two joined by `.`.
   */
  lemma SignShape(pr: Primitives, payload: Claims, secret: string, now: int, expSec: Option<int>)
    requires Lawful(pr)
    ensures var segs := Split(Sign(pr, payload, secret, now, expSec), '.');
      && |segs| == 3 && segs[0] != "" && segs[1] != "" && segs[2] != ""
      && segs[2] == Mac(pr, secret, segs[0] + "." + segs[1])
      && DecodeJson(pr, segs[0]) == Some(Header)
      && DecodeJson(pr, segs[1]) == Some(Obj(TokenClaims(payload, now, expSec.GetOr(DefaultTtl))))
  {
    var c := TokenClaims(payload, now, expSec.GetOr(DefaultTtl));
    var h := JsonB64(pr, Header);
    var p := JsonB64(pr, Obj(c));
    MacSegment(pr, secret, h + "." + p);
    SignLayout(pr, payload, secret, now, expSec);
    SplitThree(h, p, Mac(pr, secret, h + "." + p));
  }

  /** The token is the signing input, a `.`, and the MAC of the signing input. */
  lemma SignLayout(pr: Primitives, payload: Claims, secret: string, now: int, expSec: Option<int>)
    ensures var data := SigningInput(pr, payload, now, expSec.GetOr(DefaultTtl));
      Sign(pr, payload, secret, now, expSec) == data + "." + Mac(pr, secret, data)
  {
  }

  /**
   * Round trip: a token signed at `t0` with lifetime `e` verifies at `t` to the signed claims
   * exactly when `exp = t0 + e` is non-zero and `t <= t0 + e`; otherwise it is rejected.
   */
  lemma VerifySigned(pr: Primitives, payload: Claims, secret: string, t0: int, e: int, t: int)
    requires Lawful(pr)
    ensures Verify(pr, Sign(pr, payload, secret, t0, Some(e)), secret, t)
         == if t0 + e != 0 && t <= t0 + e then Some(TokenClaims(payload, t0, e)) else None
  {
    SignShape(pr, payload, secret, t0, Some(e));
    VerifyDecided(pr, Sign(pr, payload, secret, t0, Some(e)), secret, t, TokenClaims(payload, t0, e));
    ExpDecides(pr, payload, t0, e, t);
  }

  /** The signed `exp` is `t0 + e`: truthy unless 0, and past only after `t0 + e`. */
  lemma ExpDecides(pr: Primitives, payload: Claims, t0: int, e: int, t: int)
    requires Lawful(pr)
    ensures var c := TokenClaims(payload, t0, e);
      ("exp" in c && Truthy(c["exp"]) && !Expired(pr, t, c["exp"])) == (t0 + e != 0 && t <= t0 + e)
  {
  }

  /** Once the signature checks and the payload decodes to an object, its `exp` alone decides. */
  lemma VerifyDecided(pr: Primitives, token: string, secret: string, now: int, claims: Claims)
    requires var segs := Split(token, '.');
      && |segs| >= 3 && segs[0] != "" && segs[1] != "" && segs[2] != ""
      && segs[2] == Mac(pr, secret, segs[0] + "." + segs[1])
      && DecodeJson(pr, segs[1]) == Some(Obj(claims))
    ensures Verify(pr, token, secret, now)
         == if "exp" in claims && Truthy(claims["exp"]) && !Expired(pr, now, claims["exp"]) then Some(claims) else None
  {
  }

  /** Segments after the third are never looked at. */
  lemma VerifyIgnoresExtraSegments(pr: Primitives, token: string, rest: string, secret: string, now: int)
    requires |Split(token, '.')| >= 3
    ensures Verify(pr, token + "." + rest, secret, now) == Verify(pr, token, secret, now)
  {
    SplitConcat(token, rest, '.');
    var segs := Split(token + "." + rest, '.');
    assert segs[..3] == Split(token, '.')[..3];
  }

  /** An accepted token carries a 43-character signature segment (a 32-byte digest). */
  lemma AcceptedSignatureLength(pr: Primitives, token: string, secret: string, now: int)
    requires Lawful(pr)
    requires Verify(pr, token, secret, now).Some?
    ensures |Split(token, '.')| >= 3 && |Split(token, '.')[2]| == 43
  {
    var segs := Split(token, '.');
    MacSegment(pr, secret, segs[0] + "." + segs[1]);
  }

  /**
   * The empty token is rejected, and so is a token of three or more segments whose third
   * segment is not 43 characters long, however many segments follow.
   */
  lemma MalformedTokensRejected(pr: Primitives, a: string, b: string, c: string, rest: seq<string>, secret: string, now: int)
    requires Lawful(pr)
    requires '.' !in a && '.' !in b && '.' !in c && |c| != 43
    ensures Verify(pr, "", secret, now) == None
    ensures Verify(pr, Join([a, b, c] + rest, "."), secret, now) == None
  {
    assert Split("", '.') == [""];
    var t := Join([a, b, c] + rest, ".");
    var tail := if |rest| == 0 then c else c + "." + Join(rest, ".");
    assert ([a, b, c] + rest)[1..] == [b, c] + rest;
    assert ([b, c] + rest)[1..] == [c] + rest;
    assert ([c] + rest)[1..] == rest;
    assert Join([c] + rest, ".") == tail;
    assert Join([b, c] + rest, ".") == b + "." + tail;
    assert t == a + "." + (b + "." + tail);
    SplitThree(a, b, c);
    if |rest| > 0 {
      assert t == a + "." + b + "." + c + "." + Join(rest, ".");
      SplitConcat(a + "." + b + "." + c, Join(rest, "."), '.');
    } else {
      assert t == a + "." + b + "." + c;
    }
    if Verify(pr, t, secret, now).Some? {
      AcceptedSignatureLength(pr, t, secret, now);
      assert false;
    }
  }

  /**
   * Tamper evidence: replacing the payload segment while keeping the signature is rejected
   * whenever the digest of the altered input differs from the digest of the original.
   */
  lemma TamperedPayloadRejected(pr: Primitives, h: string, p: string, p2: string, secret: string, now: int)
    requires Lawful(pr)
    requires '.' !in h && '.' !in p2
    requires pr.hmacSha256(secret, h + "." + p2) != pr.hmacSha256(secret, h + "." + p)
    ensures Verify(pr, h + "." + p2 + "." + Mac(pr, secret, h + "." + p), secret, now) == None
  {
    var s := Mac(pr, secret, h + "." + p);
    MacSegment(pr, secret, h + "." + p);
    SplitThree(h, p2, s);
    if Mac(pr, secret, h + "." + p2) == s {
      B64UrlInjective(pr.hmacSha256(secret, h + "." + p2), pr.hmacSha256(secret, h + "." + p));
      assert false;
    }
  }

  /** A token signed with one secret is rejected under another whose digest of it differs. */
  lemma ForeignSecretRejected(pr: Primitives, payload: Claims, secret: string, other: string, t0: int, expSec: Option<int>, t: int)
    requires Lawful(pr)
    requires var data := SigningInput(pr, payload, t0, expSec.GetOr(DefaultTtl));
      pr.hmacSha256(other, data) != pr.hmacSha256(secret, data)
    ensures Verify(pr, Sign(pr, payload, secret, t0, expSec), other, t) == None
  {
    var data := SigningInput(pr, payload, t0, expSec.GetOr(DefaultTtl));
    SignShape(pr, payload, secret, t0, expSec);
    var segs := Split(Sign(pr, payload, secret, t0, expSec), '.');
    MacSegment(pr, secret, data);
    SplitThree(JsonB64(pr, Header), JsonB64(pr, Obj(TokenClaims(payload, t0, expSec.GetOr(DefaultTtl)))), Mac(pr, secret, data));
    assert segs[0] + "." + segs[1] == data;
    if Mac(pr, other, data) == Mac(pr, secret, data) {
      B64UrlInjective(pr.hmacSha256(other, data), pr.hmacSha256(secret, data));
      assert false;
    }
  }

  /**
   * `teacherCookie(name, value, { domain, secure = true, maxAge = 28800 })`: the attributes in
   * a fixed order joined by `; `, `Secure` only when `secure`, `Domain` only for a non-empty domain.
   */
  function TeacherCookie(name: string, value: string, domain: Option<string>, secure: Option<bool>, maxAge: Option<int>): (r: string)
    ensures r == name + "=" + value + "; Path=/; HttpOnly; SameSite=Lax; Max-Age=" + IntToString(maxAge.GetOr(DefaultTtl))
                 + (if secure.GetOr(true) then "; Secure" else "")
                 + (if domain.Some? && domain.value != "" then "; Domain=" + domain.value else "")
  {
    TeacherCookieText(name, value, domain, secure, maxAge);
    Join(CookieAttributes(name, value, domain, secure, maxAge), "; ")
  }

  function CookieAttributes(name: string, value: string, domain: Option<string>, secure: Option<bool>, maxAge: Option<int>): seq<string> {
    [name + "=" + value] + LaterAttributes(domain, secure, maxAge)
  }

  /** The attributes after `name=value`. */
  function LaterAttributes(domain: Option<string>, secure: Option<bool>, maxAge: Option<int>): seq<string> {
    ["Path=/", "HttpOnly", "SameSite=Lax", MaxAgeAttribute(maxAge)]
    + (if secure.GetOr(true) then ["Secure"] else [])
    + (if domain.Some? && domain.value != "" then ["Domain=" + domain.value] else [])
  }

  function MaxAgeAttribute(maxAge: Option<int>): string {
    "Max-Age=" + IntToString(maxAge.GetOr(DefaultTtl))
  }

  lemma TeacherCookieText(name: string, value: string, domain: Option<string>, secure: Option<bool>, maxAge: Option<int>)
    ensures Join(CookieAttributes(name, value, domain, secure, maxAge), "; ")
         == name + "=" + value + "; Path=/; HttpOnly; SameSite=Lax; Max-Age=" + IntToString(maxAge.GetOr(DefaultTtl))
            + (if secure.GetOr(true) then "; Secure" else "")
            + (if domain.Some? && domain.value != "" then "; Domain=" + domain.value else "")
  {
    var m := IntToString(maxAge.GetOr(DefaultTtl));
    var sec: seq<string> := if secure.GetOr(true) then ["Secure"] else [];
    var dom: seq<string> := if domain.Some? && domain.value != "" then ["Domain=" + domain.value] else [];
    CookieJoin(name + "=" + value, m, sec, dom);
    assert "; " + "Secure" == "; Secure";
    if |dom| == 1 {
      assert "; " + dom[0] == "; Domain=" + domain.value;
    }
  }

  /** The attribute list joined by `; `, with the optional attributes kept abstract. */
  lemma CookieJoin(pair: string, m: string, sec: seq<string>, dom: seq<string>)
    requires |sec| <= 1 && |dom| <= 1
    ensures Join([pair] + (["Path=/", "HttpOnly", "SameSite=Lax", "Max-Age=" + m] + sec + dom), "; ")
         == pair + "; Path=/; HttpOnly; SameSite=Lax; Max-Age=" + m
            + (if |sec| == 1 then "; " + sec[0] else "") + (if |dom| == 1 then "; " + dom[0] else "")
  {
    var fixed := [pair, "Path=/", "HttpOnly", "SameSite=Lax", "Max-Age=" + m];
    Regroup(pair, "Path=/", "HttpOnly", "SameSite=Lax", "Max-Age=" + m, sec, dom);
    JoinFive(pair, "Path=/", "HttpOnly", "SameSite=Lax", "Max-Age=" + m, "; ");
    FixedText(pair, m);
    JoinOptional(fixed, sec, "; ");
    JoinOptional(fixed + sec, dom, "; ");
  }

  /** The fixed attributes' text once the pair and the Max-Age value are set aside. */
  lemma FixedText(pair: string, m: string)
    ensures pair + "; " + "Path=/" + "; " + "HttpOnly" + "; " + "SameSite=Lax" + "; " + ("Max-Age=" + m)
         == pair + "; Path=/; HttpOnly; SameSite=Lax; Max-Age=" + m
  {
    FixedLiteral();
  }

  lemma FixedLiteral()
    ensures "; " + "Path=/" + "; " + "HttpOnly" + "; " + "SameSite=Lax" + "; " + "Max-Age="
         == "; Path=/; HttpOnly; SameSite=Lax; Max-Age="
  {
    assert "; " + "Path=/" == "; Path=/";
    assert "; Path=/" + "; " == "; Path=/; ";
    assert "; Path=/; " + "HttpOnly" == "; Path=/; HttpOnly";
    assert "; Path=/; HttpOnly" + "; " == "; Path=/; HttpOnly; ";
    assert "; Path=/; HttpOnly; " + "SameSite=Lax" == "; Path=/; HttpOnly; SameSite=Lax";
    assert "; Path=/; HttpOnly; SameSite=Lax" + "; " == "; Path=/; HttpOnly; SameSite=Lax; ";
    assert "; Path=/; HttpOnly; SameSite=Lax; " + "Max-Age=" == "; Path=/; HttpOnly; SameSite=Lax; Max-Age=";
  }

  /**
   * `event.headers?.cookie || event.headers?.Cookie || ''`: a non-empty lower-case header
   * wins, and the result is empty only when neither spelling holds a non-empty value.
   */
  function CookieHeader(headers: map<string, string>): (r: string)
    ensures "cookie" in headers && headers["cookie"] != "" ==> r == headers["cookie"]
    ensures r != "" ==> ("cookie" in headers && r == headers["cookie"]) || ("Cookie" in headers && r == headers["Cookie"])
    ensures r == "" <==> ("cookie" !in headers || headers["cookie"] == "") && ("Cookie" !in headers || headers["Cookie"] == "")
  {
    if "cookie" in headers && headers["cookie"] != "" then headers["cookie"]
    else if "Cookie" in headers && headers["Cookie"] != "" then headers["Cookie"]
    else ""
  }

  /** `cookie.split(/;\s*\/)`: split at `;`, dropping the whitespace that follows each `;`. */
  function CookieEntries(header: string): (r: seq<string>)
    ensures |r| == |Split(header, ';')| >= 1
    ensures r[0] == Split(header, ';')[0]
    ensures forall i :: 0 <= i < |r| ==> ';' !in r[i]
    ensures forall i :: 1 <= i < |r| ==> |r[i]| == 0 || !IsSpace(r[i][0])
  {
    var pieces := Split(header, ';');
    [pieces[0]] + seq(|pieces| - 1, i requires 0 <= i < |pieces| - 1 => TrimStart(pieces[i + 1]))
  }

  /** `entries.find((c) => c.startsWith(prefix))`. */
  function FirstWithPrefix(entries: seq<string>, prefix: string): (r: Option<string>)
    ensures r.None? <==> forall i :: 0 <= i < |entries| ==> !(prefix <= entries[i])
    ensures r.Some? ==> prefix <= r.value && r.value in entries
    decreases |entries|
  {
    if |entries| == 0 then None
    else if prefix <= entries[0] then Some(entries[0])
    else FirstWithPrefix(entries[1..], prefix)
  }

  /**
   * `getCookie(event, name)`: the URI-decoded value of the first entry starting with `name=`
   * (everything after its first `=`), or `''`. A malformed escape makes it throw.
   */
  function GetCookie(pr: Primitives, headers: map<string, string>, name: string): (r: Js<string>)
    ensures FirstWithPrefix(CookieEntries(CookieHeader(headers)), name + "=").None? ==> r == Ok("")
  {
    match FirstWithPrefix(CookieEntries(CookieHeader(headers)), name + "=")
    case None => Ok("")
    case Some(m) =>
      match pr.uriDecode(AfterFirst(m, '='))
      case None => Throws
      case Some(v) => Ok(v)
  }

  /** The outcome of `requireTeacher`; `Unauthorized` is the one `{401, 'Unauthorized'}` reply. */
  datatype AuthResult = Authorized(user: Claims) | Unauthorized | AuthThrows

  /**
   * `requireTeacher(event, secret)`: authorised iff the `tc` cookie verifies and its `role`
   * claim is `'teacher'`. An absent secret makes the digest throw inside `verify`, so it fails
   * like any other bad token.
   */
  function RequireTeacher(pr: Primitives, headers: map<string, string>, secret: Option<string>, now: int): (r: AuthResult)
    ensures r.AuthThrows? <==> GetCookie(pr, headers, CookieName).Throws?
    ensures r.Authorized? ==>
      && GetCookie(pr, headers, CookieName).Ok? && secret.Some?
      && Verify(pr, GetCookie(pr, headers, CookieName).value, secret.value, now) == Some(r.user)
      && Prop(Obj(r.user), "role") == Some(Str("teacher"))
    ensures
      && GetCookie(pr, headers, CookieName).Ok? && secret.Some?
      && Verify(pr, GetCookie(pr, headers, CookieName).value, secret.value, now).Some?
      && Prop(Obj(Verify(pr, GetCookie(pr, headers, CookieName).value, secret.value, now).value), "role") == Some(Str("teacher"))
      ==> r.Authorized?
  {
    match GetCookie(pr, headers, CookieName)
    case Throws => AuthThrows
    case Ok(token) =>
      if token == "" || secret.None? then Unauthorized
      else
        match Verify(pr, token, secret.value, now)
        case None => Unauthorized
        case Some(payload) =>
          if Prop(Obj(payload), "role") != Some(Str("teacher")) then Unauthorized
          else Authorized(payload)
  }

  /** The pieces `split(';')` yields from a join with `; `: all but the first keep a leading space. */
  function Spaced(parts: seq<string>): seq<string>
    requires |parts| >= 1
  {
    [parts[0]] + seq(|parts| - 1, i requires 0 <= i < |parts| - 1 => " " + parts[i + 1])
  }

  lemma {:induction false} SplitJoinSpaced(parts: seq<string>)
    requires |parts| >= 1
    requires forall i :: 0 <= i < |parts| ==> ';' !in parts[i]
    ensures Split(Join(parts, "; "), ';') == Spaced(parts)
    decreases |parts|
  {
    SplitNoSep(parts[0], ';');
    if |parts| > 1 {
      var j := Join(parts[1..], "; ");
      SplitJoinSpaced(parts[1..]);
      assert Join(parts, "; ") == parts[0] + [';'] + (" " + j);
      SplitConcat(parts[0], " " + j, ';');
      assert (" " + j)[1..] == j;
      var sj := Split(j, ';');
      assert Split(" " + j, ';') == [" " + sj[0]] + sj[1..];
      assert Split(" " + j, ';') == Spaced(parts)[1..];
      assert Spaced(parts) == [parts[0]] + Spaced(parts)[1..];
    }
  }

  lemma TrimLeadingSpace(p: string)
    requires |p| == 0 || !IsSpace(p[0])
    ensures TrimStart(" " + p) == p
  {
    assert (" " + p)[1..] == p;
  }

  /**
   * Reading a joined attribute list with `getCookie`'s own splitter gives the list back, when
   * no part contains `;` and no later part starts with whitespace.
   */
  lemma CookieEntriesOfJoin(parts: seq<string>)
    requires |parts| >= 1
    requires forall i :: 0 <= i < |parts| ==> ';' !in parts[i]
    requires forall i :: 1 <= i < |parts| ==> |parts[i]| == 0 || !IsSpace(parts[i][0])
    ensures CookieEntries(Join(parts, "; ")) == parts
  {
    SplitJoinSpaced(parts);
    var pieces := Split(Join(parts, "; "), ';');
    var ce := CookieEntries(Join(parts, "; "));
    assert |pieces| == |parts|;
    forall i | 0 <= i < |parts| ensures ce[i] == parts[i] {
      if i > 0 {
        assert pieces[i] == " " + parts[i];
        TrimLeadingSpace(parts[i]);
      }
    }
  }

  /**
   * The cookie string, read back with the request-side splitter, is `name=value`, `Path=/`,
   * `HttpOnly`, `SameSite=Lax`, `Max-Age=m`, then `Secure` iff `secure` (default true), then
   * `Domain=d` iff the domain is non-empty.
   */
  lemma TeacherCookieLayout(name: string, value: string, domain: Option<string>, secure: Option<bool>, maxAge: Option<int>)
    requires ';' !in name && ';' !in value && (domain.Some? ==> ';' !in domain.value)
    ensures CookieEntries(TeacherCookie(name, value, domain, secure, maxAge))
         == [name + "=" + value, "Path=/", "HttpOnly", "SameSite=Lax", "Max-Age=" + IntToString(maxAge.GetOr(DefaultTtl))]
            + (if secure.GetOr(true) then ["Secure"] else [])
            + (if domain.Some? && domain.value != "" then ["Domain=" + domain.value] else [])
  {
    CookieAttributesSafe(name, value, domain, secure, maxAge);
    CookieEntriesOfJoin(CookieAttributes(name, value, domain, secure, maxAge));
    Regroup(name + "=" + value, "Path=/", "HttpOnly", "SameSite=Lax", MaxAgeAttribute(maxAge),
      if secure.GetOr(true) then ["Secure"] else [],
      if domain.Some? && domain.value != "" then ["Domain=" + domain.value] else []);
  }

  lemma Regroup(a: string, b: string, c: string, d: string, e: string, x: seq<string>, y: seq<string>)
    ensures [a] + ([b, c, d, e] + x + y) == [a, b, c, d, e] + x + y
  {
    assert [a] + [b, c, d, e] == [a, b, c, d, e];
  }

  lemma CookieAttributesSafe(name: string, value: string, domain: Option<string>, secure: Option<bool>, maxAge: Option<int>)
    requires ';' !in name && ';' !in value && (domain.Some? ==> ';' !in domain.value)
    ensures var parts := CookieAttributes(name, value, domain, secure, maxAge);
      && |parts| >= 1
      && (forall i :: 0 <= i < |parts| ==> ';' !in parts[i])
      && (forall i :: 1 <= i < |parts| ==> |parts[i]| == 0 || !IsSpace(parts[i][0]))
  {
    var m := MaxAgeAttribute(maxAge);
    DecimalHasNoSemicolon(maxAge.GetOr(DefaultTtl));
    assert Capitalised(m);
    var sec: seq<string> := if secure.GetOr(true) then ["Secure"] else [];
    var dom: seq<string> := if domain.Some? && domain.value != "" then ["Domain=" + domain.value] else [];
    assert forall i :: 0 <= i < |dom| ==> Capitalised(dom[i]);
    LaterCapitalised(m, sec, dom);
    var later := LaterAttributes(domain, secure, maxAge);
    PairHasNoSemicolon(name, value);
    CapitalisedTail(name + "=" + value, later);
  }

  /** The attributes after the first each start with a capital letter and hold no `;`. */
  lemma LaterCapitalised(m: string, sec: seq<string>, dom: seq<string>)
    requires Capitalised(m)
    requires forall i :: 0 <= i < |sec| ==> Capitalised(sec[i])
    requires forall i :: 0 <= i < |dom| ==> Capitalised(dom[i])
    ensures var later := ["Path=/", "HttpOnly", "SameSite=Lax", m] + sec + dom;
      forall i :: 0 <= i < |later| ==> Capitalised(later[i])
  {
    var fixed := ["Path=/", "HttpOnly", "SameSite=Lax", m];
    assert forall i :: 0 <= i < |fixed| ==> Capitalised(fixed[i]);
    var later := fixed + sec + dom;
    forall i | 0 <= i < |later| ensures Capitalised(later[i]) {
      if i < 4 { assert later[i] == fixed[i]; }
      else if i < 4 + |sec| { assert later[i] == sec[i - 4]; }
      else { assert later[i] == dom[i - 4 - |sec|]; }
    }
  }

  lemma CapitalisedTail(first: string, later: seq<string>)
    requires ';' !in first
    requires forall i :: 0 <= i < |later| ==> Capitalised(later[i])
    ensures var parts := [first] + later;
      && (forall i :: 0 <= i < |parts| ==> ';' !in parts[i])
      && (forall i :: 1 <= i < |parts| ==> |parts[i]| == 0 || !IsSpace(parts[i][0]))
  {
    var parts := [first] + later;
    forall i | 1 <= i < |parts| ensures ';' !in parts[i] && |parts[i]| > 0 && !IsSpace(parts[i][0]) {
      assert parts[i] == later[i - 1];
      UpperIsNotSpace(parts[i][0]);
    }
  }

  lemma PairHasNoSemicolon(name: string, value: string)
    requires ';' !in name && ';' !in value
    ensures ';' !in name + "=" + value
  {
  }

  /** A `;`-free attribute that starts with a capital letter, as every attribute after the first does. */
  predicate Capitalised(p: string) {
    ';' !in p && |p| > 0 && 'A' <= p[0] <= 'Z'
  }

  lemma UpperIsNotSpace(c: char)
    requires 'A' <= c <= 'Z'
    ensures !IsSpace(c)
  {
  }

  lemma DecimalHasNoSemicolon(n: int)
    ensures ';' !in IntToString(n)
  {
    var d := IntToString(n);
    assert forall i :: 0 <= i < |d| ==> d[i] == '-' || '0' <= d[i] <= '9';
  }

  lemma {:induction false} AfterFirstOfPair(name: string, value: string)
    requires '=' !in name
    ensures AfterFirst(name + "=" + value, '=') == value
    decreases |name|
  {
    if |name| == 0 {
      assert ("=" + value)[1..] == value;
    } else {
      AfterFirstOfPair(name[1..], value);
      assert (name + "=" + value)[1..] == name[1..] + "=" + value;
    }
  }

  lemma {:induction false} FirstWithPrefixSkips(pre: seq<string>, x: string, post: seq<string>, prefix: string)
    requires forall i :: 0 <= i < |pre| ==> !(prefix <= pre[i])
    requires prefix <= x
    ensures FirstWithPrefix(pre + [x] + post, prefix) == Some(x)
    decreases |pre|
  {
    if |pre| > 0 {
      assert (pre + [x] + post)[1..] == pre[1..] + [x] + post;
      FirstWithPrefixSkips(pre[1..], x, post, prefix);
    }
  }

  /**
   * `getCookie` returns the value of the first entry named `name`, with later `=` kept and
   * entries before it ignored, when the value needs no URI decoding.
   */
  lemma GetCookieFirstMatch(pr: Primitives, headers: map<string, string>, name: string, value: string, pre: seq<string>, post: seq<string>)
    requires Lawful(pr)
    requires CookieEntries(CookieHeader(headers)) == pre + [name + "=" + value] + post
    requires forall i :: 0 <= i < |pre| ==> !(name + "=" <= pre[i])
    requires '=' !in name && '%' !in value
    ensures GetCookie(pr, headers, name) == Ok(value)
  {
    var entry := name + "=" + value;
    assert name + "=" <= entry;
    FirstWithPrefixSkips(pre, entry, post, name + "=");
    AfterFirstOfPair(name, value);
    assert pr.uriDecode(value) == Some(value);
  }

  /**
   * A request whose cookie header begins with `tc=<token>` for a token signed with the
   * server's secret and a `role: 'teacher'` claim is authorised up to and including its
   * expiry second, and unauthorised after it.
   */
  lemma SignedCookieAuthorizes(pr: Primitives, payload: Claims, secret: string, t0: int, e: int, t: int, headers: map<string, string>, post: seq<string>)
    requires Lawful(pr)
    requires "role" in payload && payload["role"] == Str("teacher")
    requires t0 + e != 0
    requires CookieEntries(CookieHeader(headers)) == [CookieName + "=" + Sign(pr, payload, secret, t0, Some(e))] + post
    ensures t <= t0 + e ==> RequireTeacher(pr, headers, Some(secret), t) == Authorized(TokenClaims(payload, t0, e))
    ensures t > t0 + e ==> RequireTeacher(pr, headers, Some(secret), t) == Unauthorized
  {
    var token := Sign(pr, payload, secret, t0, Some(e));
    SignedCookieReadBack(pr, headers, token, post);
    VerifySigned(pr, payload, secret, t0, e, t);
    RequireTeacherDecided(pr, headers, secret, t, token);
    assert Prop(Obj(TokenClaims(payload, t0, e)), "role") == Some(Str("teacher"));
  }

  /** With the cookie read, `requireTeacher` is decided by `verify` and the `role` claim. */
  lemma RequireTeacherDecided(pr: Primitives, headers: map<string, string>, secret: string, now: int, token: string)
    requires GetCookie(pr, headers, CookieName) == Ok(token)
    ensures RequireTeacher(pr, headers, Some(secret), now)
         == if token == "" then Unauthorized
            else match Verify(pr, token, secret, now)
              case None => Unauthorized
              case Some(c) => if Prop(Obj(c), "role") == Some(Str("teacher")) then Authorized(c) else Unauthorized
  {
  }

  /** `getCookie` returns a token exactly as issued: its alphabet needs no URI decoding. */
  lemma SignedCookieReadBack(pr: Primitives, headers: map<string, string>, token: string, post: seq<string>)
    requires Lawful(pr)
    requires TokenChars(token)
    requires CookieEntries(CookieHeader(headers)) == [CookieName + "=" + token] + post
    ensures GetCookie(pr, headers, CookieName) == Ok(token)
  {
    assert '%' !in token by {
      assert TokenChars(token);
    }
    assert [] + [CookieName + "=" + token] + post == [CookieName + "=" + token] + post;
    GetCookieFirstMatch(pr, headers, CookieName, token, [], post);
  }
}

/**
 * The session check and the login cookie (src/auth/mod.rs): `is_logged_in`,
 * the status classification of `get_user` and of `create_session_cookie`,
 * and the `jwt=<token>; Path=/; HttpOnly` install cookie. The outbound HTTP
 * calls are not modelled: what they produce is an input, a `Reply`.
 */
module Session {
  import opened Wrappers
  import opened Errors
  import opened Octets
  import opened Text
  import opened Cookies

  /** `crate::app::User`; the UUID is kept as its text. */
  datatype User = User(id: string, handle: string, fullName: string, preferredName: string)

  /** The only token kind the identity service issues (serde also accepts the alias "bearer"). */
  datatype TokenType = Bearer

  /** The identity service's answer to a login. */
  datatype Token = Token(accessToken: string, tokenType: TokenType)

  /**
   * What one outbound call produced: a transport failure, or a status code
   * with the outcome of deserialising the JSON body (None when it did not
   * deserialise into a `T`).
   */
  datatype Reply<T> = TransportFailure | Replied(status: int, body: Option<T>)

  const WHOOPS: string := "Whoops, there was problem. Please try again."
  const PARSE_USER_ERROR: string := "Error parsing user data"
  const UNKNOWN_ERROR: string := "An unknown error occurred."
  const BAD_CREDENTIALS: string := "Bad username or password. Please correct it and try again."

  /**
   * `get_user`, once the call to `/user` has produced `reply`: a parsed 200
   * is the user, 401 is "not logged in", and anything else is an error with
   * a generic message.
   */
  function GetUser(reply: Reply<User>): (r: Result<Option<User>, ServerFnError>)
    ensures (r.Ok? && r.value.Some?) <==> reply.Replied? && reply.status == 200 && reply.body.Some?
    ensures r.Ok? && r.value.Some? ==> r.value.value == reply.body.value
    ensures r == Ok(None) <==> reply.Replied? && reply.status == 401
    ensures reply.TransportFailure? ==> r == Err(ServerError(WHOOPS))
    ensures reply.Replied? && reply.status == 200 && reply.body.None? ==> r == Err(ServerError(PARSE_USER_ERROR))
    ensures reply.Replied? && reply.status != 200 && reply.status != 401 ==> r == Err(ServerError(UNKNOWN_ERROR))
  {
    match reply
    case TransportFailure => Err(ServerError(WHOOPS))
    case Replied(status, body) =>
      if status == 200 then
        match body
        case None => Err(ServerError(PARSE_USER_ERROR))
        case Some(user) => Ok(Some(user))
      else if status == 401 then Ok(None)
      else Err(ServerError(UNKNOWN_ERROR))
  }

  /**
   * What `is_logged_in` returns and which token, if any, it sends to the
   * identity service: no request context and no token are both "not logged
   * in" without a call; a token is forwarded and the reply classified; a
   * header that is not text is an error.
   */
  ghost predicate SessionCheck(request: Option<seq<seq<byte>>>, identity: string -> Reply<User>,
                               r: Result<Option<User>, ServerFnError>, asked: Option<string>)
  {
    match request
    case None => r == Ok(None) && asked == None
    case Some(headers) =>
      match TokenFrom(headers)
      case Ok(None) => r == Ok(None) && asked == None
      case Ok(Some(token)) => asked == Some(token) && r == GetUser(identity(token))
      case Err(e) => r == Err(e) && asked == None
  }

  /**
   * `is_logged_in`. `request` is the request's `Cookie` header values, or
   * None when no request is in context; `identity(token)` is what the
   * identity service answers for `token`; `asked` is the token the call
   * sent (None when no call was made).
   */
  method IsLoggedIn(request: Option<seq<seq<byte>>>, identity: string -> Reply<User>)
    returns (r: Result<Option<User>, ServerFnError>, asked: Option<string>)
    ensures SessionCheck(request, identity, r, asked)
  {
    if request.None? {
      return Ok(None), None;
    }
    var token := GetToken(request.value);
    match token
    case Ok(None) =>
      r, asked := Ok(None), None;
    case Ok(Some(t)) =>
      r, asked := GetUser(identity(t)), Some(t);
    case Err(e) =>
      r, asked := Err(e), None;
  }

  /** When no header carries a `jwt` value the check answers "not logged in" and calls nobody. */
  lemma NoTokenNoCall(headers: seq<seq<byte>>, identity: string -> Reply<User>,
                      r: Result<Option<User>, ServerFnError>, asked: Option<string>)
    requires AllMiss(headers) && SessionCheck(Some(headers), identity, r, asked)
    ensures r == Ok(None) && asked == None
  {
    TokenFromNone(headers);
  }

  /**
   * The first header that carries a `jwt` value, after readable headers that
   * carry none, decides: exactly its token is sent, and the verdict is the
   * identity service's classified answer.
   */
  lemma ForwardsFirstToken(headers: seq<seq<byte>>, i: nat, token: string, identity: string -> Reply<User>,
                           r: Result<Option<User>, ServerFnError>, asked: Option<string>)
    requires i < |headers| && AllMiss(headers[..i]) && HeaderToken(headers[i]) == Ok(Some(token))
    requires SessionCheck(Some(headers), identity, r, asked)
    ensures asked == Some(token)
    ensures (r.Ok? && r.value.Some?) <==> identity(token).Replied? && identity(token).status == 200 && identity(token).body.Some?
    ensures r == Ok(None) <==> identity(token).Replied? && identity(token).status == 401
  {
    TokenFromDecidingHeader(headers, i);
  }

  /** A char `HeaderValue::from_str` accepts: visible, a space, a tab, or non-ASCII; not another control. */
  predicate IsFieldChar(c: char) {
    (32 <= c as int && c as int != 127) || c == '\t'
  }

  /** A string `HeaderValue::from_str` accepts (the field-value of section 5.5 of RFC 9110, as that check reads it). */
  predicate IsFieldValue(s: string) {
    forall i :: 0 <= i < |s| ==> IsFieldChar(s[i])
  }

  /** The install cookie for a token, before validation. */
  function SessionCookieText(token: string): string {
    "jwt=" + token + "; Path=/; HttpOnly"
  }

  /** The install cookie is a valid header value exactly when the token is. */
  lemma SessionCookieValidIffToken(token: string)
    ensures IsFieldValue(SessionCookieText(token)) <==> IsFieldValue(token)
  {
    var c := SessionCookieText(token);
    assert c == "jwt=" + token + "; Path=/; HttpOnly";
    assert forall i :: 0 <= i < |token| ==> c[i + 4] == token[i];
    assert IsFieldValue("jwt=") && IsFieldValue("; Path=/; HttpOnly");
    assert forall i :: 0 <= i < |c| ==>
      (i < 4 ==> c[i] == "jwt="[i]) && (i >= 4 + |token| ==> c[i] == "; Path=/; HttpOnly"[i - 4 - |token|]);
  }

  /** The install cookie of a visible ASCII token is visible ASCII. */
  lemma SessionCookieVisible(token: string)
    requires forall i :: 0 <= i < |token| ==> 32 <= token[i] as int < 127
    ensures forall i :: 0 <= i < |SessionCookieText(token)| ==> 32 <= SessionCookieText(token)[i] as int < 127
  {
    var c := SessionCookieText(token);
    assert forall i :: 0 <= i < |token| ==> c[i + 4] == token[i];
    assert forall i :: 0 <= i < |c| ==>
      (i < 4 ==> c[i] == "jwt="[i]) && (i >= 4 + |token| ==> c[i] == "; Path=/; HttpOnly"[i - 4 - |token|]);
  }

  /**
   * `create_session_cookie`, once the call to `/token` has produced
   * `reply`: a parsed 200 gives `jwt=<access_token>; Path=/; HttpOnly`
   * unless that is not a valid header value; 401 is bad credentials, any
   * other status an unknown error, and a failed call or body a generic one.
   */
  function CreateSessionCookie(reply: Reply<Token>): (r: Result<string, ServerFnError>)
    ensures r.Ok? <==>
      reply.Replied? && reply.status == 200 && reply.body.Some? && IsFieldValue(reply.body.value.accessToken)
    ensures r.Ok? ==> r.value == "jwt=" + reply.body.value.accessToken + "; Path=/; HttpOnly"
    ensures reply.Replied? && reply.status == 401 ==> r == Err(ServerError(BAD_CREDENTIALS))
    ensures reply.Replied? && reply.status != 200 && reply.status != 401 ==> r == Err(ServerError(UNKNOWN_ERROR))
    ensures reply.TransportFailure? || (reply.status == 200 && reply.body.None?) ==> r == Err(ServerError(WHOOPS))
    ensures reply.Replied? && reply.status == 200 && reply.body.Some? && !IsFieldValue(reply.body.value.accessToken)
            ==> r == Err(ServerError(UNKNOWN_ERROR))
  {
    match reply
    case TransportFailure => Err(ServerError(WHOOPS))
    case Replied(status, body) =>
      if status == 200 then
        match body
        case None => Err(ServerError(WHOOPS))
        case Some(token) =>
          var cookie := SessionCookieText(token.accessToken);
          SessionCookieValidIffToken(token.accessToken);
          if IsFieldValue(cookie) then Ok(cookie) else Err(ServerError(UNKNOWN_ERROR))
      else if status == 401 then Err(ServerError(BAD_CREDENTIALS))
      else Err(ServerError(UNKNOWN_ERROR))
  }

  /** The `Path` attribute is not the session cookie. */
  lemma PathTermIsNotToken()
    ensures TermValue(" Path=/", SESSION_COOKIE) == None
  {
    assert " Path" + "=" + "/" == " Path=/";
    assert TrimStart(" Path") == "Path";
    assert Trim(" Path") == "Path";
    assert "Path" != SESSION_COOKIE;
    TermValueOf(" Path", "/", SESSION_COOKIE);
  }

  /** The `HttpOnly` attribute has no `=`. */
  lemma HttpOnlyIsNotToken(h: string)
    requires h == " HttpOnly"
    ensures GetCookieValue(h, SESSION_COOKIE) == None
  {
    assert ';' !in h && '=' !in h;
    GetCookieValueSingle(h, SESSION_COOKIE);
    TermWithoutEqualsNeverMatches(h, SESSION_COOKIE);
  }

  /** The attributes after the token never yield a `jwt` value. */
  lemma AttributesCarryNoToken()
    ensures GetCookieValue(" Path=/; HttpOnly", SESSION_COOKIE) == None
  {
    assert " Path=/" + ";" + " HttpOnly" == " Path=/; HttpOnly";
    GetCookieValueCons(" Path=/", " HttpOnly", SESSION_COOKIE);
    PathTermIsNotToken();
    HttpOnlyIsNotToken(" HttpOnly");
  }

  /** The token's own term, `jwt=<token>`, yields the token unless it is blank. */
  lemma SessionTermValue(t: string)
    ensures TermValue("jwt=" + t, SESSION_COOKIE) == if IsBlank(t) then None else Some(t)
  {
    assert "jwt=" + t == "jwt" + "=" + t;
    assert Trim("jwt") == "jwt";
    TermValueOf("jwt", t, SESSION_COOKIE);
  }

  /**
   * Round trip: reading `jwt` back out of the install cookie gives the
   * access token, when the token holds no `;` and is not blank; a blank
   * token is never read back.
   */
  lemma SessionCookieRoundTrip(token: Token)
    requires ';' !in token.accessToken && IsFieldValue(token.accessToken)
    ensures CreateSessionCookie(Replied(200, Some(token))).Ok?
    ensures GetCookieValue(CreateSessionCookie(Replied(200, Some(token))).value, SESSION_COOKIE) ==
            if IsBlank(token.accessToken) then None else Some(token.accessToken)
  {
    var t := token.accessToken;
    var cookie := CreateSessionCookie(Replied(200, Some(token))).value;
    assert cookie == ("jwt=" + t) + ";" + " Path=/; HttpOnly";
    GetCookieValueCons("jwt=" + t, " Path=/; HttpOnly", SESSION_COOKIE);
    SessionTermValue(t);
    AttributesCarryNoToken();
  }

  /**
   * The same round trip through `get_token`: the install cookie's bytes,
   * read as the request's only `Cookie` header, yield the token, when the
   * token is visible ASCII with no `;` and not blank.
   */
  lemma SessionCookieReadBack(token: Token)
    requires ';' !in token.accessToken && !IsBlank(token.accessToken)
    requires forall i :: 0 <= i < |token.accessToken| ==> 32 <= token.accessToken[i] as int < 127
    ensures CreateSessionCookie(Replied(200, Some(token))).Ok?
    ensures var cookie := CreateSessionCookie(Replied(200, Some(token))).value;
            (forall i :: 0 <= i < |cookie| ==> cookie[i] as int < 256) &&
            TokenFrom([AsciiBytes(cookie)]) == Ok(Some(token.accessToken))
  {
    SessionCookieRoundTrip(token);
    var cookie := CreateSessionCookie(Replied(200, Some(token))).value;
    SessionCookieVisible(token.accessToken);
    HeaderTokenOfText(cookie);
    TokenFromSingle(AsciiBytes(cookie));
  }
}

/**
 * The newer `AuthGuard` (src/auth/guard.rs): it renders its children only
 * for a logged-in user and otherwise hands over to `Logout` with one of two
 * fixed reasons; while the session check is pending only "Loading..." is
 * shown.
 */
module Guard {
  import opened Wrappers
  import opened Errors
  import opened Octets
  import opened PercentEncoding
  import opened Session
  import opened Navigation
  import opened Logout

  const LOGGED_OUT_MSG: string := "you have been logged out"
  const CHECK_FAILED_MSG: string := "an error occurred, please log in"

  /** What the guard shows: the Suspense fallback, the children, or a `Logout` with a reason. */
  datatype GuardView = Loading | Children | LoggingOut(msg: string)

  /**
   * The guard's decision on the session-check resource: `read` is None
   * while the check is pending, otherwise its result. Children only for a
   * user; "logged out" for no user; a fixed message for any error, whose
   * detail never reaches the user.
   */
  function CheckResult(read: Option<Result<Option<User>, ServerFnError>>): (v: GuardView)
    ensures v == Loading <==> read.None?
    ensures v == Children <==> read.Some? && read.value.Ok? && read.value.value.Some?
    ensures v == LoggingOut(LOGGED_OUT_MSG) <==> read == Some(Ok(None))
    ensures v == LoggingOut(CHECK_FAILED_MSG) <==> read.Some? && read.value.Err?
  {
    match read
    case None => Loading
    case Some(Ok(Some(_))) => Children
    case Some(Ok(None)) => LoggingOut(LOGGED_OUT_MSG)
    case Some(Err(_)) => LoggingOut(CHECK_FAILED_MSG)
  }

  /** `check_logged_in`: exactly what `is_logged_in` answers. */
  method CheckLoggedIn(request: Option<seq<seq<byte>>>, identity: string -> Reply<User>)
    returns (r: Result<Option<User>, ServerFnError>, asked: Option<string>)
    ensures SessionCheck(request, identity, r, asked)
  {
    r, asked := IsLoggedIn(request, identity);
  }

  /**
   * One render of the guard once the check has a value or not, with the
   * `Logout` it may hand over to run to completion. Children never come
   * with a redirect, and a redirect always comes with the cookie destroyed
   * first.
   */
  method AuthGuard(read: Option<Result<Option<User>, ServerFnError>>, res: ResponseOptions?, router: Router,
                   logoutCookie: Result<string, ServerFnError>)
    returns (v: GuardView)
    requires res != null && CheckResult(read).LoggingOut? ==> logoutCookie.Ok?
    modifies res, router
    ensures v == CheckResult(read)
    ensures v.LoggingOut? ==> router.visited == old(router.visited) + [LoginRedirectPath(v.msg)]
    ensures v.LoggingOut? && res != null ==> res.headers == old(res.headers) + [Header(SET_COOKIE, logoutCookie.value)]
    ensures !v.LoggingOut? ==> router.visited == old(router.visited)
    ensures !v.LoggingOut? && res != null ==> res.headers == old(res.headers)
  {
    v := CheckResult(read);
    if v.LoggingOut? {
      var first, last := LogoutFlow(res, router, v.msg, logoutCookie);
    }
  }

  // The encodings of the two fixed messages are proved word by word: each word
  // is a parameter pinned by a `requires`, and the splitting and joining of the
  // literals are separate small lemmas, which keeps every proof obligation cheap.

  /** The words of the "logged out" message are unreserved, so each is its own encoding. */
  lemma LoggedOutWords(a: string, b: string, c: string, d: string, e: string)
    requires a == "you" && b == "have" && c == "been" && d == "logged" && e == "out"
    ensures Encode(a) == a && Encode(b) == b && Encode(c) == c && Encode(d) == d && Encode(e) == e
  {
    EncodeUnreservedText(a);
    EncodeUnreservedText(b);
    EncodeUnreservedText(c);
    EncodeUnreservedText(d);
    EncodeUnreservedText(e);
  }

  /** The "logged out" message, word by word. */
  lemma LoggedOutSplit(m: string, a: string, b: string, c: string, d: string, e: string)
    requires m == LOGGED_OUT_MSG
    requires a == "you" && b == "have" && c == "been" && d == "logged" && e == "out"
    ensures m == a + " " + (b + " " + (c + " " + (d + " " + e)))
  {
  }

  /** The escaped words of the "logged out" message, joined. */
  lemma LoggedOutJoin(a: string, b: string, c: string, d: string, e: string)
    requires a == "you" && b == "have" && c == "been" && d == "logged" && e == "out"
    ensures a + "%20" + (b + "%20" + (c + "%20" + (d + "%20" + e))) == "you%20have%20been%20logged%20out"
  {
  }

  /** The "logged out" message encoded: every space becomes `%20`. */
  lemma LoggedOutEncoded(m: string)
    requires m == LOGGED_OUT_MSG
    ensures Encode(m) == "you%20have%20been%20logged%20out"
  {
    var a, b, c, d, e := "you", "have", "been", "logged", "out";
    LoggedOutSplit(m, a, b, c, d, e);
    LoggedOutJoin(a, b, c, d, e);
    LoggedOutWords(a, b, c, d, e);
    EncodeFiveWords(a, b, c, d, e);
  }

  /** The redirect target of a message whose encoding is known. */
  lemma TargetOf(msg: string, encoded: string)
    requires Encode(msg) == encoded
    ensures LoginRedirectPath(msg) == "/login?msg=" + encoded
  {
    assert LOGIN_PATH + "?msg=" == "/login?msg=";
  }

  /** Any message encoded as the "logged out" message redirects to the same target. */
  lemma LoggedOutRedirect(m: string)
    requires Encode(m) == "you%20have%20been%20logged%20out"
    ensures LoginRedirectPath(m) == "/login?msg=" + "you%20have%20been%20logged%20out"
  {
    TargetOf(m, "you%20have%20been%20logged%20out");
  }

  /** The redirect of a missing session. */
  lemma LoggedOutTarget(m: string)
    requires m == LOGGED_OUT_MSG
    ensures LoginRedirectPath(m) == "/login?msg=" + "you%20have%20been%20logged%20out"
  {
    LoggedOutEncoded(m);
    LoggedOutRedirect(m);
  }

  /** The unreserved words of the "check failed" message are their own encodings. */
  lemma CheckFailedWords(a: string, b: string, w: string, d: string, e: string, f: string)
    requires a == "an" && b == "error" && w == "occurred" && d == "please" && e == "log" && f == "in"
    ensures Encode(a) == a && Encode(b) == b && Encode(w) == w
    ensures Encode(d) == d && Encode(e) == e && Encode(f) == f
  {
    EncodeUnreservedText(a);
    EncodeUnreservedText(b);
    EncodeUnreservedText(w);
    EncodeUnreservedText(d);
    EncodeUnreservedText(e);
    EncodeUnreservedText(f);
  }

  /** A comma is escaped as `%2C`. */
  lemma CommaEncoded()
    ensures Encode(",") == "%2C"
  {
  }

  /** The "check failed" message, word by word. */
  lemma CheckFailedSplit(m: string, a: string, b: string, w: string, d: string, e: string, f: string)
    requires m == CHECK_FAILED_MSG
    requires a == "an" && b == "error" && w == "occurred" && d == "please" && e == "log" && f == "in"
    ensures m == a + " " + (b + " " + ((w + ",") + " " + (d + " " + (e + " " + f))))
  {
  }

  /** The escaped words of the "check failed" message, joined. */
  lemma CheckFailedJoin(a: string, b: string, w: string, d: string, e: string, f: string)
    requires a == "an" && b == "error" && w == "occurred" && d == "please" && e == "log" && f == "in"
    ensures a + "%20" + (b + "%20" + ((w + "%2C") + "%20" + (d + "%20" + (e + "%20" + f))))
         == "an%20error%20occurred%2C%20please%20log%20in"
  {
  }

  /** The "check failed" message encoded: spaces become `%20`, the comma `%2C`. */
  lemma CheckFailedEncoded(m: string)
    requires m == CHECK_FAILED_MSG
    ensures Encode(m) == "an%20error%20occurred%2C%20please%20log%20in"
  {
    var a, b, w, d, e, f := "an", "error", "occurred", "please", "log", "in";
    CheckFailedSplit(m, a, b, w, d, e, f);
    CheckFailedJoin(a, b, w, d, e, f);
    CheckFailedWords(a, b, w, d, e, f);
    CommaEncoded();
    EncodeConcat(w, ",");
    EncodeSpaced(a, b + " " + ((w + ",") + " " + (d + " " + (e + " " + f))));
    EncodeFiveWords(b, w + ",", d, e, f);
  }

  /** Any message encoded as the "check failed" message redirects to the same target. */
  lemma CheckFailedRedirect(m: string)
    requires Encode(m) == "an%20error%20occurred%2C%20please%20log%20in"
    ensures LoginRedirectPath(m) == "/login?msg=" + "an%20error%20occurred%2C%20please%20log%20in"
  {
    TargetOf(m, "an%20error%20occurred%2C%20please%20log%20in");
  }

  /** The redirect of a failed check. */
  lemma CheckFailedTarget(m: string)
    requires m == CHECK_FAILED_MSG
    ensures LoginRedirectPath(m) == "/login?msg=" + "an%20error%20occurred%2C%20please%20log%20in"
  {
    CheckFailedEncoded(m);
    CheckFailedRedirect(m);
  }
}

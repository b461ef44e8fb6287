/**
 * The `Logout` component and the cookie-destroying server function
 * (src/auth/logout.rs). `create_logout_cookie` is not part of this model:
 * its result is an input, and the `expect` on it becomes a precondition.
 */
module Logout {
  import opened Wrappers
  import opened Errors
  import opened Navigation

  datatype Header = Header(name: string, value: string)

  const SET_COOKIE: string := "set-cookie"

  /** The fallback `Logout` shows while the cookie is being destroyed. */
  const LOGOUT_PENDING_TEXT: string := "You will be taken back to the login page momentarily..."

  /** Leptos' `ResponseOptions`: the headers appended to the response so far. */
  class ResponseOptions {
    var headers: seq<Header>

    constructor()
      ensures headers == []
    {
      headers := [];
    }
  }

  /**
   * `destroy_cookie`: with no `ResponseOptions` in context (`res` is null)
   * nothing happens; otherwise exactly one `Set-Cookie` header carrying the
   * logout cookie is appended and nothing else changes.
   */
  method DestroyCookie(res: ResponseOptions?, logoutCookie: Result<string, ServerFnError>)
    requires res != null ==> logoutCookie.Ok?
    modifies res
    ensures res != null ==> res.headers == old(res.headers) + [Header(SET_COOKIE, logoutCookie.value)]
  {
    if res == null {
      return;
    }
    res.headers := res.headers + [Header(SET_COOKIE, logoutCookie.value)];
  }

  /** `server_destroy_cookie`: destroys the cookie and always succeeds. */
  method ServerDestroyCookie(res: ResponseOptions?, logoutCookie: Result<string, ServerFnError>)
    returns (r: Result<(), ServerFnError>)
    requires res != null ==> logoutCookie.Ok?
    modifies res
    ensures r == Ok(())
    ensures res != null ==> res.headers == old(res.headers) + [Header(SET_COOKIE, logoutCookie.value)]
  {
    DestroyCookie(res, logoutCookie);
    r := Ok(());
  }

  /** What `Logout` shows: the pending text, or nothing once it has redirected. */
  datatype LogoutView = Pending(text: string) | Redirected

  /**
   * One render of `Logout`. `destroyed` is the destroy-cookie call: None
   * while it is pending (only the fallback shows, no redirect), otherwise
   * its result, on which the component redirects with its own message
   * whether the call succeeded or failed.
   */
  method LogoutResult(router: Router, msg: string, destroyed: Option<Result<(), ServerFnError>>)
    returns (v: LogoutView)
    modifies router
    ensures destroyed.None? ==> v == Pending(LOGOUT_PENDING_TEXT) && router.visited == old(router.visited)
    ensures destroyed.Some? ==> v == Redirected && router.visited == old(router.visited) + [LoginRedirectPath(msg)]
  {
    match destroyed
    case None =>
      v := Pending(LOGOUT_PENDING_TEXT);
    case Some(Ok(_)) =>
      RedirectToLogin(router, msg);
      v := Redirected;
    case Some(Err(_)) =>
      RedirectToLogin(router, msg);
      v := Redirected;
  }

  /**
   * The life of one `Logout`: it renders while the destroy-cookie call is
   * pending, the call destroys the cookie, and the next render redirects to
   * the login page with the same message. The cookie is gone before the
   * redirect is issued.
   */
  method LogoutFlow(res: ResponseOptions?, router: Router, msg: string, logoutCookie: Result<string, ServerFnError>)
    returns (first: LogoutView, last: LogoutView)
    requires res != null ==> logoutCookie.Ok?
    modifies res, router
    ensures first == Pending(LOGOUT_PENDING_TEXT) && last == Redirected
    ensures res != null ==> res.headers == old(res.headers) + [Header(SET_COOKIE, logoutCookie.value)]
    ensures router.visited == old(router.visited) + [LoginRedirectPath(msg)]
  {
    first := LogoutResult(router, msg, None);
    var destroyed := ServerDestroyCookie(res, logoutCookie);
    last := LogoutResult(router, msg, Some(destroyed));
  }
}

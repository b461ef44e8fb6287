/**
 * `redirect_to_login` (src/auth/guard.rs) and the login route it targets.
 * The redirect itself is an effect on the response (server side,
 * `leptos_axum::redirect`) or on the client router (`use_navigate`); both
 * are modelled as a `Router` that records every target it is sent to.
 */
module Navigation {
  import opened Wrappers
  import opened PercentEncoding

  /** `LOGIN_PATH` of src/routes/mod.rs. */
  const LOGIN_PATH: string := "/login"

  /** The path `redirect_to_login` sends the user to. */
  function LoginRedirectPath(msg: string): string {
    LOGIN_PATH + "?msg=" + Encode(msg)
  }

  /** The target is the login path with a `msg` query value that decodes to exactly the message. */
  lemma LoginRedirectPathMeaning(msg: string)
    ensures var p := LoginRedirectPath(msg);
            |p| >= 11 && p[..11] == "/login?msg=" && Decode(p[11..]) == Some(msg)
  {
    var p := LoginRedirectPath(msg);
    assert p[11..] == Encode(msg);
    DecodeEncode(msg);
  }

  /** Different messages lead to different targets. */
  lemma LoginRedirectPathInjective(m1: string, m2: string)
    requires LoginRedirectPath(m1) == LoginRedirectPath(m2)
    ensures m1 == m2
  {
    LoginRedirectPathMeaning(m1);
    LoginRedirectPathMeaning(m2);
  }

  /** Where the user has been sent, in order. */
  class Router {
    var visited: seq<string>

    constructor()
      ensures visited == []
    {
      visited := [];
    }
  }

  /** `redirect_to_login`: one redirect to the login page carrying the encoded message. */
  method RedirectToLogin(router: Router, msg: string)
    modifies router
    ensures router.visited == old(router.visited) + [LoginRedirectPath(msg)]
  {
    var path := LoginRedirectPath(msg);
    router.visited := router.visited + [path];
  }
}

/**
 * The older `AuthGuard` of src/auth/redirect.rs. It keeps the reason for a
 * refusal in a signal (`errMsg`), decides with `check_result`, which reads
 * a pending check as "not logged in", and on refusal renders `LoggedOut`,
 * which dispatches a `ForceLogout` request carrying the current reason.
 */
module LegacyGuard {
  import opened Wrappers
  import opened Errors
  import opened Session
  import Guard

  /** The branch the `Show` picks: the children or the `LoggedOut` fallback ("Unauthorized"). */
  datatype LegacyView = ShowChildren | Unauthorized

  /** What `check_result` answers: `true` only for a settled check that found a user. */
  function ShowWhen(read: Option<Result<Option<User>, ServerFnError>>): (ok: bool)
    ensures ok <==> read.Some? && read.value.Ok? && read.value.value.Some?
  {
    match read
    case Some(Ok(Some(_))) => true
    case _ => false
  }

  /** The reason signal after `check_result` ran: set on a settled refusal, kept otherwise. */
  function NextErrMsg(errMsg: string, read: Option<Result<Option<User>, ServerFnError>>): (m: string)
    ensures read == Some(Ok(None)) ==> m == Guard.LOGGED_OUT_MSG
    ensures read.Some? && read.value.Err? ==> m == Guard.CHECK_FAILED_MSG
    ensures read.None? || ShowWhen(read) ==> m == errMsg
  {
    match read
    case Some(Ok(None)) => Guard.LOGGED_OUT_MSG
    case Some(Err(_)) => Guard.CHECK_FAILED_MSG
    case _ => errMsg
  }

  /** One mounted guard: the reason signal and the `ForceLogout` requests dispatched so far. */
  class AuthGuard {
    var errMsg: string
    var forceLogouts: seq<string>

    /** The signal starts as the empty string and nothing has been dispatched. */
    constructor()
      ensures errMsg == [] && forceLogouts == []
    {
      errMsg := [];
      forceLogouts := [];
    }

    /** `check_result`: answers whether to show the children and updates the reason signal. */
    method CheckResult(read: Option<Result<Option<User>, ServerFnError>>) returns (ok: bool)
      modifies this`errMsg
      ensures ok == ShowWhen(read)
      ensures errMsg == NextErrMsg(old(errMsg), read)
    {
      match read {
        case None =>
          ok := false;
        case Some(Ok(Some(_))) =>
          ok := true;
        case Some(Ok(None)) =>
          errMsg := Guard.LOGGED_OUT_MSG;
          ok := false;
        case Some(Err(_)) =>
          errMsg := Guard.CHECK_FAILED_MSG;
          ok := false;
      }
    }

    /** `LoggedOut`: dispatches a `ForceLogout` request carrying `msg`. */
    method LoggedOut(msg: string)
      modifies this`forceLogouts
      ensures forceLogouts == old(forceLogouts) + [msg]
    {
      forceLogouts := forceLogouts + [msg];
    }

    /**
     * One evaluation of the `Show`: `check_result` runs first, then either
     * the children or `LoggedOut` with the reason as it stands after it.
     */
    method Render(read: Option<Result<Option<User>, ServerFnError>>) returns (v: LegacyView)
      modifies this
      ensures v == (if ShowWhen(read) then ShowChildren else Unauthorized)
      ensures errMsg == NextErrMsg(old(errMsg), read)
      ensures forceLogouts == old(forceLogouts) + (if ShowWhen(read) then [] else [errMsg])
    {
      var ok := CheckResult(read);
      if ok {
        v := ShowChildren;
      } else {
        LoggedOut(errMsg);
        v := Unauthorized;
      }
    }
  }

  /** The children are shown by the old guard exactly when the new guard shows them. */
  lemma ShowWhenAgrees(read: Option<Result<Option<User>, ServerFnError>>)
    ensures ShowWhen(read) <==> Guard.CheckResult(read) == Guard.Children
  {
  }

  /**
   * Once the check has settled, a refusal carries the same reason in both
   * guards, whatever the signal held before.
   */
  lemma SettledReasonAgrees(errMsg: string, read: Option<Result<Option<User>, ServerFnError>>)
    requires read.Some? && !ShowWhen(read)
    ensures Guard.CheckResult(read) == Guard.LoggingOut(NextErrMsg(errMsg, read))
  {
  }

  /**
   * While the check is pending, the old guard treats the user as logged
   * out: a freshly mounted guard renders "Unauthorized" and dispatches a
   * `ForceLogout` with an empty reason. The newer guard shows "Loading..."
   * instead (`Guard.CheckResult(None) == Guard.Loading`).
   */
  method PendingFirstRender() returns (v: LegacyView, dispatched: seq<string>)
    ensures v == Unauthorized && dispatched == [[]]
    ensures Guard.CheckResult(None) == Guard.Loading
  {
    var g := new AuthGuard();
    v := g.Render(None);
    dispatched := g.forceLogouts;
  }
}

# Session-authentication gate of hoops-client, in Dafny

This project models the session gate under `src/auth/` of hoops-client, a
Leptos web front end, and proves properties of that model. The gate has
four parts.

- **Token extraction** (`get_cookie_value`, `get_token`). The `jwt` session
  token is read from the request's `Cookie` headers. Each header is split on
  `;`, and each term on its first `=`. A term matches when its trimmed key
  is `jwt` and its trimmed value is not empty. The headers are scanned in
  order: the first match wins, and a header that is not text is an error.
- **The session check** (`is_logged_in`, `get_user`, `create_session_cookie`).
  A token is forwarded to the identity service, whose reply is classified
  by status. The install cookie `jwt=<token>; Path=/; HttpOnly` is built at
  login.
- **The gate decision.** There are two `AuthGuard` components:
  - the newer one in `guard.rs`, which shows "Loading..." while the check is
    pending and then renders the children or hands over to `Logout`;
  - the older one in `redirect.rs`, which answers a bool and keeps the
    refusal reason in a signal.
- **Logout** (`logout.rs`). The session cookie is destroyed, and then the
  browser is sent to `/login?msg=<percent-encoded reason>`.

Layout, one module per concern:

- `common.dfy`: `Option`/`Result`, `ServerFnError` and octets.
- `text.dfy`: Rust's `split`, `split_once` and `trim`.
- `scans.dfy`: `Iterator::find_map` and the early-return loop, for any per-item function.
- `cookies.dfy`: `get_cookie_value`, `HeaderValue::to_str` and the `get_token` loop.
- `session.dfy`: `get_user`, `is_logged_in`, `create_session_cookie`, and the install-cookie round trip.
- `percent.dfy`: `urlencoding::encode` over UTF-8, with a decoder for the round trip.
- `navigation.dfy`: `LOGIN_PATH` and `redirect_to_login`.
- `logout.dfy`: `Logout`, `server_destroy_cookie` and `destroy_cookie`.
- `guard.dfy`: the newer `AuthGuard` and `check_logged_in`.
- `legacy_guard.dfy`: the older `AuthGuard`.

Things the program does by side effect are modelled as imperative Dafny:

- `get_token`'s loop is a method proved against the function `TokenFrom`.
- The response's header list is a class field that `DestroyCookie` appends to.
- The router's history is a class field that `RedirectToLogin` appends to.
- The older guard is a class whose `errMsg` field plays the reason signal.

The outbound HTTP calls are inputs. A `Reply` is either a transport failure
or a status code with the outcome of parsing the body. The identity service
is a function from token to `Reply`.

`get_user` sends the client fixed messages only. A body that does not parse
is "Error parsing user data", a transport failure is "Whoops, there was
problem. Please try again." and any status other than 200 or 401 is "An
unknown error occurred.". The parse error and the transport error themselves
are only logged (`src/auth/mod.rs:141-147`, `155-158`), and the status is not
passed on (`src/auth/mod.rs:166`).

## Model

| member | source | states |
|---|---|---|
| Text.TrimStartMeaning | src/auth/mod.rs:70 | `trim_start` removes exactly a leading run of whitespace. What remains is empty iff the string is blank, and otherwise starts with a non-whitespace char. |
| Text.TrimEndMeaning | src/auth/mod.rs:70 | `trim_end` removes exactly a trailing run of whitespace. What remains is empty iff the string is blank, and otherwise ends with a non-whitespace char. |
| Text.TrimEmptyIffBlank | src/auth/mod.rs:70 | `v.trim().is_empty()` holds exactly when `v` is made of whitespace only. |
| Text.Trim | src/auth/mod.rs:70 | `str::trim`: drops leading and trailing Unicode White_Space. It has no contract of its own; `TrimStartMeaning`, `TrimEndMeaning`, `TrimEmptyIffBlank` and `TrimFixedPoint` carry its meaning. |
| Text.TrimFixedPoint | src/auth/mod.rs:70 | A string with no whitespace at either end is its own trim. |
| Text.Split | src/auth/mod.rs:68 | `split(';')` yields at least one piece (so `""` gives `[""]`). No piece contains the separator, and joining the pieces with it gives the input back. |
| Text.SplitJoin | src/auth/mod.rs:68 | Splitting the join of separator-free pieces gives back exactly those pieces, empty ones included. |
| Text.FirstIndexOf | src/auth/mod.rs:69 | None iff the char is absent. Otherwise an index holding the char, with no earlier occurrence. |
| Text.SplitOnce | src/auth/mod.rs:69 | `split_once('=')` is None iff there is no `=`. Otherwise the key, `=` and value rebuild the term, and the key holds no `=`. |
| Text.SplitOnceUnique | src/auth/mod.rs:69 | For `k=v` with no `=` in `k`, `split_once` yields exactly `(k, v)`, whatever `v` contains. |
| Cookies.TermValue | src/auth/mod.rs:69-74 | The closure given to `find_map`: split the term on its first `=` (`("", "")` when there is none) and keep the raw value when the trimmed key is the target and the trimmed value is not empty. `TermValueOf`, `TermValueShape` and `TermWithoutEqualsNeverMatches` carry its meaning. |
| Cookies.TermValueOf | src/auth/mod.rs:69-74 | A term `k=v` matches exactly when `k` trims to the key and `v` is not blank. The value returned is `v` untouched. |
| Cookies.TermValueShape | src/auth/mod.rs:69-71 | A value found is the raw text after the term's first `=` and may itself contain `=`. The key before it trims to the target, and the value is not blank. |
| Cookies.TermWithoutEqualsNeverMatches | src/auth/mod.rs:69-70 | A term without `=` becomes `("", "")` and never matches, not even for the key `""`. |
| Scans.FindMap | src/auth/mod.rs:68-75 | `find_map` gives None iff the closure gives None on every item. |
| Scans.FindMapFirst | src/auth/mod.rs:68-75 | When item i gives `Some` and no earlier item does, `find_map` yields item i's value: the first hit wins. |
| Scans.FindMapCons | src/auth/mod.rs:68-75 | The head decides when it gives `Some`. Otherwise the search goes on with the tail. |
| Scans.FirstDecisiveAfterMisses | src/auth/mod.rs:49-60 | Items whose verdict is "nothing here" do not stop the early-return scan. |
| Scans.FirstDecisiveIgnoresLater | src/auth/mod.rs:50-58 | Once a prefix decides, the items after it are never looked at. |
| Scans.FirstDecisiveNone | src/auth/mod.rs:49-63 | The scan ends with "nothing" iff every item's verdict is "nothing here". |
| Scans.FirstDecisiveAt | src/auth/mod.rs:49-58 | When the items before i are misses and item i is not, item i's verdict is the result. |
| Cookies.TermsNone | src/auth/mod.rs:66-76 | The search over the `;`-separated terms finds nothing iff no term matches the key. |
| Cookies.TermsFirstMatch | src/auth/mod.rs:66-76 | When term i matches and no earlier term does, the result is term i's value. |
| Cookies.GetCookieValue | src/auth/mod.rs:66-76 | `get_cookie_value`: `find_map` of `TermValue` over `Split(cookie, ';')`. `TermsNone` and `TermsFirstMatch` at `terms := Split(cookie, ';')` give its meaning (None iff no term matches; otherwise the first match), with `GetCookieValueCons` and `GetCookieValueSingle`. |
| Cookies.GetCookieValueCons | src/auth/mod.rs:66-76 | The first term decides when it matches. Otherwise the answer is that of the rest of the header. |
| Cookies.GetCookieValueSingle | src/auth/mod.rs:66-76 | A header without `;` is judged as a single term. |
| Cookies.ToStr | src/auth/mod.rs:50 | `to_str` succeeds iff every byte is visible ASCII or a tab, and then gives the same chars. |
| Cookies.ToStrAsciiBytes | src/auth/mod.rs:50 | Reading back the bytes of visible ASCII text gives the text. |
| Cookies.HeaderTokenOfText | src/auth/mod.rs:50-52 | A header of visible ASCII text contributes what `get_cookie_value(text, "jwt")` finds in it. |
| Cookies.HeaderToken | src/auth/mod.rs:50-58 | One pass of `get_token`'s loop body: an error with the `to_str` message for a header that is not visible ASCII, otherwise `Ok` of what `get_cookie_value(text, "jwt")` finds. `HeaderTokenOfText` and `ToStr` carry its meaning. |
| Cookies.TokenFromAfterMisses | src/auth/mod.rs:49-60 | Readable headers with no `jwt` do not stop the scan: the result is that of the remaining headers. |
| Cookies.TokenFromIgnoresLater | src/auth/mod.rs:50-58 | Once some headers decide (a token or an error), headers after them are never examined. |
| Cookies.TokenFromSingle | src/auth/mod.rs:49-63 | One header decides on its own. |
| Cookies.TokenFromNone | src/auth/mod.rs:49-63 | The result is `Ok(None)` iff every header is readable text and none carries a `jwt` value. |
| Cookies.TokenFromDecidingHeader | src/auth/mod.rs:49-58 | When the headers before header i are misses and header i is not, header i's token or error is the result. A non-text header is therefore an error only when reached before a match. |
| Cookies.GetToken | src/auth/mod.rs:48-64 | The loop with early returns computes exactly `TokenFrom` (the first unreadable header or `jwt` match decides; otherwise `Ok(None)`). |
| Session.GetUser | src/auth/mod.rs:135-168 | 200 with a parsed body is `Ok(Some(user))` with that user. 200 unparsed is "Error parsing user data". 401 is `Ok(None)`. Any other status is "An unknown error occurred.", and a transport failure is the "Whoops" message. |
| Session.IsLoggedIn | src/auth/mod.rs:32-46 | No request context gives `Ok(None)`, and so does no token; neither makes an identity call. A token is sent as is and the classified reply returned unchanged. A header error is passed on. |
| Session.NoTokenNoCall | src/auth/mod.rs:40-41 | When no header carries `jwt`, the check answers "not logged in" without calling the identity service. |
| Session.ForwardsFirstToken | src/auth/mod.rs:40-42 | The first header carrying `jwt` decides: exactly its token is sent. The verdict is "logged in" iff the service answers 200 with a user, and "not logged in" iff it answers 401. |
| Session.IsFieldValue | src/auth/mod.rs:110-112 | What `HeaderValue::from_str` accepts: every char visible, a space, a tab or non-ASCII. `SessionCookieValidIffToken` and `SessionCookieVisible` carry its meaning for the install cookie. |
| Session.SessionCookieText | src/auth/mod.rs:111 | The `format!` of the install cookie, `jwt=<token>; Path=/; HttpOnly`. `SessionCookieRoundTrip` and `SessionCookieReadBack` prove that `get_cookie_value` and `get_token` read the token back from it. |
| Session.SessionCookieValidIffToken | src/auth/mod.rs:110-111 | `jwt=<token>; Path=/; HttpOnly` is a valid header value exactly when the token is. |
| Session.SessionCookieVisible | src/auth/mod.rs:110-111 | The install cookie of a visible ASCII token is visible ASCII. |
| Session.CreateSessionCookie | src/auth/mod.rs:78-133 | Success iff 200 with a parsed token that is a valid header value, giving exactly `jwt=<access_token>; Path=/; HttpOnly`. 401 is the bad-credentials message. Another status or an invalid token is "An unknown error occurred.". A failed call or unparsed body is the "Whoops" message. |
| Session.PathTermIsNotToken | src/auth/mod.rs:111 | The cookie's ` Path=/` attribute never reads as a `jwt` value. |
| Session.HttpOnlyIsNotToken | src/auth/mod.rs:111 | The ` HttpOnly` attribute never reads as a `jwt` value. |
| Session.AttributesCarryNoToken | src/auth/mod.rs:111 | The attributes after the token yield no `jwt` value. |
| Session.SessionTermValue | src/auth/mod.rs:111 | The term `jwt=<t>` yields `t` unless `t` is blank. |
| Session.SessionCookieRoundTrip | src/auth/mod.rs:110-111 | Round trip: `get_cookie_value(create_session_cookie(token), "jwt")` is the token when it holds no `;` and is not blank. A blank token is never read back. |
| Session.SessionCookieReadBack | src/auth/mod.rs:110-111 | The install cookie's bytes, read by `get_token` as the only `Cookie` header, give back a visible-ASCII, non-blank, `;`-free token. |
| PercentEncoding.CharUtf8 | src/auth/guard.rs:90 | A char takes one to four UTF-8 octets. |
| PercentEncoding.CharUtf8RoundTrip | src/auth/guard.rs:90 | The lead octet of a char's UTF-8 form announces its length, and decoding that many octets gives the char back, whatever follows. |
| PercentEncoding.Utf8RoundTrip | src/auth/guard.rs:90 | UTF-8 decoding inverts UTF-8 encoding of any string. |
| PercentEncoding.HexDigit | src/auth/guard.rs:90 | The digit written for a nibble is an upper-case hex digit whose value is that nibble. |
| PercentEncoding.Encode | src/auth/guard.rs:90 | `urlencoding::encode`: the message's UTF-8 octets, with unreserved ASCII kept and every other octet written `%XX`. `DecodeEncode` and `EncodeInjective` carry its meaning. |
| PercentEncoding.EncodeBytes | src/auth/guard.rs:90 | The encoding holds only unreserved characters, `%` and upper-case hex digits. |
| PercentEncoding.DecodeEncodeBytes | src/auth/guard.rs:90 | Percent-decoding inverts percent-encoding of octets. |
| PercentEncoding.DecodeEncode | src/auth/guard.rs:90 | The encoded message is made of unreserved characters and `%XX` triplets only, and decodes back to the message. |
| PercentEncoding.EncodeInjective | src/auth/guard.rs:90 | Different messages have different encodings. |
| PercentEncoding.Utf8Concat | src/auth/guard.rs:90 | The UTF-8 encoding of a concatenation is the concatenation of the encodings. |
| PercentEncoding.EncodeBytesConcat | src/auth/guard.rs:90 | Percent-encoding works octet by octet. |
| PercentEncoding.EncodeConcat | src/auth/guard.rs:90 | The encoding of a concatenation is the concatenation of the encodings. |
| PercentEncoding.EncodeUnreservedText | src/auth/guard.rs:90 | Text made of unreserved characters is its own encoding. |
| PercentEncoding.EncodeSpaced | src/auth/guard.rs:90 | A space is written `%20`, with each side encoded on its own. |
| PercentEncoding.EncodeFiveWords | src/auth/guard.rs:90 | Space-separated words encode word by word, joined by `%20`. |
| Navigation.LoginRedirectPath | src/auth/guard.rs:90-91 | The target `redirect_to_login` builds, `LOGIN_PATH ++ "?msg=" ++ encode(msg)`. `LoginRedirectPathMeaning` and `LoginRedirectPathInjective` carry its meaning. |
| Navigation.LoginRedirectPathMeaning | src/auth/guard.rs:89-91 | The target starts with `/login?msg=`, and the rest decodes to exactly the message. |
| Navigation.LoginRedirectPathInjective | src/auth/guard.rs:89-91 | Different messages lead to different targets. |
| Navigation.RedirectToLogin | src/auth/guard.rs:89-104 | Exactly one navigation is recorded, to `LOGIN_PATH ++ "?msg=" ++ encode(msg)`. |
| Logout.DestroyCookie | src/auth/logout.rs:54-65 | With a response, exactly one `Set-Cookie` header carrying the logout cookie is appended, and the earlier headers are kept. With none, nothing changes. A logout cookie that cannot be built is excluded by the precondition (the `expect`). |
| Logout.ServerDestroyCookie | src/auth/logout.rs:48-52 | Always answers `Ok(())`, having destroyed the cookie. |
| Logout.LogoutResult | src/auth/logout.rs:27-45 | While the destroy call is pending, only the "taken back to the login page" text shows and no redirect happens. Once it resolves, `Ok` or `Err`, exactly one redirect with the component's own message is recorded. |
| Logout.LogoutFlow | src/auth/logout.rs:19-46 | A `Logout` first shows the pending text, then destroys the cookie, then ends redirected. One `Set-Cookie` is appended and one redirect with its message recorded. |
| Guard.CheckResult | src/auth/guard.rs:39-86 | Pending is "Loading..." only. Children iff `Ok(Some(_))`. `Logout("you have been logged out")` iff `Ok(None)`, and `Logout("an error occurred, please log in")` iff `Err`: the error detail never reaches the message. |
| Guard.CheckLoggedIn | src/auth/guard.rs:106-109 | Answers exactly what `is_logged_in` answers, forwarding the same token. |
| Guard.AuthGuard | src/auth/guard.rs:31-87 | The view is `CheckResult`'s. Children and "Loading..." never come with a redirect or a cookie change, and need no buildable logout cookie. A logout appends one `Set-Cookie` and records one redirect carrying its message. |
| Guard.TargetOf | src/auth/guard.rs:89-91 | A message whose encoding is known redirects to `/login?msg=` followed by that encoding. |
| Guard.LoggedOutEncoded | src/auth/guard.rs:53 | "you have been logged out" is encoded as `you%20have%20been%20logged%20out`. |
| Guard.LoggedOutTarget | src/auth/guard.rs:89-91 | A missing session redirects to `/login?msg=` followed by `you%20have%20been%20logged%20out`. |
| Guard.CheckFailedEncoded | src/auth/guard.rs:67 | "an error occurred, please log in" is encoded as `an%20error%20occurred%2C%20please%20log%20in`. |
| Guard.CheckFailedTarget | src/auth/guard.rs:89-91 | A failed check redirects to `/login?msg=` followed by `an%20error%20occurred%2C%20please%20log%20in`. |
| LegacyGuard.ShowWhen | src/auth/redirect.rs:30-53 | `check_result()` is true iff the check has settled on `Ok(Some(_))`. A pending check is false, through `unwrap_or(false)`. |
| LegacyGuard.NextErrMsg | src/auth/redirect.rs:34-51 | The reason becomes "you have been logged out" on `Ok(None)` and "an error occurred, please log in" on `Err`. It is unchanged on success or while pending. |
| LegacyGuard.AuthGuard.constructor | src/auth/redirect.rs:29 | The reason signal starts as the empty string, and no `ForceLogout` has been dispatched. |
| LegacyGuard.AuthGuard.CheckResult | src/auth/redirect.rs:30-53 | Answers `ShowWhen` and leaves the signal at `NextErrMsg` of its old value. |
| LegacyGuard.AuthGuard.LoggedOut | src/auth/redirect.rs:76-85 | Dispatches exactly one `ForceLogout` carrying the message unchanged. |
| LegacyGuard.AuthGuard.Render | src/auth/redirect.rs:63-73 | Children iff `check_result()` is true. Otherwise "Unauthorized", with one `ForceLogout` carrying the reason as `check_result` left it. |
| LegacyGuard.ShowWhenAgrees | src/auth/redirect.rs:33-36 | The old guard shows the children exactly when the new one does. |
| LegacyGuard.SettledReasonAgrees | src/auth/redirect.rs:39-49 | Once the check has settled, a refusal carries the same reason in both guards, whatever the signal held before. |
| LegacyGuard.PendingFirstRender | src/auth/redirect.rs:29-70 | A freshly mounted old guard with the check still pending renders "Unauthorized" and dispatches `ForceLogout` with the empty reason. The new guard shows "Loading..." for the same input. |

## Left out

- The outbound HTTP calls to the identity service (`reqwest`, the `localhost:8000` URLs, the form body and the `Authorization` header) are not modelled. Their outcome is an input: a transport failure, or a status with a parsed body or none.
- JSON deserialisation of `User` and `Token` is an abstract parse: the body is `Some` when it parsed. The `"bearer"` alias of `TokenType` is therefore only a note on the datatype.
- The user's UUID is kept as text.
- `HeaderValue` internals are reduced to two checks on chars. `from_str` accepts visible chars, space, tab and non-ASCII. `to_str` accepts visible ASCII and tab. Header values are modelled as octets only on the reading side.
- Cookies.GetToken: the header values are a sequence given in order. The `GetAll` iterator of the `http` crate is not modelled.
- `create_logout_cookie` is referenced by `src/auth/logout.rs` but is not part of this model. Its result is an input to `DestroyCookie`, and its `expect` is a precondition.
- Leptos reactivity is reduced to "pending or settled with a value". This covers resources, server actions and their versions, signals, `use_context` and the `Suspense` fallbacks. A pending resource is `None` and a missing context is `null` or `None`. Re-runs after an action's version changes are not modelled.
- LegacyGuard.AuthGuard.Render returns the branch the `Show` picks. The `Suspense` "Loading..." that Leptos draws over it while the check is pending is not modelled.
- `force_logout` is `todo!()` in the source: dispatching it is recorded, and what it would do is not modelled.
- `redirect_to_login` redirects through axum on the server and through the router in the browser. Both become one recorded navigation in `Router`. A navigation error in the browser is only logged, so it is not modelled.
- On the server, `leptos_axum::redirect` also sets the response status and a `Location` header on the same response options that `DestroyCookie` appends to. `leptos_axum` is not part of this model, so `Guard.AuthGuard`, `Logout.LogoutFlow` and `Navigation.RedirectToLogin` state only the `Set-Cookie` header and the recorded navigation, not the whole server-side effect on the response.
- Logging (`log::*`, `dbg!`) is not modelled.
- `check_logged_in` of `src/auth/redirect.rs:87-90` is the same function as that of `src/auth/guard.rs:106-109`, so it is modelled once, as `Guard.CheckLoggedIn`.
- The UI and routing files (`src/app.rs`, `src/routes/`, `src/components/`, `src/lib.rs`) are not part of this model, apart from `LOGIN_PATH` (`src/routes/mod.rs:17`).
- The session check makes a fresh call every time and has no cache. Its idempotence holds in the model because `identity` is a function. Repeated calls returning the same answer is therefore not stated separately.
- PercentEncoding.Decode is not a full percent-decoder. It accepts only unreserved characters and `%XX` triplets, which is all that `Encode` produces. It exists to state the round trip.
- Guard.CheckFailedTarget states its target as `"/login?msg=" + "an%20error%20occurred%2C%20please%20log%20in"`, a concatenation of two literals rather than the single literal, for the solver's sake.
- Guard.LoggedOutTarget likewise states its target as `"/login?msg=" + "you%20have%20been%20logged%20out"`.

## Findings

| source | as written | input that shows it | evidently intended | confidence | as-written member | corrected member |
|---|---|---|---|---|---|---|
| src/auth/redirect.rs:29-70 | `check_result` reads a pending check as `false` through `unwrap_or(false)`. The `Show` then renders `LoggedOut` with the reason signal, which still holds its initial `""`. | The first render of a freshly mounted guard, while `check_logged_in` is still pending. | Wait while pending: no `LoggedOut` and no `ForceLogout` until the check settles. The TODO at lines 55-58 says so, and `src/auth/guard.rs` does so. | not executed; the authors' own TODO at lines 57-58 describes it | LegacyGuard.PendingFirstRender | Guard.CheckResult |

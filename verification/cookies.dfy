/**
 * Reading the session token out of the request's `Cookie` headers
 * (`get_cookie_value` and `get_token` in src/auth/mod.rs). The parser is a
 * simplified reading of the cookie-string of section 4.2.1 of RFC 6265: it
 * splits on `;`, then each term on its first `=`, and compares trimmed text.
 */
module Cookies {
  import opened Wrappers
  import opened Errors
  import opened Text
  import opened Octets
  import opened Scans

  /** The cookie that carries the session token. */
  const SESSION_COOKIE: string := "jwt"

  /** The text of `http::header::ToStrError`, which `get_token` passes on. */
  const TO_STR_ERROR: string := "failed to convert header to a str"

  /**
   * The verdict on one `;`-separated term: split it on its first `=` (a term
   * without `=` becomes ("", "")), and keep the raw text after the `=` when
   * the trimmed key is `key` and the trimmed value is not empty.
   */
  function TermValue(term: string, key: string): Option<string> {
    var kv := SplitOnce(term, '=').GetOr(([], []));
    if Trim(kv.0) == key && Trim(kv.1) != [] then Some(kv.1) else None
  }

  /** A term `k=v` whose key holds no `=` matches exactly when `k` trims to the key and `v` is not blank; the value is `v` untouched. */
  lemma TermValueOf(k: string, v: string, key: string)
    requires '=' !in k
    ensures TermValue(k + "=" + v, key) == if Trim(k) == key && !IsBlank(v) then Some(v) else None
  {
    SplitOnceUnique(k, '=', v);
    TrimEmptyIffBlank(v);
  }

  /** Whatever a matching term yields is the raw, untrimmed text after its first `=`. */
  lemma TermValueShape(term: string, key: string)
    requires TermValue(term, key).Some?
    ensures var v := TermValue(term, key).value;
            var k := term[..|term| - |v| - 1];
            |v| < |term| && term == k + "=" + v && '=' !in k && Trim(k) == key && !IsBlank(v)
  {
    var kv := SplitOnce(term, '=').value;
    TrimEmptyIffBlank(kv.1);
    assert term[..|term| - |kv.1| - 1] == kv.0;
  }

  /** A term without `=` never matches, not even the empty key: its value is empty. */
  lemma TermWithoutEqualsNeverMatches(term: string, key: string)
    requires '=' !in term
    ensures TermValue(term, key) == None
  {
  }

  /** The closure `get_cookie_value` hands to `find_map`. */
  function Matcher(key: string): string -> Option<string> {
    (t: string) => TermValue(t, key)
  }

  /** `get_cookie_value(cookie, key)`: `find_map` over the `;`-separated terms. */
  function GetCookieValue(cookie: string, key: string): Option<string> {
    FindMap(Split(cookie, ';'), Matcher(key))
  }

  /** Over any terms, the search finds nothing exactly when no term matches. */
  lemma TermsNone(terms: seq<string>, key: string)
    ensures FindMap(terms, Matcher(key)).None? <==> forall i :: 0 <= i < |terms| ==> TermValue(terms[i], key).None?
  {
    var f := Matcher(key);
    assert forall i :: 0 <= i < |terms| ==> f(terms[i]) == TermValue(terms[i], key);
  }

  /** Over any terms, the first matching term wins. */
  lemma TermsFirstMatch(terms: seq<string>, key: string, i: nat)
    requires i < |terms| && TermValue(terms[i], key).Some?
    requires forall j :: 0 <= j < i ==> TermValue(terms[j], key).None?
    ensures FindMap(terms, Matcher(key)) == TermValue(terms[i], key)
  {
    var f := Matcher(key);
    assert forall j :: 0 <= j <= i ==> f(terms[j]) == TermValue(terms[j], key);
    FindMapFirst(terms, f, i);
  }

  /** The first term decides when it matches; otherwise the search goes on with the rest of the header. */
  lemma {:induction false} GetCookieValueCons(term: string, rest: string, key: string)
    requires ';' !in term
    ensures GetCookieValue(term + ";" + rest, key) ==
            if TermValue(term, key).Some? then TermValue(term, key) else GetCookieValue(rest, key)
  {
    var parts := [term] + Split(rest, ';');
    assert parts[1..] == Split(rest, ';');
    assert Join(parts, ';') == term + ";" + rest;
    SplitJoin(parts, ';');
    FindMapCons(term, Split(rest, ';'), Matcher(key));
  }

  /** A header with no `;` is a single term. */
  lemma GetCookieValueSingle(term: string, key: string)
    requires ';' !in term
    ensures GetCookieValue(term, key) == TermValue(term, key)
  {
    SplitJoin([term], ';');
  }

  /** A visible ASCII byte, or a tab: what `HeaderValue::to_str` accepts. */
  predicate IsVisibleAscii(b: byte) {
    (32 <= b < 127) || b == 9
  }

  /** `HeaderValue::to_str`: the header's text when every byte is visible ASCII. */
  function ToStr(h: seq<byte>): (r: Option<string>)
    ensures r.Some? <==> forall i :: 0 <= i < |h| ==> IsVisibleAscii(h[i])
    ensures r.Some? ==> |r.value| == |h| && forall i :: 0 <= i < |h| ==> r.value[i] as int == h[i] as int
  {
    if forall i :: 0 <= i < |h| ==> IsVisibleAscii(h[i])
    then Some(seq(|h|, i requires 0 <= i < |h| => (h[i] as int) as char))
    else None
  }

  /** The bytes of an ASCII string. */
  function AsciiBytes(s: string): (b: seq<byte>)
    requires forall i :: 0 <= i < |s| ==> s[i] as int < 256
  {
    seq(|s|, i requires 0 <= i < |s| => (s[i] as int) as byte)
  }

  /** Reading back the bytes of a visible ASCII string gives the string. */
  lemma ToStrAsciiBytes(s: string)
    requires forall i :: 0 <= i < |s| ==> (32 <= s[i] as int < 127 || s[i] == '\t')
    ensures ToStr(AsciiBytes(s)) == Some(s)
  {
    var r := ToStr(AsciiBytes(s)).value;
    assert forall i :: 0 <= i < |s| ==> r[i] == s[i];
    assert r == s;
  }

  /** What one `Cookie` header contributes to the scan: an error, a token, or nothing. */
  function HeaderToken(h: seq<byte>): Result<Option<string>, ServerFnError> {
    match ToStr(h)
    case None => Err(ServerError(TO_STR_ERROR))
    case Some(s) => Ok(GetCookieValue(s, SESSION_COOKIE))
  }

  /** A header of visible ASCII text contributes what `get_cookie_value` finds in that text. */
  lemma HeaderTokenOfText(s: string)
    requires forall i :: 0 <= i < |s| ==> (32 <= s[i] as int < 127 || s[i] == '\t')
    ensures HeaderToken(AsciiBytes(s)) == Ok(GetCookieValue(s, SESSION_COOKIE))
  {
    ToStrAsciiBytes(s);
  }

  /** The result `get_token` computes: the first header that is unreadable or carries a token decides. */
  function TokenFrom(headers: seq<seq<byte>>): Result<Option<string>, ServerFnError> {
    FirstDecisive(headers, HeaderToken)
  }

  /** Every header is readable text and none carries a `jwt` value. */
  predicate AllMiss(headers: seq<seq<byte>>) {
    forall i :: 0 <= i < |headers| ==> HeaderToken(headers[i]) == Ok(None)
  }

  /** A header with no `jwt` does not stop the scan. */
  lemma TokenFromAfterMisses(a: seq<seq<byte>>, b: seq<seq<byte>>)
    requires AllMiss(a)
    ensures TokenFrom(a + b) == TokenFrom(b)
  {
    FirstDecisiveAfterMisses(a, b, HeaderToken);
  }

  /** Once a prefix of the headers decides (a token or an error), later headers are never examined. */
  lemma TokenFromIgnoresLater(a: seq<seq<byte>>, b: seq<seq<byte>>)
    requires TokenFrom(a) != Ok(None)
    ensures TokenFrom(a + b) == TokenFrom(a)
  {
    FirstDecisiveIgnoresLater(a, b, HeaderToken);
  }

  /** A single header decides on its own. */
  lemma TokenFromSingle(h: seq<byte>)
    ensures TokenFrom([h]) == HeaderToken(h)
  {
    if HeaderToken(h) == Ok(None) {
      FirstDecisiveNone([h], HeaderToken);
    } else {
      FirstDecisiveAt([h], HeaderToken, 0);
    }
  }

  /** No token anywhere is `Ok(None)` and nothing else is. */
  lemma TokenFromNone(headers: seq<seq<byte>>)
    ensures TokenFrom(headers) == Ok(None) <==> AllMiss(headers)
  {
    FirstDecisiveNone(headers, HeaderToken);
  }

  /** When headers 0..i-1 are misses and header i is not, header i decides the result. */
  lemma TokenFromDecidingHeader(headers: seq<seq<byte>>, i: nat)
    requires i < |headers| && AllMiss(headers[..i]) && HeaderToken(headers[i]) != Ok(None)
    ensures TokenFrom(headers) == HeaderToken(headers[i])
  {
    assert forall j :: 0 <= j < i ==> headers[j] == headers[..i][j];
    FirstDecisiveAt(headers, HeaderToken, i);
  }

  /**
   * `get_token`: walk the `Cookie` headers in order and return on the first
   * one that cannot be read as text (an error) or that carries a `jwt` value.
   */
  method GetToken(headers: seq<seq<byte>>) returns (r: Result<Option<string>, ServerFnError>)
    ensures r == TokenFrom(headers)
  {
    var i := 0;
    while i < |headers|
      invariant 0 <= i <= |headers|
      invariant TokenFrom(headers) == FirstDecisive(headers[i..], HeaderToken)
    {
      assert headers[i..][1..] == headers[i + 1..];
      match ToStr(headers[i])
      case None =>
        return Err(ServerError(TO_STR_ERROR));
      case Some(cookie) =>
        var token := GetCookieValue(cookie, SESSION_COOKIE);
        if token.Some? {
          return Ok(Some(token.value));
        }
      i := i + 1;
    }
    return Ok(None);
  }
}

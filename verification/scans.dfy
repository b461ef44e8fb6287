/**
 * The two ways the session gate searches a sequence: `Iterator::find_map`,
 * and a loop that returns early on the first item whose verdict is not
 * "nothing here" (`Ok(None)`). Both are stated for any per-item function,
 * so the facts about the search are proved once, apart from what is
 * searched for.
 */
module Scans {
  import opened Wrappers

  /** `Iterator::find_map`: the first `Some` that `f` gives, in order; None when it gives none. */
  function FindMap<T, U>(xs: seq<T>, f: T -> Option<U>): (r: Option<U>)
    ensures r.None? <==> forall i :: 0 <= i < |xs| ==> f(xs[i]).None?
  {
    if xs == [] then None
    else if f(xs[0]).Some? then f(xs[0])
    else
      var r := FindMap(xs[1..], f);
      assert forall i :: 1 <= i < |xs| ==> xs[i] == xs[1..][i - 1];
      r
  }

  /** When item i gives `Some` and no item before it does, `find_map` yields item i's value. */
  lemma {:induction false} FindMapFirst<T, U>(xs: seq<T>, f: T -> Option<U>, i: nat)
    requires i < |xs| && f(xs[i]).Some?
    requires forall j :: 0 <= j < i ==> f(xs[j]).None?
    ensures FindMap(xs, f) == f(xs[i])
  {
    if i > 0 {
      assert forall j :: 0 <= j < i - 1 ==> xs[1..][j] == xs[j + 1];
      FindMapFirst(xs[1..], f, i - 1);
    }
  }

  /** The head decides when it gives `Some`; otherwise the search goes on with the tail. */
  lemma FindMapCons<T, U>(x: T, xs: seq<T>, f: T -> Option<U>)
    ensures FindMap([x] + xs, f) == if f(x).Some? then f(x) else FindMap(xs, f)
  {
    assert ([x] + xs)[0] == x && ([x] + xs)[1..] == xs;
  }

  /** The early-return scan: the first verdict other than `Ok(None)` decides; `Ok(None)` when none does. */
  function FirstDecisive<T, U, E>(xs: seq<T>, verdict: T -> Result<Option<U>, E>): Result<Option<U>, E> {
    if xs == [] then Ok(None)
    else if verdict(xs[0]) != Ok(None) then verdict(xs[0])
    else FirstDecisive(xs[1..], verdict)
  }

  /** Items whose verdict is `Ok(None)` do not stop the scan. */
  lemma {:induction false} FirstDecisiveAfterMisses<T, U, E>(a: seq<T>, b: seq<T>, verdict: T -> Result<Option<U>, E>)
    requires forall i :: 0 <= i < |a| ==> verdict(a[i]) == Ok(None)
    ensures FirstDecisive(a + b, verdict) == FirstDecisive(b, verdict)
  {
    if a == [] {
      assert a + b == b;
    } else {
      assert (a + b)[0] == a[0] && (a + b)[1..] == a[1..] + b;
      FirstDecisiveAfterMisses(a[1..], b, verdict);
    }
  }

  /** Once a prefix decides, the items after it are never looked at. */
  lemma {:induction false} FirstDecisiveIgnoresLater<T, U, E>(a: seq<T>, b: seq<T>, verdict: T -> Result<Option<U>, E>)
    requires FirstDecisive(a, verdict) != Ok(None)
    ensures FirstDecisive(a + b, verdict) == FirstDecisive(a, verdict)
  {
    assert (a + b)[0] == a[0];
    if verdict(a[0]) == Ok(None) {
      assert (a + b)[1..] == a[1..] + b;
      FirstDecisiveIgnoresLater(a[1..], b, verdict);
    }
  }

  /** The scan finds nothing exactly when every verdict is `Ok(None)`. */
  lemma {:induction false} FirstDecisiveNone<T, U, E>(xs: seq<T>, verdict: T -> Result<Option<U>, E>)
    ensures FirstDecisive(xs, verdict) == Ok(None) <==> forall i :: 0 <= i < |xs| ==> verdict(xs[i]) == Ok(None)
  {
    if xs != [] {
      FirstDecisiveNone(xs[1..], verdict);
      assert forall i :: 1 <= i < |xs| ==> xs[i] == xs[1..][i - 1];
    }
  }

  /** When items before i are misses and item i is not, item i's verdict is the result. */
  lemma FirstDecisiveAt<T, U, E>(xs: seq<T>, verdict: T -> Result<Option<U>, E>, i: nat)
    requires i < |xs| && verdict(xs[i]) != Ok(None)
    requires forall j :: 0 <= j < i ==> verdict(xs[j]) == Ok(None)
    ensures FirstDecisive(xs, verdict) == verdict(xs[i])
  {
    assert xs == xs[..i] + xs[i..];
    assert xs[i..][0] == xs[i];
    FirstDecisiveAfterMisses(xs[..i], xs[i..], verdict);
  }
}

/**
 * The few `str` operations the cookie parser relies on, with the meaning
 * Rust's standard library gives them: `split` on a char, `split_once` on a
 * char, and `trim` (Unicode White_Space on both ends).
 */
module Text {
  import opened Wrappers

  /** Rust's `char::is_whitespace`: the Unicode White_Space property. */
  predicate IsWhitespace(c: char) {
    var n := c as int;
    (0x09 <= n <= 0x0D) || n == 0x20 || n == 0x85 || n == 0xA0 || n == 0x1680 ||
    (0x2000 <= n <= 0x200A) || n == 0x2028 || n == 0x2029 || n == 0x202F ||
    n == 0x205F || n == 0x3000
  }

  /** A string made of whitespace only (the empty string included). */
  predicate IsBlank(s: string) {
    forall i :: 0 <= i < |s| ==> IsWhitespace(s[i])
  }

  /** `str::trim_start`: drop leading whitespace. */
  function TrimStart(s: string): string
    decreases |s|
  {
    if s != [] && IsWhitespace(s[0]) then TrimStart(s[1..]) else s
  }

  /** `str::trim_end`: drop trailing whitespace. */
  function TrimEnd(s: string): string
    decreases |s|
  {
    if s != [] && IsWhitespace(s[|s| - 1]) then TrimEnd(s[..|s| - 1]) else s
  }

  /** `str::trim`. */
  function Trim(s: string): string {
    TrimEnd(TrimStart(s))
  }

  /** Trimming the start leaves a suffix that is empty exactly for a blank string and otherwise starts with a non-space. */
  lemma {:induction false} TrimStartMeaning(s: string)
    ensures var r := TrimStart(s);
            |r| <= |s| && r == s[|s| - |r|..] && IsBlank(s[..|s| - |r|]) &&
            (r == [] <==> IsBlank(s)) && (r == [] || !IsWhitespace(r[0]))
    decreases |s|
  {
    if s != [] && IsWhitespace(s[0]) {
      TrimStartMeaning(s[1..]);
      var r := TrimStart(s);
      assert s[..|s| - |r|] == [s[0]] + s[1..][..|s| - 1 - |r|];
      assert IsBlank(s[1..]) ==> IsBlank(s);
    } else if s != [] {
      assert !IsBlank(s);
    }
  }

  /** Trimming the end leaves a prefix that is empty exactly for a blank string and otherwise ends with a non-space. */
  lemma {:induction false} TrimEndMeaning(s: string)
    ensures var r := TrimEnd(s);
            |r| <= |s| && r == s[..|r|] && IsBlank(s[|r|..]) &&
            (r == [] <==> IsBlank(s)) && (r == [] || !IsWhitespace(r[|r| - 1]))
    decreases |s|
  {
    if s != [] && IsWhitespace(s[|s| - 1]) {
      var p := s[..|s| - 1];
      TrimEndMeaning(p);
      var r := TrimEnd(s);
      assert s[|r|..] == p[|r|..] + [s[|s| - 1]];
      assert IsBlank(p) ==> IsBlank(s);
    } else if s != [] {
      assert !IsBlank(s);
    }
  }

  /** Trimming leaves nothing exactly when the string is blank. */
  lemma TrimEmptyIffBlank(s: string)
    ensures Trim(s) == [] <==> IsBlank(s)
  {
    TrimStartMeaning(s);
    var t := TrimStart(s);
    TrimEndMeaning(t);
    if t != [] {
      assert !IsBlank(t);
    }
  }

  /** A string with no whitespace at either end is its own trim. */
  lemma TrimFixedPoint(s: string)
    requires s == [] || (!IsWhitespace(s[0]) && !IsWhitespace(s[|s| - 1]))
    ensures Trim(s) == s
  {
  }

  /** The parts of a `split` put back together with the separator. */
  function Join(parts: seq<string>, d: char): string {
    if parts == [] then []
    else if |parts| == 1 then parts[0]
    else parts[0] + [d] + Join(parts[1..], d)
  }

  /**
   * `str::split(d)`: the pieces between separators, in order. The empty
   * string gives one empty piece, and a trailing separator gives a trailing
   * empty piece.
   */
  function Split(s: string, d: char): (parts: seq<string>)
    ensures |parts| >= 1
    ensures forall i :: 0 <= i < |parts| ==> d !in parts[i]
    ensures Join(parts, d) == s
    decreases |s|
  {
    if s == [] then [[]]
    else
      var rest := Split(s[1..], d);
      if s[0] == d then [[]] + rest
      else [[s[0]] + rest[0]] + rest[1..]
  }

  /** Joining pieces that do not contain the separator and splitting again gives them back. */
  lemma {:induction false} SplitJoin(parts: seq<string>, d: char)
    requires |parts| >= 1
    requires forall i :: 0 <= i < |parts| ==> d !in parts[i]
    ensures Split(Join(parts, d), d) == parts
    decreases |parts|, |parts[0]|
  {
    var p := parts[0];
    if |parts| == 1 {
      if p != [] {
        SplitJoin([p[1..]], d);
        assert Join([p[1..]], d) == p[1..];
        assert Join(parts, d)[1..] == p[1..];
      }
    } else if p == [] {
      assert Join(parts, d) == [d] + Join(parts[1..], d);
      assert Join(parts, d)[1..] == Join(parts[1..], d);
      SplitJoin(parts[1..], d);
    } else {
      var shorter := [p[1..]] + parts[1..];
      assert shorter[1..] == parts[1..];
      assert Join(parts, d) == [p[0]] + Join(shorter, d);
      assert Join(parts, d)[1..] == Join(shorter, d);
      SplitJoin(shorter, d);
      assert [p[0]] + p[1..] == p;
    }
  }

  /** The position of the first occurrence of `c` in `s`, if any. */
  function FirstIndexOf(s: string, c: char): (r: Option<nat>)
    ensures r.None? <==> c !in s
    ensures r.Some? ==> r.value < |s| && s[r.value] == c && c !in s[..r.value]
  {
    if c !in s then None
    else if s[0] == c then Some(0)
    else
      var i := FirstIndexOf(s[1..], c);
      assert s[..i.value + 1] == [s[0]] + s[1..][..i.value];
      Some(i.value + 1)
  }

  /**
   * `str::split_once(c)`: the text before and after the first `c`, or None
   * when `s` has no `c`.
   */
  function SplitOnce(s: string, c: char): (r: Option<(string, string)>)
    ensures r.None? <==> c !in s
    ensures r.Some? ==> r.value.0 + [c] + r.value.1 == s && c !in r.value.0
  {
    match FirstIndexOf(s, c)
    case None => None
    case Some(i) =>
      assert s[..i] + [c] + s[i + 1..] == s;
      Some((s[..i], s[i + 1..]))
  }

  /** Any split around an occurrence of `c` that leaves no `c` on the left is the one `split_once` finds. */
  lemma SplitOnceUnique(k: string, c: char, v: string)
    requires c !in k
    ensures SplitOnce(k + [c] + v, c) == Some((k, v))
  {
    var s := k + [c] + v;
    var i := FirstIndexOf(s, c).value;
    assert s[..|k|] == k && s[|k|] == c;
    assert forall j :: |k| < j <= |s| ==> s[..j][|k|] == c;
    assert s[..|k|] == k;
    assert s[|k| + 1..] == v;
  }
}

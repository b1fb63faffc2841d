/** The handful of Python `str` operations the tools rely on: `strip()`,
    `split(sep, 1)` and `split(sep)[0]`. */
module Strings {

  /** Python's `str.isspace()`: the characters `strip()` removes and `\s`
      matches in a `str` pattern. */
  predicate IsSpace(c: char) {
    || ('\t' <= c <= '\r')
    || ('\U{1C}' <= c <= ' ')
    || c == '\U{85}' || c == '\U{A0}' || c == '\U{1680}'
    || ('\U{2000}' <= c <= '\U{200A}')
    || c == '\U{2028}' || c == '\U{2029}' || c == '\U{202F}'
    || c == '\U{205F}' || c == '\U{3000}'
  }

  predicate AllSpace(s: string) {
    forall i :: 0 <= i < |s| ==> IsSpace(s[i])
  }

  /** Neither end of `s` is whitespace. */
  predicate IsStripped(s: string) {
    s == [] || (!IsSpace(s[0]) && !IsSpace(s[|s| - 1]))
  }

  /** Length of the whitespace run at the front of `s`. */
  function LeadingSpaces(s: string): (n: nat)
    ensures n <= |s|
    ensures AllSpace(s[..n])
    ensures n < |s| ==> !IsSpace(s[n])
  {
    if s == [] || !IsSpace(s[0]) then 0
    else
      var n := 1 + LeadingSpaces(s[1..]);
      assert s[..n] == [s[0]] + s[1..][..n - 1];
      n
  }

  /** Length of the whitespace run at the back of `s`. */
  function TrailingSpaces(s: string): (n: nat)
    ensures n <= |s|
    ensures AllSpace(s[|s| - n..])
    ensures n < |s| ==> !IsSpace(s[|s| - n - 1])
  {
    if s == [] || !IsSpace(s[|s| - 1]) then 0
    else
      var init := s[..|s| - 1];
      var n := 1 + TrailingSpaces(init);
      assert s[|s| - n..] == init[|init| - (n - 1)..] + [s[|s| - 1]];
      n
  }

  /** `s.strip()`: what is left of `s` after dropping whitespace at both
      ends. */
  function Strip(s: string): (r: string)
    ensures IsStripped(r)
    ensures |r| <= |s|
  {
    var a := LeadingSpaces(s);
    var t := s[a..];
    var m := TrailingSpaces(t);
    var r := t[..|t| - m];
    assert r == s[a..|s| - m];
    assert r != [] ==> r[0] == s[a] && r[|r| - 1] == t[|t| - m - 1];
    r
  }

  /** Stripping removes only whitespace, and only at the ends: the result is
      a slice of `s` with nothing but whitespace on either side of it. */
  lemma StripIsTrimmedSlice(s: string)
    ensures exists a, b :: 0 <= a <= b <= |s| && Strip(s) == s[a..b]
                           && AllSpace(s[..a]) && AllSpace(s[b..])
  {
    var a := LeadingSpaces(s);
    var t := s[a..];
    var m := TrailingSpaces(t);
    var b := |s| - m;
    assert t[|t| - m..] == s[b..];
    assert Strip(s) == s[a..b];
  }

  /** Stripping is idempotent, and a string with no whitespace at either end
      is its own strip. */
  lemma StrippedIsFixpoint(s: string)
    requires IsStripped(s)
    ensures Strip(s) == s
  {
    if s != [] {
      assert LeadingSpaces(s) == 0;
      assert TrailingSpaces(s) == 0;
    }
  }

  lemma StripIdempotent(s: string)
    ensures Strip(Strip(s)) == Strip(s)
  {
    StrippedIsFixpoint(Strip(s));
  }

  /** A string strips to nothing exactly when it is all whitespace. */
  lemma StripEmptyIffAllSpace(s: string)
    ensures Strip(s) == [] <==> AllSpace(s)
  {
    var a := LeadingSpaces(s);
    var t := s[a..];
    var m := TrailingSpaces(t);
    if a < |s| {
      assert t[0] == s[a] && !IsSpace(t[0]);
      assert Strip(s) == s[a..|s| - m];
      assert !AllSpace(s) by { assert !IsSpace(s[a]); }
    } else {
      assert s[..a] == s;
      assert Strip(s) == s[a..|s| - m];
    }
  }

  /** Index of the first `c` in `s`, or `|s|` when there is none. */
  function FirstIndex(s: string, c: char): (i: nat)
    ensures i <= |s|
    ensures c !in s[..i]
    ensures i < |s| <==> c in s
    ensures i < |s| ==> s[i] == c
  {
    if s == [] then 0
    else if s[0] == c then 0
    else
      var i := 1 + FirstIndex(s[1..], c);
      assert s[..i] == [s[0]] + s[1..][..i - 1];
      i
  }

  /** `s.split(c, 1)[0]`, and equally `s.split(c)[0]`: everything before the
      first `c`, or all of `s`. */
  function BeforeFirst(s: string, c: char): (r: string)
    ensures c !in r
  {
    s[..FirstIndex(s, c)]
  }

  /** `s.split(c, 1)[1]` when `c in s`: everything after the first `c`. */
  function AfterFirst(s: string, c: char): (r: string)
    requires c in s
    ensures |r| < |s|
  {
    s[FirstIndex(s, c) + 1..]
  }

  /** Splitting at the first separator loses nothing: the two halves and the
      separator rejoin to the original string. */
  lemma SplitFirstRejoins(s: string, c: char)
    requires c in s
    ensures BeforeFirst(s, c) + [c] + AfterFirst(s, c) == s
    ensures c !in BeforeFirst(s, c)
  {
    var i := FirstIndex(s, c);
    assert s == s[..i] + [s[i]] + s[i + 1..];
  }

  /** The first `c` is at `i` when `s[i] == c` and no earlier character is. */
  lemma FirstIndexAt(s: string, c: char, i: nat)
    requires i < |s| && s[i] == c
    requires forall j :: 0 <= j < i ==> s[j] != c
    ensures FirstIndex(s, c) == i
  {
  }

  /** Splitting `left + [c] + right` at its first `c`, when `left` has none,
      gives back `left` and `right`. */
  lemma SplitFirstOfJoin(left: string, c: char, right: string)
    requires c !in left
    ensures c in left + [c] + right
    ensures BeforeFirst(left + [c] + right, c) == left
    ensures AfterFirst(left + [c] + right, c) == right
  {
    var s := left + [c] + right;
    FirstIndexAt(s, c, |left|);
    assert s[..|left|] == left;
  }

  /** Without a separator, the "before" half is the whole string. */
  lemma BeforeFirstWithoutSeparator(s: string, c: char)
    requires c !in s
    ensures BeforeFirst(s, c) == s
  {
  }
}

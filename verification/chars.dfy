/**
 * Character classes and small string helpers with Python's meaning,
 * restricted to ASCII: `str.isspace()` / regex `\s`, regex `\w`,
 * `str.lower()` and `str.strip()`.
 */
module Chars {

  /** Python whitespace within ASCII: tab, LF, VT, FF, CR, the four
      information separators 0x1C-0x1F, and space. */
  predicate IsSpace(c: char) {
    (9 <= c as int <= 13) || (28 <= c as int <= 31) || c == ' '
  }

  predicate IsDigit(c: char) {
    '0' <= c <= '9'
  }

  predicate IsUpper(c: char) {
    'A' <= c <= 'Z'
  }

  /** Regex `\w` within ASCII: letters, digits and underscore. */
  predicate IsWordChar(c: char) {
    IsDigit(c) || IsUpper(c) || ('a' <= c <= 'z') || c == '_'
  }

  /** The characters a separator-split treats as part of no word. */
  predicate IsNonWord(c: char) {
    !IsWordChar(c)
  }

  /** `str.lower()` on one ASCII character. */
  function Lower(c: char): (r: char)
    ensures IsWordChar(r) <==> IsWordChar(c)
    ensures IsSpace(r) <==> IsSpace(c)
    ensures !IsUpper(r)
    ensures !IsUpper(c) ==> r == c
  {
    if IsUpper(c) then (c as int + 32) as char else c
  }

  function LowerStr(s: string): (r: string)
    ensures |r| == |s|
    ensures forall i :: 0 <= i < |s| ==> r[i] == Lower(s[i])
  {
    seq(|s|, i requires 0 <= i < |s| => Lower(s[i]))
  }

  /** The whitespace C's `isspace` sees in ASCII: tab, LF, VT, FF, CR and
      space. This is what `int()` skips around an ASCII numeral; the
      information separators 0x1C-0x1F are not among them. */
  predicate IsCSpace(c: char) {
    (9 <= c as int <= 13) || c == ' '
  }

  /** Drop the leading characters of the class `space`; with `IsSpace`
      this is `str.lstrip()`. */
  function TrimStart(s: string, space: char -> bool): (r: string)
    ensures |r| <= |s|
    ensures r == s[|s| - |r|..]
    ensures r == [] || !space(r[0])
    ensures forall i :: 0 <= i < |s| - |r| ==> space(s[i])
    decreases |s|
  {
    if s != [] && space(s[0]) then
      var r := TrimStart(s[1..], space);
      assert forall i :: 1 <= i < |s| - |r| ==> s[i] == s[1..][i - 1];
      r
    else s
  }

  /** Drop the trailing characters of the class `space`; with `IsSpace`
      this is `str.rstrip()`. */
  function TrimEnd(s: string, space: char -> bool): (r: string)
    ensures |r| <= |s|
    ensures r == s[..|r|]
    ensures r == [] || !space(r[|r| - 1])
    ensures forall i :: |r| <= i < |s| ==> space(s[i])
    decreases |s|
  {
    if s != [] && space(s[|s| - 1]) then
      var r := TrimEnd(s[..|s| - 1], space);
      assert forall i :: |r| <= i < |s| - 1 ==> s[i] == s[..|s| - 1][i];
      r
    else s
  }

  /** Drop both ends' characters of the class `space`. */
  function StripOf(s: string, space: char -> bool): (r: string)
    ensures r == [] || (!space(r[0]) && !space(r[|r| - 1]))
  {
    TrimEnd(TrimStart(s, space), space)
  }

  /** `str.strip()`. */
  function Strip(s: string): (r: string)
    ensures r == [] || (!IsSpace(r[0]) && !IsSpace(r[|r| - 1]))
  {
    StripOf(s, IsSpace)
  }

  /** A string that starts and ends with a non-space is its own strip. */
  lemma StripUnchanged(s: string, space: char -> bool)
    requires s == [] || (!space(s[0]) && !space(s[|s| - 1]))
    ensures StripOf(s, space) == s
  {
  }

  /** A character class holding every character of `s`. */
  predicate AllOf(s: string, space: char -> bool) {
    forall i :: 0 <= i < |s| ==> space(s[i])
  }

  lemma {:induction false} TrimStartSkips(pre: string, x: string, space: char -> bool)
    requires AllOf(pre, space)
    ensures TrimStart(pre + x, space) == TrimStart(x, space)
    decreases |pre|
  {
    if pre != [] {
      assert (pre + x)[0] == pre[0] && space(pre[0]);
      assert (pre + x)[1..] == pre[1..] + x;
      TrimStartSkips(pre[1..], x, space);
    } else {
      assert pre + x == x;
    }
  }

  lemma {:induction false} TrimEndSkips(x: string, post: string, space: char -> bool)
    requires AllOf(post, space)
    ensures TrimEnd(x + post, space) == TrimEnd(x, space)
    decreases |post|
  {
    if post != [] {
      assert (x + post)[|x + post| - 1] == post[|post| - 1] && space(post[|post| - 1]);
      assert (x + post)[..|x + post| - 1] == x + post[..|post| - 1];
      TrimEndSkips(x, post[..|post| - 1], space);
    } else {
      assert x + post == x;
    }
  }

  lemma {:induction false} StripSkipsTail(x: string, post: string, space: char -> bool)
    requires AllOf(post, space)
    ensures StripOf(x + post, space) == StripOf(x, space)
    decreases |x|
  {
    if x == [] {
      assert x + post == post + [];
      TrimStartSkips(post, [], space);
    } else if space(x[0]) {
      assert (x + post)[1..] == x[1..] + post;
      StripSkipsTail(x[1..], post, space);
    } else {
      TrimEndSkips(x, post, space);
    }
  }

  /** Padding of the stripped class around a string does not change its strip. */
  lemma StripIgnoresPadding(pre: string, s: string, post: string, space: char -> bool)
    requires AllOf(pre, space) && AllOf(post, space)
    ensures StripOf(pre + s + post, space) == StripOf(s, space)
  {
    assert pre + s + post == pre + (s + post);
    TrimStartSkips(pre, s + post, space);
    StripSkipsTail(s, post, space);
  }
}

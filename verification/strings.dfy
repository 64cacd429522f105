/** The two pieces of Rust's `str` behaviour the command-line layer relies on:
    `trim` (Unicode White_Space on both ends) and `to_lowercase`, the latter
    restricted to ASCII letters. */
module Strings {

  /** Rust's `char::is_whitespace`: the Unicode White_Space property, which is a
      fixed list of 25 code points. */
  predicate IsWhitespace(c: char) {
    || '\U{0009}' <= c <= '\U{000D}'
    || c == '\U{0020}'
    || c == '\U{0085}'
    || c == '\U{00A0}'
    || c == '\U{1680}'
    || '\U{2000}' <= c <= '\U{200A}'
    || c == '\U{2028}'
    || c == '\U{2029}'
    || c == '\U{202F}'
    || c == '\U{205F}'
    || c == '\U{3000}'
  }

  predicate AllWhitespace(s: string) {
    forall i :: 0 <= i < |s| ==> IsWhitespace(s[i])
  }

  predicate NoWhitespace(s: string) {
    forall i :: 0 <= i < |s| ==> !IsWhitespace(s[i])
  }

  /** `str::trim_start`: the longest suffix that does not begin with whitespace. */
  function TrimStart(s: string): (r: string)
    ensures |r| <= |s| && r == s[|s| - |r|..]
    ensures AllWhitespace(s[..|s| - |r|])
    ensures |r| == 0 || !IsWhitespace(r[0])
  {
    if |s| > 0 && IsWhitespace(s[0]) then
      var r := TrimStart(s[1..]);
      TrimStartStep(s, r);
      r
    else s
  }

  /** `str::trim_end`: the longest prefix that does not end with whitespace. */
  function TrimEnd(s: string): (r: string)
    ensures |r| <= |s| && r == s[..|r|]
    ensures AllWhitespace(s[|r|..])
    ensures |r| == 0 || !IsWhitespace(r[|r| - 1])
  {
    if |s| > 0 && IsWhitespace(s[|s| - 1]) then
      var r := TrimEnd(s[..|s| - 1]);
      TrimEndStep(s, r);
      r
    else s
  }

  /** Trimming the start of a text that begins with whitespace: what `trim_start`
      keeps of the rest is a suffix of the whole text, after only whitespace. */
  lemma TrimStartStep(s: string, r: string)
    requires |s| > 0 && IsWhitespace(s[0])
    requires |r| <= |s| - 1 && r == s[1..][|s| - 1 - |r|..]
    requires AllWhitespace(s[1..][..|s| - 1 - |r|])
    ensures r == s[|s| - |r|..]
    ensures AllWhitespace(s[..|s| - |r|])
  {
    var k := |s| - |r|;
    assert s[1..][..k - 1] == s[1..k];
    forall i | 0 <= i < k
      ensures IsWhitespace(s[..k][i])
    {
      if i > 0 {
        assert s[..k][i] == s[1..k][i - 1];
      }
    }
  }

  /** Trimming the end of a text that ends with whitespace: what `trim_end` keeps
      of the rest is a prefix of the whole text, before only whitespace. */
  lemma TrimEndStep(s: string, r: string)
    requires |s| > 0 && IsWhitespace(s[|s| - 1])
    requires |r| <= |s| - 1 && r == s[..|s| - 1][..|r|]
    requires AllWhitespace(s[..|s| - 1][|r|..])
    ensures r == s[..|r|]
    ensures AllWhitespace(s[|r|..])
  {
    var k := |r|;
    assert s[..|s| - 1][k..] == s[k..|s| - 1];
    forall i | 0 <= i < |s| - k
      ensures IsWhitespace(s[k..][i])
    {
      if i < |s| - 1 - k {
        assert s[k..][i] == s[k..|s| - 1][i];
      }
    }
  }

  /** `r` occurs in `s` at offset `i` with only whitespace before and after it, and
      neither starts nor ends with whitespace itself: it is `s` without its maximal
      whitespace prefix and suffix. */
  predicate TrimmedAt(s: string, r: string, i: int) {
    && 0 <= i <= |s| - |r| && r == s[i..i + |r|]
    && AllWhitespace(s[..i]) && AllWhitespace(s[i + |r|..])
    && (|r| == 0 || (!IsWhitespace(r[0]) && !IsWhitespace(r[|r| - 1])))
  }

  /** `str::trim`: the text between the maximal whitespace prefix and the maximal
      whitespace suffix. */
  function Trim(s: string): (r: string)
    ensures exists i :: TrimmedAt(s, r, i)
  {
    var t := TrimStart(s);
    var r := TrimEnd(t);
    TrimSlice(s, t, r);
    r
  }

  /** A suffix of `s` after a whitespace prefix, cut before a whitespace suffix, is
      `s` trimmed when its ends are not whitespace. */
  lemma TrimSlice(s: string, t: string, r: string)
    requires |t| <= |s| && t == s[|s| - |t|..] && AllWhitespace(s[..|s| - |t|])
    requires |r| <= |t| && r == t[..|r|] && AllWhitespace(t[|r|..])
    requires |t| == 0 || !IsWhitespace(t[0])
    requires |r| == 0 || !IsWhitespace(r[|r| - 1])
    ensures TrimmedAt(s, r, |s| - |t|)
  {
    assert s[|s| - |t| + |r|..] == t[|r|..];
    if |r| > 0 {
      assert r[0] == t[0];
    }
  }

  /** Leading whitespace followed by a text that does not start with whitespace:
      `trim_start` keeps exactly that text. */
  lemma {:induction false} TrimStartAfterWhitespace(w: string, u: string)
    requires AllWhitespace(w)
    requires |u| == 0 || !IsWhitespace(u[0])
    ensures TrimStart(w + u) == u
  {
    if |w| > 0 {
      assert (w + u)[1..] == w[1..] + u;
      TrimStartAfterWhitespace(w[1..], u);
    } else {
      assert w + u == u;
    }
  }

  /** A text that does not end with whitespace followed by trailing whitespace:
      `trim_end` keeps exactly that text. */
  lemma {:induction false} TrimEndBeforeWhitespace(u: string, w: string)
    requires AllWhitespace(w)
    requires |u| == 0 || !IsWhitespace(u[|u| - 1])
    ensures TrimEnd(u + w) == u
  {
    if |w| > 0 {
      assert (u + w)[..|u + w| - 1] == u + w[..|w| - 1];
      TrimEndBeforeWhitespace(u, w[..|w| - 1]);
    } else {
      assert u + w == u;
    }
  }

  /** Trimming removes exactly the whitespace around a text that has none of its own:
      padding a whitespace-free text on either side and trimming gives the text back. */
  lemma TrimPadded(pre: string, t: string, post: string)
    requires AllWhitespace(pre) && AllWhitespace(post) && NoWhitespace(t)
    ensures Trim(pre + t + post) == t
  {
    if |t| > 0 {
      assert pre + t + post == pre + (t + post);
      TrimStartAfterWhitespace(pre, t + post);
      TrimEndBeforeWhitespace(t, post);
    } else {
      assert pre + t + post == pre + post;
      TrimStartAfterWhitespace(pre + post, []);
      assert pre + post + [] == pre + post;
    }
  }

  /** One ASCII letter lowercased; every other character is kept. */
  function LowerChar(c: char): char {
    if 'A' <= c <= 'Z' then (c as int + 32) as char else c
  }

  /** `str::to_lowercase` on ASCII letters. */
  function ToLower(s: string): (r: string)
    ensures |r| == |s|
    ensures forall i :: 0 <= i < |s| ==> r[i] == LowerChar(s[i])
  {
    seq(|s|, i requires 0 <= i < |s| => LowerChar(s[i]))
  }

  /** Lowercasing is idempotent. */
  lemma ToLowerIdempotent(s: string)
    ensures ToLower(ToLower(s)) == ToLower(s)
  {
  }

  /** A text with no upper-case ASCII letter is its own lowercase form. */
  lemma ToLowerOfLower(s: string)
    requires forall i :: 0 <= i < |s| ==> !('A' <= s[i] <= 'Z')
    ensures ToLower(s) == s
  {
  }
}

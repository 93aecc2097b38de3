/** String helpers shared by the form validator and the image resolver:
    the whitespace class used by `String.prototype.trim` and by the regular
    expression escape `\s`, trimming, and prefix tests. */
module Strings {

  /** The characters ECMAScript counts as WhiteSpace or LineTerminator.
      `trim()` strips exactly these, and `\s` matches exactly these. */
  predicate IsWhitespace(c: char) {
    || c == '\t' || c == '\n' || c == '\U{000B}' || c == '\U{000C}' || c == '\r'
    || c == ' ' || c == '\U{00A0}' || c == '\U{1680}'
    || c == '\U{2000}' || c == '\U{2001}' || c == '\U{2002}' || c == '\U{2003}'
    || c == '\U{2004}' || c == '\U{2005}' || c == '\U{2006}' || c == '\U{2007}'
    || c == '\U{2008}' || c == '\U{2009}' || c == '\U{200A}'
    || c == '\U{2028}' || c == '\U{2029}' || c == '\U{202F}' || c == '\U{205F}'
    || c == '\U{3000}' || c == '\U{FEFF}'
  }

  /** Every character of `s` is whitespace (vacuously true of ""). */
  predicate Blank(s: string) {
    forall i :: 0 <= i < |s| ==> IsWhitespace(s[i])
  }

  /** `s` begins with `prefix`, as `String.prototype.startsWith`: `s` is
      `prefix` followed by the rest of `s`. */
  predicate StartsWith(s: string, prefix: string)
    ensures StartsWith(s, prefix) <==> |prefix| <= |s| && s == prefix + s[|prefix|..]
  {
    |prefix| <= |s| && s[..|prefix|] == prefix
  }

  /** The first index at or after `i` that holds a non-whitespace
      character, or `|s|` when there is none. */
  function SkipBlanks(s: string, i: nat): (a: nat)
    requires i <= |s|
    ensures i <= a <= |s|
    ensures forall k :: i <= k < a ==> IsWhitespace(s[k])
    ensures a < |s| ==> !IsWhitespace(s[a])
    decreases |s| - i
  {
    if i < |s| && IsWhitespace(s[i]) then SkipBlanks(s, i + 1) else i
  }

  /** Moving down from `j`, never below `lo`: the end of the last
      non-whitespace character, or `lo` when there is none. */
  function BackOverBlanks(s: string, lo: nat, j: nat): (b: nat)
    requires lo <= j <= |s|
    ensures lo <= b <= j
    ensures forall k :: b <= k < j ==> IsWhitespace(s[k])
    ensures b > lo ==> !IsWhitespace(s[b - 1])
    decreases j
  {
    if j > lo && IsWhitespace(s[j - 1]) then BackOverBlanks(s, lo, j - 1) else j
  }

  /** The bounds `trim()` keeps: only whitespace before the start and from
      the end on, and non-whitespace at both edges of what is kept. An
      empty range means the whole string is whitespace. */
  function TrimBounds(s: string): (bounds: (nat, nat))
    ensures bounds.0 <= bounds.1 <= |s|
    ensures forall k :: 0 <= k < bounds.0 ==> IsWhitespace(s[k])
    ensures forall k :: bounds.1 <= k < |s| ==> IsWhitespace(s[k])
    ensures bounds.0 < bounds.1 ==> !IsWhitespace(s[bounds.0]) && !IsWhitespace(s[bounds.1 - 1])
    ensures bounds.0 == bounds.1 ==> Blank(s)
  {
    var a := SkipBlanks(s, 0);
    (a, BackOverBlanks(s, a, |s|))
  }

  /** `String.prototype.trim`. */
  function Trim(s: string): (r: string)
    ensures |r| <= |s|
    ensures r == [] <==> Blank(s)
    ensures r != [] ==> !IsWhitespace(r[0]) && !IsWhitespace(r[|r| - 1])
  {
    var (a, b) := TrimBounds(s);
    s[a..b]
  }

  /** `SkipBlanks` is determined by its contract. */
  lemma SkipBlanksUnique(s: string, i: nat, a: nat)
    requires i <= a <= |s|
    requires forall k :: i <= k < a ==> IsWhitespace(s[k])
    requires a < |s| ==> !IsWhitespace(s[a])
    ensures SkipBlanks(s, i) == a
  {
  }

  /** `BackOverBlanks` is determined by its contract. */
  lemma BackOverBlanksUnique(s: string, lo: nat, j: nat, b: nat)
    requires lo <= b <= j <= |s|
    requires forall k :: b <= k < j ==> IsWhitespace(s[k])
    requires b > lo ==> !IsWhitespace(s[b - 1])
    ensures BackOverBlanks(s, lo, j) == b
  {
  }

  /** A string with no whitespace at either end is its own trim. */
  lemma TrimOfTrimmed(s: string)
    requires s != [] ==> !IsWhitespace(s[0]) && !IsWhitespace(s[|s| - 1])
    ensures Trim(s) == s
  {
    if s != [] {
      SkipBlanksUnique(s, 0, 0);
      BackOverBlanksUnique(s, 0, |s|, |s|);
    }
  }

  /** Trimming twice is trimming once. */
  lemma TrimIdempotent(s: string)
    ensures Trim(Trim(s)) == Trim(s)
  {
    TrimOfTrimmed(Trim(s));
  }

  /** Whitespace added around a string does not change its trim. */
  lemma TrimIgnoresPadding(pre: string, s: string, post: string)
    requires Blank(pre) && Blank(post)
    ensures Trim(pre + s + post) == Trim(s)
  {
    var w := pre + s + post;
    var (a, b) := TrimBounds(s);
    var p := |pre|;
    if a < b {
      PaddedStart(pre, s, post);
      PaddedEnd(pre, s, post);
      assert TrimBounds(w) == (p + a, p + b);
      SliceOfMiddle(pre, s, post, a, b);
    } else {
      PaddedBlank(pre, s, post);
    }
  }

  lemma SliceOfMiddle(pre: string, s: string, post: string, a: nat, b: nat)
    requires a <= b <= |s|
    ensures (pre + s + post)[|pre| + a..|pre| + b] == s[a..b]
  {
    var w := pre + s + post;
    forall k | 0 <= k < b - a
      ensures w[|pre| + a..|pre| + b][k] == s[a..b][k]
    {
      assert w[|pre| + a + k] == s[a + k];
    }
  }

  lemma PaddedStart(pre: string, s: string, post: string)
    requires Blank(pre) && Blank(post)
    requires TrimBounds(s).0 < TrimBounds(s).1
    ensures SkipBlanks(pre + s + post, 0) == |pre| + TrimBounds(s).0
  {
    var w := pre + s + post;
    var a := TrimBounds(s).0;
    var p := |pre|;
    forall k | 0 <= k < p + a ensures IsWhitespace(w[k]) {
      if k < p { assert w[k] == pre[k]; } else { assert w[k] == s[k - p]; }
    }
    assert w[p + a] == s[a];
    SkipBlanksUnique(w, 0, p + a);
  }

  lemma PaddedEnd(pre: string, s: string, post: string)
    requires Blank(pre) && Blank(post)
    requires TrimBounds(s).0 < TrimBounds(s).1
    ensures BackOverBlanks(pre + s + post, |pre| + TrimBounds(s).0, |pre + s + post|) == |pre| + TrimBounds(s).1
  {
    var w := pre + s + post;
    var (a, b) := TrimBounds(s);
    var p := |pre|;
    forall k | p + b <= k < |w| ensures IsWhitespace(w[k]) {
      if k < p + |s| { assert w[k] == s[k - p]; } else { assert w[k] == post[k - p - |s|]; }
    }
    assert w[p + b - 1] == s[b - 1];
    BackOverBlanksUnique(w, p + a, |w|, p + b);
  }

  lemma PaddedBlank(pre: string, s: string, post: string)
    requires Blank(pre) && Blank(s) && Blank(post)
    ensures Blank(pre + s + post)
  {
    var w := pre + s + post;
    var p := |pre|;
    forall k | 0 <= k < |w| ensures IsWhitespace(w[k]) {
      if k < p { assert w[k] == pre[k]; }
      else if k < p + |s| { assert w[k] == s[k - p]; }
      else { assert w[k] == post[k - p - |s|]; }
    }
  }
}

/**
 * String trimming as JavaScript's String.prototype.trim does it: strip the
 * white-space and line-terminator characters from both ends of a string.
 */
module Text {

  /** The characters `trim` removes: WhiteSpace and LineTerminator of ECMAScript. */
  predicate IsWhitespace(c: char)
  {
    c == '\t' || c == '\U{000B}' || c == '\U{000C}' || c == ' ' || c == '\U{00A0}' ||
    c == '\U{FEFF}' || c == '\U{1680}' || ('\U{2000}' <= c <= '\U{200A}') ||
    c == '\U{202F}' || c == '\U{205F}' || c == '\U{3000}' ||
    c == '\n' || c == '\r' || c == '\U{2028}' || c == '\U{2029}'
  }

  /** Every character of `s` is white space (vacuously so for the empty string). */
  predicate AllWhitespace(s: string)
  {
    forall k :: 0 <= k < |s| ==> IsWhitespace(s[k])
  }

  /** The number of white-space characters at the start of `s`. */
  function LeadingSpace(s: string): (n: nat)
    ensures n <= |s|
    ensures forall k :: 0 <= k < n ==> IsWhitespace(s[k])
    ensures n < |s| ==> !IsWhitespace(s[n])
  {
    if s != [] && IsWhitespace(s[0]) then 1 + LeadingSpace(s[1..]) else 0
  }

  /** The number of white-space characters at the end of `s`. */
  function TrailingSpace(s: string): (n: nat)
    ensures n <= |s|
    ensures forall k :: |s| - n <= k < |s| ==> IsWhitespace(s[k])
    ensures n < |s| ==> !IsWhitespace(s[|s| - 1 - n])
  {
    if s != [] && IsWhitespace(s[|s| - 1]) then 1 + TrailingSpace(s[..|s| - 1]) else 0
  }

  /**
   * `s` without its leading and trailing white space: empty exactly when `s`
   * is all white space, and otherwise the slice of `s` between the two runs
   * of white space, which neither starts nor ends with white space.
   */
  function Trim(s: string): (r: string)
    ensures |r| <= |s|
    ensures r == [] <==> AllWhitespace(s)
    ensures r != [] ==>
      LeadingSpace(s) + TrailingSpace(s) < |s| &&
      r == s[LeadingSpace(s) .. |s| - TrailingSpace(s)]
    ensures r != [] ==> !IsWhitespace(r[0]) && !IsWhitespace(r[|r| - 1])
  {
    var t := s[LeadingSpace(s)..];
    t[..|t| - TrailingSpace(t)]
  }

  /** A string that neither starts nor ends with white space trims to itself. */
  lemma TrimOfTrimmed(s: string)
    requires s != [] ==> !IsWhitespace(s[0]) && !IsWhitespace(s[|s| - 1])
    ensures Trim(s) == s
  {
    if s != [] {
      assert LeadingSpace(s) == 0;
      assert TrailingSpace(s) == 0;
    }
  }

  /** Trimming twice is trimming once. */
  lemma TrimIdempotent(s: string)
    ensures Trim(Trim(s)) == Trim(s)
  {
    TrimOfTrimmed(Trim(s));
  }

  /** Surrounding a string with white space does not change what it trims to. */
  lemma {:induction false} TrimIgnoresPadding(pre: string, s: string, post: string)
    requires AllWhitespace(pre) && AllWhitespace(post)
    ensures Trim(pre + s + post) == Trim(s)
  {
    var w := pre + s + post;
    if AllWhitespace(s) {
      PaddedAllWhitespace(pre, s, post);
    } else {
      LeadingOfPadded(pre, s, post);
      TrailingOfPadded(pre, s, post);
      TrimOfRuns(pre, s, post);
    }
  }

  /** Once the white-space runs of the padded string are known, its trimmed slice is that of `s`. */
  lemma TrimOfRuns(pre: string, s: string, post: string)
    requires !AllWhitespace(s)
    requires LeadingSpace(pre + s + post) == |pre| + LeadingSpace(s)
    requires TrailingSpace(pre + s + post) == |post| + TrailingSpace(s)
    ensures Trim(pre + s + post) == Trim(s)
  {
    var w := pre + s + post;
    var i, j := LeadingSpace(s), TrailingSpace(s);
    assert !IsWhitespace(w[|pre| + i]);
    MiddleSlice(pre, s, post, i, |s| - j);
  }

  lemma MiddleSlice<T>(pre: seq<T>, s: seq<T>, post: seq<T>, lo: nat, hi: nat)
    requires lo <= hi <= |s|
    ensures (pre + s + post)[|pre| + lo .. |pre| + hi] == s[lo..hi]
  {
    var w := pre + s + post;
    assert forall k :: 0 <= k < hi - lo ==> w[|pre| + lo .. |pre| + hi][k] == s[lo..hi][k];
  }

  lemma PaddedAllWhitespace(pre: string, s: string, post: string)
    requires AllWhitespace(pre) && AllWhitespace(s) && AllWhitespace(post)
    ensures AllWhitespace(pre + s + post)
  {
    var w := pre + s + post;
    forall k | 0 <= k < |w| ensures IsWhitespace(w[k]) {
      if k < |pre| { assert w[k] == pre[k]; }
      else if k < |pre| + |s| { assert w[k] == s[k - |pre|]; }
      else { assert w[k] == post[k - |pre| - |s|]; }
    }
  }


  lemma {:induction false} LeadingOfPadded(pre: string, s: string, post: string)
    requires AllWhitespace(pre) && !AllWhitespace(s)
    ensures LeadingSpace(pre + s + post) == |pre| + LeadingSpace(s)
    decreases |pre|
  {
    if pre == [] {
      assert pre + s + post == s + post;
      LeadingOfAppended(s, post);
    } else {
      assert (pre + s + post)[1..] == pre[1..] + s + post;
      LeadingOfPadded(pre[1..], s, post);
    }
  }

  lemma {:induction false} LeadingOfAppended(s: string, post: string)
    requires !AllWhitespace(s)
    ensures LeadingSpace(s + post) == LeadingSpace(s)
    decreases |s|
  {
    if IsWhitespace(s[0]) {
      assert (s + post)[1..] == s[1..] + post;
      LeadingOfAppended(s[1..], post);
    }
  }

  lemma {:induction false} TrailingOfPadded(pre: string, s: string, post: string)
    requires AllWhitespace(post) && !AllWhitespace(s)
    ensures TrailingSpace(pre + s + post) == |post| + TrailingSpace(s)
    decreases |post|
  {
    if post == [] {
      assert pre + s + post == pre + s;
      TrailingOfPrepended(pre, s);
    } else {
      var last := |post| - 1;
      assert (pre + s + post)[..|pre + s + post| - 1] == pre + s + post[..last];
      TrailingOfPadded(pre, s, post[..last]);
    }
  }

  lemma {:induction false} TrailingOfPrepended(pre: string, s: string)
    requires !AllWhitespace(s)
    ensures TrailingSpace(pre + s) == TrailingSpace(s)
    decreases |s|
  {
    if IsWhitespace(s[|s| - 1]) {
      assert (pre + s)[..|pre + s| - 1] == pre + s[..|s| - 1];
      TrailingOfPrepended(pre, s[..|s| - 1]);
    }
  }
}

/**
 * Byte-string helpers the plugin uses on tag-file contents: `bytes.TrimSpace`
 * and the tag regular expression `[\w][\w.-]{0,127}` used through Go's
 * unanchored `Regexp.Match`.
 */
module Text {

  /** ASCII white space as `bytes.TrimSpace` sees it: tab, LF, VT, FF, CR, space. */
  predicate IsSpace(c: char) {
    c == ' ' || c == '\t' || c == '\n' || c == '\r' || c == '\U{000B}' || c == '\U{000C}'
  }

  /** Where the text of `s` starts: the first index from `i` on that is not white space. */
  function TrimStart(s: string, i: nat): (start: nat)
    requires i <= |s|
    ensures i <= start <= |s|
    ensures forall k :: i <= k < start ==> IsSpace(s[k])
    ensures start == |s| || !IsSpace(s[start])
    decreases |s| - i
  {
    if i < |s| && IsSpace(s[i]) then TrimStart(s, i + 1) else i
  }

  /** Where the text of `s[lo..j]` stops: after its last character that is not white space. */
  function TrimStop(s: string, lo: nat, j: nat): (stop: nat)
    requires lo <= j <= |s|
    ensures lo <= stop <= j
    ensures forall k :: stop <= k < j ==> IsSpace(s[k])
    ensures stop == lo || !IsSpace(s[stop - 1])
    decreases j
  {
    if j > lo && IsSpace(s[j - 1]) then TrimStop(s, lo, j - 1) else j
  }

  /**
   * `bytes.TrimSpace`: the slice of `s` left once the leading and then the
   * trailing white space is cut off.  The result neither starts nor ends
   * with white space.
   */
  function TrimSpace(s: string): (r: string)
    ensures |r| <= |s|
    ensures r == [] || (!IsSpace(r[0]) && !IsSpace(r[|r| - 1]))
  {
    var start := TrimStart(s, 0);
    s[start..TrimStop(s, start, |s|)]
  }

  /** TrimSpace removes white space only, on either side of the slice of `s` it returns. */
  lemma TrimSpaceShape(s: string)
    ensures var r, i := TrimSpace(s), TrimStart(s, 0);
      && i + |r| <= |s|
      && r == s[i..i + |r|]
      && (forall k :: 0 <= k < i ==> IsSpace(s[k]))
      && (forall k :: i + |r| <= k < |s| ==> IsSpace(s[k]))
  {
  }

  /** `\w` in RE2: an ASCII letter, digit or underscore. */
  predicate IsWordChar(c: char) {
    ('A' <= c <= 'Z') || ('a' <= c <= 'z') || ('0' <= c <= '9') || c == '_'
  }

  /** `[\w.-]` */
  predicate IsTagChar(c: char) {
    IsWordChar(c) || c == '.' || c == '-'
  }

  /** The whole of `t` matches `[\w][\w.-]{0,127}`. */
  ghost predicate MatchesTagPattern(t: string) {
    && 1 <= |t| <= 128
    && IsWordChar(t[0])
    && forall k :: 1 <= k < |t| ==> IsTagChar(t[k])
  }

  /** `regexp.Match` with the (unanchored) tag pattern: some slice of `s` matches it. */
  ghost predicate TagRegexMatches(s: string) {
    exists i, j :: 0 <= i < j <= |s| && MatchesTagPattern(s[i..j])
  }

  /** Whether some character of `s` is a word character. */
  function ContainsWordChar(s: string): (b: bool)
    ensures b <==> exists k :: 0 <= k < |s| && IsWordChar(s[k])
  {
    if s == [] then false
    else if IsWordChar(s[0]) then true
    else
      var b := ContainsWordChar(s[1..]);
      assert forall k :: 1 <= k < |s| ==> s[k] == s[1..][k - 1];
      b
  }

  /**
   * Because the pattern is not anchored and `{0,127}` admits no repetition at
   * all, the regular expression matches exactly the strings that contain a
   * word character.
   */
  lemma TagRegexMatchesIff(s: string)
    ensures TagRegexMatches(s) <==> ContainsWordChar(s)
  {
    if ContainsWordChar(s) {
      var k :| 0 <= k < |s| && IsWordChar(s[k]);
      assert MatchesTagPattern(s[k..k + 1]);
    }
    if TagRegexMatches(s) {
      var i, j :| 0 <= i < j <= |s| && MatchesTagPattern(s[i..j]);
      assert IsWordChar(s[i]) by { assert s[i..j][0] == s[i]; }
    }
  }

  /** Trimming never removes a word character, so the tag check sees the same answer before and after trimming. */
  lemma TrimSpaceKeepsWordChars(s: string)
    ensures ContainsWordChar(TrimSpace(s)) <==> ContainsWordChar(s)
  {
    TrimSpaceShape(s);
    var r, i := TrimSpace(s), TrimStart(s, 0);
    if ContainsWordChar(s) {
      var k :| 0 <= k < |s| && IsWordChar(s[k]);
      assert r[k - i] == s[k];
    }
    if ContainsWordChar(r) {
      var k :| 0 <= k < |r| && IsWordChar(r[k]);
      assert s[i + k] == r[k];
    }
  }

  /** Every tag of the anchored grammar `^[\w][\w.-]{0,127}$` is accepted. */
  lemma AnchoredTagsAccepted(t: string)
    requires MatchesTagPattern(t)
    ensures ContainsWordChar(t)
  {
    assert IsWordChar(t[0]);
  }

  /**
   * The tag check accepts strings outside the anchored grammar: one with a
   * leading `.`, one with a space, and one of 129 characters.
   */
  lemma UnanchoredAcceptsMore()
    ensures ContainsWordChar(".v1") && !MatchesTagPattern(".v1")
    ensures ContainsWordChar("v 1") && !MatchesTagPattern("v 1")
    ensures var long := seq(129, _ => 'v'); ContainsWordChar(long) && !MatchesTagPattern(long)
  {
    assert IsWordChar(".v1"[1]);
    assert !IsTagChar("v 1"[1]);
    var long := seq(129, _ => 'v');
    assert IsWordChar(long[0]);
  }
}

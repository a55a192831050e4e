/** String rules the two programs rely on: JavaScript's `String.prototype.trim`
    (used by the client to clean the output name) and Python's `str.endswith`
    (used by the server to decide whether to add the `.pdf` suffix). */
module Text {

  /** The characters ECMAScript's `trim` strips: the WhiteSpace production
      (tab, vertical tab, form feed, zero-width no-break space and every
      space separator) and the LineTerminator production (LF, CR, line and
      paragraph separators). */
  predicate IsWhitespace(c: char) {
    || c == '\t' || c == '\n' || c == '\U{000B}' || c == '\U{000C}' || c == '\r'
    || c == ' ' || c == '\U{00A0}' || c == '\U{1680}'
    || ('\U{2000}' <= c <= '\U{200A}')
    || c == '\U{2028}' || c == '\U{2029}' || c == '\U{202F}' || c == '\U{205F}'
    || c == '\U{3000}' || c == '\U{FEFF}'
  }

  /** Every character of `s` at a position in `lo..hi` is whitespace. */
  predicate WhitespaceIn(s: string, lo: int, hi: int)
    requires 0 <= lo <= hi <= |s|
  {
    forall k :: lo <= k < hi ==> IsWhitespace(s[k])
  }

  predicate AllWhitespace(s: string) {
    WhitespaceIn(s, 0, |s|)
  }

  /** Neither the first nor the last character (if any) is whitespace. */
  predicate NoEdgeWhitespace(r: string) {
    r == [] || (!IsWhitespace(r[0]) && !IsWhitespace(r[|r| - 1]))
  }

  /** `r` is what trimming `s` must give: a contiguous piece of `s`, with only
      whitespace cut off on either side, and no whitespace left at its edges. */
  ghost predicate TrimmedOf(s: string, r: string) {
    exists i, j :: 0 <= i <= j <= |s| && r == s[i..j]
      && WhitespaceIn(s, 0, i) && WhitespaceIn(s, j, |s|) && NoEdgeWhitespace(r)
  }

  /** Where the text starts: the first position at or after `i` that does not
      hold whitespace, or `|s|` when there is none. */
  function SkipLeading(s: string, i: int): (j: int)
    requires 0 <= i <= |s|
    ensures i <= j <= |s| && WhitespaceIn(s, i, j)
    ensures j < |s| ==> !IsWhitespace(s[j])
    decreases |s| - i
  {
    if i < |s| && IsWhitespace(s[i]) then SkipLeading(s, i + 1) else i
  }

  /** Where the text ends: the start of the whitespace run that closes
      `s[lo..j]`, that is, the smallest `k >= lo` such that everything from `k`
      to `j` is whitespace. */
  function SkipTrailing(s: string, lo: int, j: int): (k: int)
    requires 0 <= lo <= j <= |s|
    ensures lo <= k <= j && WhitespaceIn(s, k, j)
    ensures k > lo ==> !IsWhitespace(s[k - 1])
    decreases j - lo
  {
    if lo < j && IsWhitespace(s[j - 1]) then SkipTrailing(s, lo, j - 1) else j
  }

  /** JavaScript's `s.trim()`. */
  function Trim(s: string): (r: string)
    ensures TrimmedOf(s, r)
    ensures r == [] <==> AllWhitespace(s)
  {
    var i := SkipLeading(s, 0);
    var j := SkipTrailing(s, i, |s|);
    assert i < j ==> s[i..j][0] == s[i] && s[i..j][j - i - 1] == s[j - 1];
    s[i..j]
  }

  /** There is only one way to trim a string: any cut satisfying `TrimmedOf`
      is the one `Trim` makes. */
  lemma TrimUnique(s: string, r: string)
    requires TrimmedOf(s, r)
    ensures r == Trim(s)
  {
    var i, j :| 0 <= i <= j <= |s| && r == s[i..j]
      && WhitespaceIn(s, 0, i) && WhitespaceIn(s, j, |s|) && NoEdgeWhitespace(r);
    TrimUniqueAt(s, i, j);
  }

  lemma TrimUniqueAt(s: string, i: int, j: int)
    requires 0 <= i <= j <= |s|
    requires WhitespaceIn(s, 0, i) && WhitespaceIn(s, j, |s|) && NoEdgeWhitespace(s[i..j])
    ensures s[i..j] == Trim(s)
  {
    if i < j {
      assert s[i..j][0] == s[i] && s[i..j][j - i - 1] == s[j - 1];
      var i' := SkipLeading(s, 0);
      assert i' == i;
      var j' := SkipTrailing(s, i, |s|);
      assert j' == j;
    }
  }

  /** Python's `s.endswith(suffix)`. */
  predicate EndsWith(s: string, suffix: string) {
    |suffix| <= |s| && s[|s| - |suffix|..] == suffix
  }

  /** `s` ends with `suffix` exactly when `s` is some text followed by
      `suffix`. */
  lemma EndsWithIsSplit(s: string, suffix: string)
    ensures EndsWith(s, suffix) <==> exists p :: s == p + suffix
  {
    if EndsWith(s, suffix) {
      assert s == s[..|s| - |suffix|] + suffix;
    }
    if p :| s == p + suffix {
      assert s[|s| - |suffix|..] == suffix;
    }
  }

  /** Every character fits in one byte of ISO-8859-1 (Latin-1), the
      encoding HTTP header values are written in. */
  predicate Latin1(s: string) {
    forall k :: 0 <= k < |s| ==> s[k] <= '\U{00FF}'
  }

  lemma Latin1Append(a: string, b: string)
    ensures Latin1(a + b) <==> Latin1(a) && Latin1(b)
  {
    if Latin1(a + b) {
      forall k | 0 <= k < |a| ensures a[k] <= '\U{00FF}' {
        assert (a + b)[k] == a[k];
      }
      forall k | 0 <= k < |b| ensures b[k] <= '\U{00FF}' {
        assert (a + b)[|a| + k] == b[k];
      }
    }
  }

  lemma EndsWithAppended(s: string, suffix: string)
    ensures EndsWith(s + suffix, suffix)
  {
    assert (s + suffix)[|s|..] == suffix;
  }
}

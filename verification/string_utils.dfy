/** `StringUtils`: digit and blank checks, and the normaliser for a
    "closes #N" issue reference.  `GitConstant.EMPTY` is not part of this
    model; the normaliser returns `None` where the source returns it. */
module StringUtils {
  import opened Wrappers
  import opened Text

  /** `StringUtils.isNumeric` (`None` is a null argument). */
  predicate IsNumeric(str: Option<string>)
    ensures IsNumeric(str) ==> !IsBlankOrNull(str)
    ensures str.Some? && |str.value| == 0 ==> !IsNumeric(str)
  {
    str.Some? && IsDigitString(str.value)
  }

  /** `StringUtils.isBlank` (`None` is a null argument). */
  predicate IsBlankOrNull(str: Option<string>)
    ensures IsBlankOrNull(str) <==> str.None? || Trim(str.value) == []
  {
    if str.Some? then TrimEmptyIffBlank(str.value); IsBlank(str.value) else true
  }

  predicate IsHash(c: char) { c == '#' }

  /** `StringUtils.formatClosedIssue`: the trimmed input, or the trimmed
      input with its `#` signs stripped from both ends and trimmed again,
      prefixed by `#` when it is all digits. */
  function FormatClosedIssue(closedIssue: string): (r: Option<string>)
    ensures r.Some? ==> |r.value| >= 2 && r.value[0] == '#' && IsDigitString(r.value[1..])
  {
    var issue := Trim(closedIssue);
    var issueNum := Trim(TrimBy(issue, IsHash));
    if IsNumeric(Some(issue)) then Some("#" + issue)
    else if IsNumeric(Some(issueNum)) then Some("#" + issueNum)
    else None
  }

  /** The normaliser's second branch, stated through its intermediate
      values. */
  lemma FormatVia(closedIssue: string, issue: string, issueNum: string)
    requires Trim(closedIssue) == issue && !IsDigitString(issue)
    requires Trim(TrimBy(issue, IsHash)) == issueNum && IsDigitString(issueNum)
    ensures FormatClosedIssue(closedIssue) == Some("#" + issueNum)
  {
  }

  /** Trimming both ends of a string that has `c` nowhere leaves it as it is. */
  lemma TrimByAbsent(s: string, drop: char -> bool)
    requires forall i :: 0 <= i < |s| ==> !drop(s[i])
    ensures TrimBy(s, drop) == s
  {
  }

  /** A string of digits is its own trim. */
  lemma DigitsTrimmed(d: string)
    requires IsDigitString(d)
    ensures Trim(d) == d
  {
    forall i | 0 <= i < |d| ensures !IsWhitespace(d[i]) {
      assert IsDigit(d[i]);
    }
    TrimByAbsent(d, IsWhitespace);
  }

  /** The normaliser's own outputs are fixed points: `#` and digits come
      back unchanged. */
  lemma FormatIdempotent(d: string)
    requires IsDigitString(d)
    ensures FormatClosedIssue("#" + d) == Some("#" + d)
  {
    var s := "#" + d;
    assert s[|s| - 1] == d[|d| - 1];
    TrimFixed(s);
    assert !IsDigitString(s) by { assert s[0] == '#'; }
    HashTrim("#", d, "");
    assert "#" + d + "" == s;
    DigitsTrimmed(d);
    FormatVia(s, s, d);
  }

  /** Applying the normaliser to its own result changes nothing. */
  lemma FormatTwice(s: string)
    ensures FormatClosedIssue(s).Some? ==>
      FormatClosedIssue(FormatClosedIssue(s).value) == FormatClosedIssue(s)
  {
    if FormatClosedIssue(s).Some? {
      var r := FormatClosedIssue(s).value;
      assert r == "#" + r[1..];
      FormatIdempotent(r[1..]);
    }
  }

  /** Bare digits gain a `#`. */
  lemma FormatDigits(d: string)
    requires IsDigitString(d)
    ensures FormatClosedIssue(d) == Some("#" + d)
  {
    DigitsTrimmed(d);
  }

  /** Surrounding blanks and any number of `#` on either side are dropped. */
  lemma FormatHashes(pre: string, d: string, post: string)
    requires IsDigitString(d)
    requires |pre| > 0 && forall i :: 0 <= i < |pre| ==> pre[i] == '#'
    requires forall i :: 0 <= i < |post| ==> post[i] == '#'
    ensures FormatClosedIssue(pre + d + post) == Some("#" + d)
  {
    var s := pre + d + post;
    assert s[0] == '#';
    assert !IsWhitespace(s[|s| - 1]) by {
      if |post| > 0 { assert s[|s| - 1] == post[|post| - 1]; }
      else { assert s[|s| - 1] == d[|d| - 1]; }
    }
    HashTrim(pre, d, post);
    FormatHashed(s, d);
  }

  /** A text that starts with `#`, ends in no blank and strips down to
      digits `d` is normalised to `#d`. */
  lemma FormatHashed(s: string, d: string)
    requires |s| > 0 && s[0] == '#' && !IsWhitespace(s[|s| - 1])
    requires IsDigitString(d) && TrimBy(s, IsHash) == d
    ensures FormatClosedIssue(s) == Some("#" + d)
  {
    assert Trim(s) == s by { TrimFixed(s); }
    assert !IsDigitString(s) by { NotDigitsAtHash(s); }
    assert Trim(TrimBy(s, IsHash)) == d by { DigitsTrimmed(d); }
    FormatVia(s, s, d);
  }

  /** A text that starts with `#` is not all digits. */
  lemma NotDigitsAtHash(s: string)
    requires |s| > 0 && s[0] == '#'
    ensures !IsDigitString(s)
  {
    assert !IsDigit(s[0]);
  }

  /** Stripping `#` from both ends of `pre + d + post` leaves `d`. */
  lemma HashTrim(pre: string, d: string, post: string)
    requires IsDigitString(d)
    requires forall i :: 0 <= i < |pre| ==> pre[i] == '#'
    requires forall i :: 0 <= i < |post| ==> post[i] == '#'
    ensures TrimBy(pre + d + post, IsHash) == d
  {
    var s := pre + d + post;
    var t := d + post;
    assert s[|pre|] == d[0];
    assert s[|pre|..] == t;
    TrimStartAt(s, IsHash, |pre|);
    assert t[|d| - 1] == d[|d| - 1];
    assert t[..|d|] == d;
    TrimEndAt(t, IsHash, |d|);
  }

  /** Blanks around a `#`-prefixed number are dropped. */
  lemma FormatPadded(pre: string, d: string, post: string)
    requires IsDigitString(d)
    requires forall i :: 0 <= i < |pre| ==> IsWhitespace(pre[i])
    requires forall i :: 0 <= i < |post| ==> IsWhitespace(post[i])
    ensures FormatClosedIssue(pre + "#" + d + post) == Some("#" + d)
  {
    var s := pre + "#" + d + post;
    PaddedTrim(pre, d, post);
    FormatOfTrim(s);
    FormatIdempotent(d);
  }

  /** The normaliser reads its input only through its trim. */
  lemma FormatOfTrim(s: string)
    ensures FormatClosedIssue(s) == FormatClosedIssue(Trim(s))
  {
    TrimTwice(s);
  }

  /** Trimming blanks around `#d` leaves `#d`. */
  lemma PaddedTrim(pre: string, d: string, post: string)
    requires IsDigitString(d)
    requires forall i :: 0 <= i < |pre| ==> IsWhitespace(pre[i])
    requires forall i :: 0 <= i < |post| ==> IsWhitespace(post[i])
    ensures Trim(pre + "#" + d + post) == "#" + d
  {
    var h := "#" + d;
    assert h[|h| - 1] == d[|d| - 1];
    Assoc4(pre, "#", d, post);
    BlanksBefore(pre, h + post, IsWhitespace);
    BlanksAfter(h, post, IsWhitespace);
  }

  /** Dropped characters in front of a kept one are trimmed away. */
  lemma BlanksBefore(pre: string, t: string, drop: char -> bool)
    requires |t| > 0 && !drop(t[0]) && forall i :: 0 <= i < |pre| ==> drop(pre[i])
    ensures TrimStartBy(pre + t, drop) == t
  {
    var s := pre + t;
    assert s[|pre|..] == t && s[|pre|] == t[0];
    TrimStartAt(s, drop, |pre|);
  }

  /** Dropped characters after a kept one are trimmed away. */
  lemma BlanksAfter(h: string, post: string, drop: char -> bool)
    requires |h| > 0 && !drop(h[|h| - 1]) && forall i :: 0 <= i < |post| ==> drop(post[i])
    ensures TrimEndBy(h + post, drop) == h
  {
    var s := h + post;
    assert s[..|h|] == h && s[|h| - 1] == h[|h| - 1];
    TrimEndAt(s, drop, |h|);
  }
}

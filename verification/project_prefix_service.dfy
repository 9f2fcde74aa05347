/** `ProjectPrefixService`: the project code used in commit messages, read
    from the `[CODE-]` token of the pull-request templates.  The file system
    is not modelled: each template file is given by what reading it gives. */
module ProjectPrefixService {
  import opened Wrappers
  import opened Text
  import opened Patterns

  /** The code used when no template names one. */
  const Fallback: string := "AIP"

  /** What `exists()` and `readText()` give for one template file. */
  datatype FileState = Missing | Unreadable | Readable(content: string)

  /** `\[([A-Z]+\d*)-\]` */
  const PrefixRegex: Grouped := Grouped([Lit('[')], [Plus(Upper), Star(Digit)], [Lit('-'), Lit(']')])

  /** `c[..i]` is upper-case letters and `c[i..]` digits. */
  predicate CodeSplit(c: string, i: nat)
    requires i <= |c|
  {
    && (forall t :: 0 <= t < i ==> IsUpper(c[t]))
    && (forall t :: i <= t < |c| ==> IsDigit(c[t]))
  }

  /** `c` is a word of `[A-Z]+\d*`. */
  predicate IsCode(c: string) {
    exists i :: 0 < i <= |c| && CodeSplit(c, i)
  }

  /** The end of a word of `[A-Z]+\d*` starting at `m`, if any. */
  function CodeEnd(s: string, m: nat): (r: Option<nat>)
    requires m <= |s|
    ensures r.Some? ==> m < r.value <= |s| && IsCode(s[m..r.value])
  {
    if m < |s| && IsUpper(s[m]) then
      var e := RunEnd(Upper, s, m);
      var f := RunEnd(Digit, s, e);
      assert CodeSplit(s[m..f], e - m);
      Some(f)
    else None
  }

  lemma ScanCode(s: string, m: nat)
    requires m <= |s|
    ensures Scan(PrefixRegex.grp, s, m) == CodeEnd(s, m)
  {
    var p := PrefixRegex.grp;
    assert p[1..] == [Star(Digit)];
    assert p[1..][1..] == [];
  }

  /** Where the bracket of a match sits, and what the group holds. */
  lemma PrefixFound(s: string)
    ensures FindGroup(PrefixRegex, s).Some? ==>
      IsCode(FindGroup(PrefixRegex, s).value) && Contains(s, "[" + FindGroup(PrefixRegex, s).value + "-]")
  {
    match FindFrom(PrefixRegex.Whole(), s, 0)
    case None =>
    case Some((a, _)) =>
      var (m, n, b) := ScanGroup(PrefixRegex, s, a).value;
      ScanGroupParts(PrefixRegex, s, a, m, n, b);
      PrefixGroupAt(s, a, m, n, b);
  }

  /** A match of the prefix regex at `a` is a code between `[` and `-]`. */
  lemma PrefixGroupAt(s: string, a: nat, m: nat, n: nat, b: nat)
    requires a <= |s| && Scan(PrefixRegex.pre, s, a) == Some(m)
    requires Scan(PrefixRegex.grp, s, m) == Some(n) && Scan(PrefixRegex.post, s, n) == Some(b)
    ensures m <= n <= |s| && IsCode(s[m..n]) && Contains(s, "[" + s[m..n] + "-]")
  {
    var g := PrefixRegex;
    ScanOneLit(g.pre, '[', s, a);
    ScanCode(s, m);
    assert g.post[1..] == [Lit(']')] && g.post[1..][1..] == [];
    assert n + 2 <= |s| && s[n] == '-' && s[n + 1] == ']';
    var v := s[m..n];
    assert s[a..n + 2] == "[" + v + "-]";
    OccursAtSlice(s, "[" + v + "-]", a);
  }

  /** `extractPrefixFromTemplate`: the group of the first `[CODE-]` token. */
  function ExtractPrefix(content: string): (r: Option<string>)
    ensures r.Some? ==> IsCode(r.value) && Contains(content, "[" + r.value + "-]")
  {
    PrefixFound(content);
    FindGroup(PrefixRegex, content)
  }

  /** A bracketed code followed by `-]` at `a` is a match of the regex. */
  lemma ScanPrefixAt(s: string, a: nat, f: nat)
    requires a < f && f + 2 <= |s| && s[a] == '[' && s[f] == '-' && s[f + 1] == ']'
    requires CodeEnd(s, a + 1) == Some(f)
    ensures ScanGroup(PrefixRegex, s, a) == Some((a + 1, f, f + 2))
  {
    var g := PrefixRegex;
    ScanOneLit(g.pre, '[', s, a);
    ScanCode(s, a + 1);
    ScanTwoLits(g.post, '-', ']', s, f);
    ScanGroupThen(g, s, a, a + 1, f);
  }

  /** The code written at `m`, up to a character that is neither a letter
      nor a digit, is the word the code pattern reads there. */
  lemma CodeEndAt(s: string, m: nat, code: string)
    requires m + |code| < |s| && IsCode(code) && OccursAt(s, code, m)
    requires !IsUpper(s[m + |code|]) && !IsDigit(s[m + |code|])
    ensures CodeEnd(s, m) == Some(m + |code|)
  {
    var i :| 0 < i <= |code| && CodeSplit(code, i);
    if i < |code| { OccursAtChar(s, code, m, i); }
    CodeClasses(code, i);
    RunEndOfWord(Upper, s, m, code, 0, i);
    RunEndOfWord(Digit, s, m, code, i, |code|);
  }

  /** The parts of a code, as classes of the pattern. */
  lemma CodeClasses(code: string, i: nat)
    requires i <= |code| && CodeSplit(code, i)
    ensures forall t :: 0 <= t < i ==> In(Upper, code[t])
    ensures forall t :: i <= t < |code| ==> In(Digit, code[t])
  {
  }

  /** The characters of `pre + "[" + code + "-]" + rest`, by position. */
  lemma BracketLayout(pre: string, code: string, rest: string, s: string)
    requires s == pre + "[" + code + "-]" + rest
    ensures |s| == |pre| + |code| + 3 + |rest|
    ensures s[|pre|] == '[' && s[|pre| + 1 + |code|] == '-' && s[|pre| + 2 + |code|] == ']'
    ensures s[..|pre|] == pre && s[|pre| + 1..|pre| + 1 + |code|] == code
    ensures OccursAt(s, code, |pre| + 1)
  {
    OccursAtSlice(s, code, |pre| + 1);
  }

  /** The first `[CODE-]` token gives its code, whatever follows it. */
  lemma PrefixInBrackets(pre: string, code: string, rest: string)
    requires forall t :: 0 <= t < |pre| ==> pre[t] != '['
    requires IsCode(code)
    ensures ExtractPrefix(pre + "[" + code + "-]" + rest) == Some(code)
  {
    var s := pre + "[" + code + "-]" + rest;
    var a := |pre|;
    var f := a + 1 + |code|;
    assert '[' !in pre;
    BracketLayout(pre, code, rest, s);
    CodeEndAt(s, a + 1, code);
    FindPrefixAt(s, a, f, code);
  }

  /** The first `[` where the regex matches gives the code after it. */
  lemma FindPrefixAt(s: string, a: nat, f: nat, code: string)
    requires a < f && f + 2 <= |s| && s[a] == '[' && s[f] == '-' && s[f + 1] == ']'
    requires CodeEnd(s, a + 1) == Some(f) && s[a + 1..f] == code
    requires '[' !in s[..a]
    ensures ExtractPrefix(s) == Some(code)
  {
    var g := PrefixRegex;
    ScanPrefixAt(s, a, f);
    NoBracketNoMatch(s, a);
    FindGroupAt(g, s, a, a + 1, f, f + 2);
  }

  /** Every match of the pattern starts with `[`. */
  lemma NoBracketNoMatch(s: string, a: nat)
    requires a <= |s| && '[' !in s[..a]
    ensures NoMatchBefore(PrefixRegex.Whole(), s, a)
  {
    var g := PrefixRegex;
    assert g.Whole()[0] == Lit('[');
    forall a' | 0 <= a' < a ensures Scan(g.Whole(), s, a').None? {
      assert s[..a][a'] == s[a'];
      ScanLitFirst(g.Whole(), '[', s, a');
    }
  }

  /** `getProjectPrefix`: `bug_fix.md` first, then `feature_request.md`,
      then the fallback; a missing base path or a failed read gives the
      fallback at once. */
  function GetProjectPrefix(hasBasePath: bool, bugFix: FileState, featureRequest: FileState): (r: string)
    ensures |r| > 0
    ensures r == Fallback
      || (bugFix.Readable? && IsCode(r) && Contains(bugFix.content, "[" + r + "-]"))
      || (featureRequest.Readable? && IsCode(r) && Contains(featureRequest.content, "[" + r + "-]"))
  {
    if !hasBasePath || bugFix.Unreadable? then Fallback
    else if bugFix.Readable? && ExtractPrefix(bugFix.content).Some? then ExtractPrefix(bugFix.content).value
    else if featureRequest.Readable? then ExtractPrefix(featureRequest.content).GetOr(Fallback)
    else Fallback
  }

  // ---------------------------------------------------------------------
  // Properties

  /** A code found in `bug_fix.md` wins, whatever the other file holds. */
  lemma BugFixFirst(content: string, featureRequest: FileState)
    requires ExtractPrefix(content).Some?
    ensures GetProjectPrefix(true, Readable(content), featureRequest) == ExtractPrefix(content).value
  {
  }

  /** `feature_request.md` is consulted only when `bug_fix.md` is missing or
      names no code. */
  lemma FeatureRequestSecond(bugFix: FileState, content: string)
    requires bugFix.Missing? || (bugFix.Readable? && ExtractPrefix(bugFix.content).None?)
    ensures GetProjectPrefix(true, bugFix, Readable(content)) == ExtractPrefix(content).GetOr(Fallback)
  {
  }

  /** The fallback: no base path, an unreadable `bug_fix.md`, or no code in
      either file. */
  lemma FallbackCases(hasBasePath: bool, bugFix: FileState, featureRequest: FileState)
    requires || !hasBasePath
             || bugFix.Unreadable?
             || (&& (bugFix.Missing? || (bugFix.Readable? && ExtractPrefix(bugFix.content).None?))
                 && (!featureRequest.Readable? || ExtractPrefix(featureRequest.content).None?))
    ensures GetProjectPrefix(hasBasePath, bugFix, featureRequest) == Fallback
  {
  }
}

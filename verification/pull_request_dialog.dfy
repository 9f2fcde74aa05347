/** The pure core of `PullRequestDialog`: the ticket key read from a title,
    the pull-request body rendered from a template, the fixed body used
    when there is no template, and the Jira follow-up decided after the
    pull request is created.  Dialog plumbing is not modelled. */
module PullRequestDialog {
  import opened Wrappers
  import opened Text
  import opened Patterns
  import Sorting
  import ProjectPrefixService
  import RegexReplace
  import PullRequestTimes
  import PullRequestTemplateService
  import JiraService
  import GitSettings
  import TimeParser

  // ---------------------------------------------------------------------
  // Ticket keys: four regexes, the first that matches anywhere wins

  /** `[A-Z]+\d+-\d+` */
  const GrpDigits: Pattern := [Plus(Upper), Plus(Digit), Lit('-'), Plus(Digit)]
  /** `[A-Z]+-\d+` */
  const GrpPlain: Pattern := [Plus(Upper), Lit('-'), Plus(Digit)]

  /** `\[([A-Z]+\d+-\d+)\]`, `\[([A-Z]+-\d+)\]`, `([A-Z]+\d+-\d+)`,
      `([A-Z]+-\d+)`, in the order they are tried. */
  const KeyPatterns: seq<Grouped> := [
    Grouped([Lit('[')], GrpDigits, [Lit(']')]),
    Grouped([Lit('[')], GrpPlain, [Lit(']')]),
    Grouped([], GrpDigits, []),
    Grouped([], GrpPlain, [])]

  /** `k[..i]` is upper-case letters, `k[i..j]` digits, `k[j]` the dash
      and `k[j + 1..]` digits. */
  predicate TicketSplit(k: string, i: nat, j: nat)
    requires i <= j < |k|
  {
    && (forall t :: 0 <= t < i ==> IsUpper(k[t]))
    && (forall t :: i <= t < j ==> IsDigit(k[t]))
    && k[j] == '-'
    && (forall t :: j < t < |k| ==> IsDigit(k[t]))
  }

  /** `k` is a word of `[A-Z]+\d*-\d+`: what either group pattern reads. */
  predicate IsTicket(k: string) {
    exists i, j :: 0 < i <= j && j + 1 < |k| && TicketSplit(k, i, j)
  }

  /** The group pattern: with digits after the letters, or without. */
  function Grp(digits: bool): Pattern {
    if digits then GrpDigits else GrpPlain
  }

  /** The end of a word of `Grp(digits)` starting at `m`, if any. */
  function TicketEnd(s: string, m: nat, digits: bool): (r: Option<nat>)
    requires m <= |s|
    ensures r.Some? ==> m < r.value <= |s| && IsTicket(s[m..r.value])
  {
    if !(m < |s| && IsUpper(s[m])) then None
    else
      var e := RunEnd(Upper, s, m);
      if digits && !(e < |s| && IsDigit(s[e])) then None
      else
        var d := if digits then RunEnd(Digit, s, e) else e;
        if d + 1 < |s| && s[d] == '-' && IsDigit(s[d + 1]) then
          var n := RunEnd(Digit, s, d + 1);
          SliceTicket(s, m, e, d, n);
          Some(n)
        else None
  }

  /** Letters, digits, a dash and digits read in `s` make a ticket of the
      slice. */
  lemma SliceTicket(s: string, m: nat, e: nat, d: nat, n: nat)
    requires m <= e <= d < n <= |s| && AllIn(Upper, s, m, e) && AllIn(Digit, s, e, d)
    requires s[d] == '-' && AllIn(Digit, s, d + 1, n)
    ensures TicketSplit(s[m..n], e - m, d - m)
  {
    var k := s[m..n];
    forall x | 0 <= x < e - m ensures IsUpper(k[x]) { assert k[x] == s[m + x] && In(Upper, s[m + x]); }
    forall x | e - m <= x < d - m ensures IsDigit(k[x]) { assert k[x] == s[m + x] && In(Digit, s[m + x]); }
    forall x | d - m < x < |k| ensures IsDigit(k[x]) { assert k[x] == s[m + x] && In(Digit, s[m + x]); }
  }

  lemma ScanTicket(s: string, m: nat, digits: bool)
    requires m <= |s|
    ensures Scan(Grp(digits), s, m) == TicketEnd(s, m, digits)
  {
    if digits {
      ScanTicketDigits(s, m);
    } else {
      ScanTicketLetters(s, m);
    }
  }

  lemma ScanTicketDigits(s: string, m: nat)
    requires m <= |s|
    ensures Scan(Grp(true), s, m) == TicketEnd(s, m, true)
  {
    var p := Grp(true);
    assert p[1..] == [Plus(Digit), Lit('-'), Plus(Digit)];
    assert p[1..][1..] == [Lit('-'), Plus(Digit)];
    assert p[1..][1..][1..] == [Plus(Digit)];
    assert p[1..][1..][1..][1..] == [];
  }

  lemma ScanTicketLetters(s: string, m: nat)
    requires m <= |s|
    ensures Scan(Grp(false), s, m) == TicketEnd(s, m, false)
  {
    var p := Grp(false);
    assert p[1..] == [Lit('-'), Plus(Digit)];
    assert p[1..][1..] == [Plus(Digit)];
    assert p[1..][1..][1..] == [];
  }


  /** Each pattern's group is a word of `[A-Z]+\d*-\d+` taken from the
      text. */
  lemma TicketGroup(g: Grouped, s: string, digits: bool)
    requires g.grp == Grp(digits)
    ensures FindGroup(g, s).Some? ==> IsTicket(FindGroup(g, s).value) && Contains(s, FindGroup(g, s).value)
  {
    match FindFrom(g.Whole(), s, 0)
    case None =>
    case Some((a, _)) =>
      var (m, n, _) := ScanGroup(g, s, a).value;
      var mm := Scan(g.pre, s, a).value;
      assert mm == m;
      assert Scan(g.grp, s, m) == Some(n);
      ScanTicket(s, m, digits);
      OccursAtSlice(s, s[m..n], m);
  }

  /** The first of `ps` that matches, and its group. */
  function FirstMatch(ps: seq<Grouped>, text: string): (r: Option<string>)
    ensures r.Some? ==> exists q :: q in ps && FindGroup(q, text) == r
    ensures r.None? <==> forall q :: q in ps ==> FindGroup(q, text).None?
    decreases |ps|
  {
    if |ps| == 0 then None
    else match FindGroup(ps[0], text)
      case Some(k) => Some(k)
      case None => FirstMatch(ps[1..], text)
  }

  /** The key read from a title or a branch name
      (`enhanceTemplateWithTimeAndTicket`, `handleJiraIntegration`). */
  function FindTicket(text: string): (r: Option<string>)
    ensures r.Some? ==> IsTicket(r.value) && Contains(text, r.value)
  {
    forall q | q in KeyPatterns
      ensures FindGroup(q, text).Some? ==> IsTicket(FindGroup(q, text).value) && Contains(text, FindGroup(q, text).value)
    {
      TicketGroup(q, text, q.grp == GrpDigits);
    }
    FirstMatch(KeyPatterns, text)
  }

  /** A ticket written at `m` and ended by a character that is neither a
      letter nor a digit is the word the group pattern reads there, when
      the pattern agrees on whether the code has digits. */
  lemma TicketEndAt(s: string, m: nat, k: string, i: nat, j: nat, digits: bool)
    requires m + |k| < |s| && 0 < i <= j && j + 1 < |k| && TicketSplit(k, i, j)
    requires OccursAt(s, k, m)
    requires !IsUpper(s[m + |k|]) && !IsDigit(s[m + |k|])
    ensures TicketEnd(s, m, digits) == if digits == (i < j) then Some(m + |k|) else None
  {
    OccursAtChar(s, k, m, i);
    OccursAtChar(s, k, m, j);
    OccursAtChar(s, k, m, j + 1);
    SplitClasses(k, i, j);
    RunEndOfWord(Upper, s, m, k, 0, i);
    if i < j {
      RunEndOfWord(Digit, s, m, k, i, j);
    }
    RunEndOfWord(Digit, s, m, k, j + 1, |k|);
  }

  /** The parts of a ticket, as classes of the patterns. */
  lemma SplitClasses(k: string, i: nat, j: nat)
    requires i <= j < |k| && TicketSplit(k, i, j)
    ensures forall t :: 0 <= t < i ==> In(Upper, k[t])
    ensures forall t :: i <= t < j ==> In(Digit, k[t])
    ensures forall t :: j + 1 <= t < |k| ==> In(Digit, k[t])
  {
  }

  /** The characters of `pre + "[" + k + "]" + post`, by position. */
  lemma TicketBracketLayout(pre: string, k: string, post: string, s: string)
    requires '[' !in pre && '[' !in k && '[' !in post && s == pre + "[" + k + "]" + post
    ensures |s| == |pre| + |k| + 2 + |post|
    ensures s[|pre|] == '[' && s[|pre| + 1 + |k|] == ']'
    ensures OccursAt(s, k, |pre| + 1) && OnlyCharAt(s, '[', |pre|)
  {
    assert s[|pre| + 1..|pre| + 1 + |k|] == k;
    OccursAtSlice(s, k, |pre| + 1);
    forall t | 0 <= t < |s| && t != |pre| ensures s[t] != '[' {
      if t < |pre| {
        assert s[t] == pre[t];
      } else if t < |pre| + 1 + |k| {
        assert s[t] == k[t - |pre| - 1];
      } else if t > |pre| + 1 + |k| {
        assert s[t] == post[t - |pre| - 2 - |k|];
      }
    }
  }

  /** A ticket is made of upper-case letters, digits and dashes. */
  lemma TicketChars(k: string)
    requires IsTicket(k)
    ensures forall c :: c in k ==> IsUpper(c) || IsDigit(c) || c == '-'
  {
    var i, j :| 0 < i <= j && j + 1 < |k| && TicketSplit(k, i, j);
    forall c | c in k ensures IsUpper(c) || IsDigit(c) || c == '-' {
      var t :| 0 <= t < |k| && k[t] == c;
    }
  }

  /** A bracketed pattern at a `[`: the ticket after it, then `]`. */
  lemma ScanBracketed(g: Grouped, s: string, p: nat, digits: bool)
    requires g.pre == [Lit('[')] && g.grp == Grp(digits) && g.post == [Lit(']')]
    requires p < |s| && s[p] == '['
    ensures ScanGroup(g, s, p) ==
      match TicketEnd(s, p + 1, digits)
      case None => None
      case Some(n) => if n < |s| && s[n] == ']' then Some((p + 1, n, n + 1)) else None
  {
    ScanOneLit(g.pre, '[', s, p);
    ScanTicket(s, p + 1, digits);
    match TicketEnd(s, p + 1, digits)
    case None =>
      ScanGroupMiss(g, s, p, p + 1);
    case Some(n) =>
      ScanOneLit(g.post, ']', s, n);
      ScanGroupThen(g, s, p, p + 1, n);
  }

  /** A bracketed pattern cannot match where there is no `[`. */
  lemma BracketedOnlyAt(g: Grouped, s: string, p: nat)
    requires g.pre == [Lit('[')] && OnlyCharAt(s, '[', p)
    ensures MatchesOnlyAt(g.Whole(), s, p)
  {
    assert g.Whole()[0] == Lit('[');
    forall a | 0 <= a <= |s| && a != p ensures Scan(g.Whole(), s, a).None? {
      ScanLitFirst(g.Whole(), '[', s, a);
    }
  }

  /** When the only `[` of `s` is at `p` and a ticket in brackets follows
      it, a bracketed pattern reads that ticket if it agrees on whether the
      code has digits, and nothing otherwise. */
  lemma BracketedAt(g: Grouped, s: string, p: nat, k: string, i: nat, j: nat, digits: bool)
    requires g.pre == [Lit('[')] && g.grp == Grp(digits) && g.post == [Lit(']')]
    requires p + |k| + 2 <= |s| && s[p] == '[' && s[p + 1 + |k|] == ']'
    requires OccursAt(s, k, p + 1) && OnlyCharAt(s, '[', p)
    requires 0 < i <= j && j + 1 < |k| && TicketSplit(k, i, j)
    ensures FindGroup(g, s) == if digits == (i < j) then Some(k) else None
  {
    BracketedOnlyAt(g, s, p);
    TicketEndAt(s, p + 1, k, i, j, digits);
    ScanBracketed(g, s, p, digits);
    if digits == (i < j) {
      OccursAtSlice(s, k, p + 1);
      BracketedFound(g, s, p, k);
    } else {
      BracketedNone(g, s, p);
    }
  }

  lemma BracketedFound(g: Grouped, s: string, p: nat, k: string)
    requires p + |k| + 2 <= |s| && s[p + 1..p + 1 + |k|] == k
    requires ScanGroup(g, s, p) == Some((p + 1, p + 1 + |k|, p + 2 + |k|))
    requires MatchesOnlyAt(g.Whole(), s, p)
    ensures FindGroup(g, s) == Some(k)
  {
    FindGroupOnly(g, s, p, p + 1, p + 1 + |k|, p + 2 + |k|);
  }

  lemma BracketedNone(g: Grouped, s: string, p: nat)
    requires p <= |s| && ScanGroup(g, s, p).None?
    requires MatchesOnlyAt(g.Whole(), s, p)
    ensures FindGroup(g, s).None?
  {
    assert Scan(g.Whole(), s, p).None?;
  }

  /** The first pattern's group, else the second's, when either matches. */
  lemma FirstOfTwo(ps: seq<Grouped>, s: string, k: string)
    requires |ps| >= 2
    requires FindGroup(ps[0], s) == Some(k) || (FindGroup(ps[0], s).None? && FindGroup(ps[1], s) == Some(k))
    ensures FirstMatch(ps, s) == Some(k)
  {
    assert ps[1..][0] == ps[1];
  }

  /** The bracketed ticket at the only `[` of `s` is the key. */
  lemma BracketedTicketAt(s: string, p: nat, k: string)
    requires p + |k| + 2 <= |s| && s[p] == '[' && s[p + 1 + |k|] == ']'
    requires OccursAt(s, k, p + 1) && OnlyCharAt(s, '[', p) && IsTicket(k)
    ensures FindTicket(s) == Some(k)
  {
    var i, j :| 0 < i <= j && j + 1 < |k| && TicketSplit(k, i, j);
    BracketedAt(KeyPatterns[0], s, p, k, i, j, true);
    BracketedAt(KeyPatterns[1], s, p, k, i, j, false);
    FirstOfTwo(KeyPatterns, s, k);
  }

  /** A ticket in the only brackets of a title is the key, even when an
      unbracketed ticket comes before it. */
  lemma BracketedTicketFirst(pre: string, k: string, post: string)
    requires '[' !in pre && '[' !in post && IsTicket(k)
    ensures FindTicket(pre + "[" + k + "]" + post) == Some(k)
  {
    var s := pre + "[" + k + "]" + post;
    assert '[' !in k by { TicketChars(k); }
    TicketBracketLayout(pre, k, post, s);
    BracketedTicketAt(s, |pre|, k);
  }

  /** A number typed after a template's ticket pattern that ends in `-`
      makes the formatted `[PATTERN NUMBER]` a key the title reader
      finds: the pattern with the number. */
  lemma FormattedTicketFound(template: PullRequestTemplateService.Template, p: string, n: string)
    requires template.ticketPattern == Some(p) && PullRequestTemplateService.IsTicketPattern(p)
    requires |p| > 0 && p[|p| - 1] == '-' && IsDigitString(n)
    ensures FindTicket(PullRequestTemplateService.FormatTicketNumber(template, n)) == Some(p + n)
  {
    var i, j :| 0 < i < j <= |p| && PullRequestTemplateService.TicketSplit(p, i, j);
    assert IsDigit(p[j - 1]);
    assert j == |p| - 1;
    var k := p + n;
    assert TicketSplit(k, i, j);
    assert IsTicket(k);
    assert !IsWhitespace(n[0]);
    assert "[" + p + n + "]" == "" + "[" + k + "]" + "";
    BracketedTicketFirst("", k, "");
  }

  /** A pattern without `-`, such as `AIP698`, and a number give a
      bracketed word, `[AIP69845]`, that holds no key. */
  lemma DashlessTicketNotFound(template: PullRequestTemplateService.Template, p: string, n: string)
    requires template.ticketPattern == Some(p) && PullRequestTemplateService.IsTicketPattern(p)
    requires '-' !in p && IsDigitString(n)
    ensures FindTicket(PullRequestTemplateService.FormatTicketNumber(template, n)) == None
  {
    var r := PullRequestTemplateService.FormatTicketNumber(template, n);
    assert !IsWhitespace(n[0]);
    assert r == "[" + p + n + "]";
    forall t | 0 <= t < |r| ensures r[t] != '-' {
      if 0 < t <= |p| { assert r[t] == p[t - 1]; }
      else if |p| < t < |r| - 1 { assert r[t] == n[t - 1 - |p|]; }
    }
    NoDashNoTicket(r);
  }

  /** Every key holds a `-`, so a text without one has no key. */
  lemma NoDashNoTicket(text: string)
    requires forall t :: 0 <= t < |text| ==> text[t] != '-'
    ensures FindTicket(text) == None
  {
    TicketHasDash(text);
  }

  /** A text in which a key is found holds a `-`. */
  lemma TicketHasDash(text: string)
    ensures FindTicket(text).Some? ==> exists t :: 0 <= t < |text| && text[t] == '-'
  {
    if FindTicket(text).Some? {
      var k := FindTicket(text).value;
      var i, j :| 0 < i <= j && j + 1 < |k| && TicketSplit(k, i, j);
      var m: nat :| m <= |text| && OccursAt(text, k, m);
      OccursAtPointwise(text, k, m);
      assert text[m + j] == '-';
    }
  }

  // ---------------------------------------------------------------------
  // Rewriting the template's `[CODE-]` tokens to the title's key

  /** Where `\[([A-Z]+\d*)-\]` matches at `a`: the bracket, the code and the
      closing `-]`. */
  lemma TokenAt(s: string, a: nat)
    requires a <= |s| && ScanGroup(ProjectPrefixService.PrefixRegex, s, a).Some?
    ensures var (m, n, b) := ScanGroup(ProjectPrefixService.PrefixRegex, s, a).value;
      && m == a + 1 && b == n + 2 && b > a
      && ProjectPrefixService.IsCode(s[m..n]) && OccursAt(s, "[" + s[m..n] + "-]", a)
  {
    var g := ProjectPrefixService.PrefixRegex;
    var (m, n, b) := ScanGroup(g, s, a).value;
    assert g.pre[1..] == [] && g.post[1..] == [Lit(']')] && g.post[1..][1..] == [];
    assert m == a + 1 && s[a] == '[';
    ProjectPrefixService.ScanCode(s, m);
    assert n + 2 <= |s| && s[n] == '-' && s[n + 1] == ']';
    assert s[a..n + 2] == "[" + s[m..n] + "-]";
    OccursAtSlice(s, "[" + s[m..n] + "-]", a);
  }

  /** `Regex("\\[([A-Z]+\\d*)-\\]").findAll(s).map { it.groupValues[1] }`
      from position `i`: each search resumes where the last match ended. */
  function TokensFrom(s: string, i: nat): (r: seq<string>)
    requires i <= |s|
    ensures forall t :: 0 <= t < |r| ==> ProjectPrefixService.IsCode(r[t]) && Contains(s, "[" + r[t] + "-]")
    decreases |s| - i
  {
    match FindFrom(ProjectPrefixService.PrefixRegex.Whole(), s, i)
    case None => []
    case Some((a, _)) =>
      TokenAt(s, a);
      var (m, n, b) := ScanGroup(ProjectPrefixService.PrefixRegex, s, a).value;
      [s[m..n]] + TokensFrom(s, b)
  }

  /** Strings compare as themselves. */
  function Itself(x: string): string { x }

  /** Kotlin's `distinct()`: the first occurrence of each element, in order. */
  function Distinct(s: seq<string>): (r: seq<string>)
    ensures forall x :: x in r <==> x in s
    ensures Sorting.DistinctBy(r, Itself)
    decreases |s|
  {
    if |s| == 0 then []
    else
      var d := Distinct(s[..|s| - 1]);
      assert s == s[..|s| - 1] + [s[|s| - 1]];
      if s[|s| - 1] in d then d else d + [s[|s| - 1]]
  }

  /** The token `[X-]` of a template. */
  function Token(x: string): string { "[" + x + "-]" }

  /** The link stem `browse/X-` of a template. */
  function Browse(x: string): string { "browse/" + x + "-" }

  /** Every `[X-]` and `browse/X-` for each `X` of `hs` in turn becomes
      `[p-]` and `browse/p-`. */
  function Retarget(s: string, hs: seq<string>, p: string): string
    decreases |hs|
  {
    if |hs| == 0 then s
    else Retarget(ReplaceAll(ReplaceAll(s, Token(hs[0]), Token(p)), Browse(hs[0]), Browse(p)), hs[1..], p)
  }

  /** The project code of a key: what comes before its first dash. */
  function ProjectCode(k: string): string { SubstringBefore(k, "-") }

  /** The issue number of a key: what comes after its first dash. */
  function KeyNumber(k: string): string { SubstringAfter(k, "-") }

  /** The ticket step of `enhanceTemplateWithTimeAndTicket` for the key `k`:
      every template code is first pointed at the key's project code, then
      `[CODE-]` and `browse/CODE-` get the whole key. */
  function RewriteWithKey(content: string, k: string): string {
    var p := ProjectCode(k);
    var s := Retarget(content, Distinct(TokensFrom(content, 0)), p);
    ReplaceAll(ReplaceAll(s, Token(p), "[" + k + "]"), Browse(p), "browse/" + k)
  }

  /** A template with neither a `[` nor a `b` has no token and no link
      to rewrite. */
  lemma NothingToRewrite(content: string, k: string)
    requires '[' !in content && 'b' !in content
    ensures RewriteWithKey(content, k) == content
  {
    var p := ProjectCode(k);
    TokensNone(content, 0);
    assert Distinct([]) == [];
    AbsentByFirst(content, Token(p));
    ReplaceAbsent(content, Token(p), "[" + k + "]");
    AbsentByFirst(content, Browse(p));
    ReplaceAbsent(content, Browse(p), "browse/" + k);
  }

  /** The ticket step, with the key read from the title: without a key, or
      without a token or link in the template, the template is kept. */
  function RewriteTicket(content: string, title: string): (r: string)
    ensures FindTicket(title).None? ==> r == content
    ensures '[' !in content && 'b' !in content ==> r == content
  {
    match FindTicket(title)
    case None => content
    case Some(k) =>
      if '[' !in content && 'b' !in content then
        NothingToRewrite(content, k);
        RewriteWithKey(content, k)
      else RewriteWithKey(content, k)
  }

  /** Where `x` first occurs in `s`. */
  function FirstIndex(s: seq<string>, x: string): (r: nat)
    requires x in s
    ensures r < |s| && s[r] == x
    ensures forall j :: 0 <= j < r ==> s[j] != x
    decreases |s|
  {
    if s[0] == x then 0
    else
      var r := 1 + FirstIndex(s[1..], x);
      assert forall j :: 1 <= j < r ==> s[j] == s[1..][j - 1];
      r
  }

  /** An element of `a` first occurs where it did in `a` after anything is
      appended. */
  lemma FirstIndexPrefix(a: seq<string>, b: seq<string>, x: string)
    requires x in a
    ensures FirstIndex(a + b, x) == FirstIndex(a, x)
  {
    var k := FirstIndex(a, x);
    assert (a + b)[k] == x;
  }

  /** The elements `distinct()` keeps are in the order of their first
      occurrences in the input. */
  lemma {:induction false} DistinctKeepsOrder(s: seq<string>)
    ensures forall i, j :: 0 <= i < j < |Distinct(s)| ==> FirstIndex(s, Distinct(s)[i]) < FirstIndex(s, Distinct(s)[j])
    decreases |s|
  {
    if |s| > 0 {
      var init, y := s[..|s| - 1], s[|s| - 1];
      assert s == init + [y];
      DistinctKeepsOrder(init);
      OrderExtends(Distinct(init), init, y);
    }
  }

  /** Appending `y` to the input keeps the first-occurrence order of `d`,
      and of `d` with `y` after it when `y` is new. */
  lemma OrderExtends(d: seq<string>, init: seq<string>, y: string)
    requires forall x :: x in d <==> x in init
    requires forall i, j :: 0 <= i < j < |d| ==> FirstIndex(init, d[i]) < FirstIndex(init, d[j])
    ensures forall i, j :: 0 <= i < j < |d| ==> FirstIndex(init + [y], d[i]) < FirstIndex(init + [y], d[j])
    ensures y !in d ==> forall i, j :: 0 <= i < j < |d + [y]| ==>
      FirstIndex(init + [y], (d + [y])[i]) < FirstIndex(init + [y], (d + [y])[j])
  {
    var s := init + [y];
    forall x | x in d ensures FirstIndex(s, x) == FirstIndex(init, x) < |init| {
      FirstIndexPrefix(init, [y], x);
    }
    if y !in d {
      var r := d + [y];
      assert FirstIndex(s, y) == |init|;
      forall i, j | 0 <= i < j < |r| ensures FirstIndex(s, r[i]) < FirstIndex(s, r[j]) {
        assert r[i] == d[i] && r[i] in d;
        if j < |d| { assert r[j] == d[j] && r[j] in d; }
      }
    }
  }

  /** `distinct()` leaves a list without repeats as it is. */
  lemma {:induction false} DistinctOfDistinct(s: seq<string>)
    requires Sorting.DistinctBy(s, Itself)
    ensures Distinct(s) == s
    decreases |s|
  {
    if |s| > 0 {
      var init := s[..|s| - 1];
      assert Sorting.DistinctBy(init, Itself) by {
        forall i, j | 0 <= i < j < |init| ensures init[i] != init[j] {
          assert init[i] == s[i] && init[j] == s[j];
        }
      }
      DistinctOfDistinct(init);
      LastIsNew(s);
      assert init + [s[|s| - 1]] == s;
    }
  }

  lemma LastIsNew(s: seq<string>)
    requires |s| > 0 && Sorting.DistinctBy(s, Itself)
    ensures s[|s| - 1] !in s[..|s| - 1]
  {
    var init := s[..|s| - 1];
    forall q | 0 <= q < |init| ensures init[q] != s[|s| - 1] {
      assert Itself(s[q]) != Itself(s[|s| - 1]);
    }
  }

  /** With no `[` from `i` on, `findAll` finds nothing more. */
  lemma TokensNone(s: string, i: nat)
    requires i <= |s| && forall t :: i <= t < |s| ==> s[t] != '['
    ensures TokensFrom(s, i) == []
  {
    var g := ProjectPrefixService.PrefixRegex;
    assert g.Whole()[0] == Lit('[');
    forall a | i <= a <= |s| ensures Scan(g.Whole(), s, a).None? {
      ScanLitFirst(g.Whole(), '[', s, a);
    }
  }

  /** A template whose only `[` opens the token `[x-]` at `a` names the one
      code `x`. */
  lemma TokensOne(s: string, a: nat, x: string)
    requires OnlyToken(s, a, x) && ProjectPrefixService.IsCode(x)
    ensures TokensFrom(s, 0) == [x]
  {
    var g := ProjectPrefixService.PrefixRegex;
    var f := a + 1 + |x|;
    ProjectPrefixService.CodeEndAt(s, a + 1, x);
    ProjectPrefixService.ScanPrefixAt(s, a, f);
    assert '[' !in s[..a] by {
      forall t | 0 <= t < a ensures s[..a][t] != '[' { assert s[..a][t] == s[t]; }
    }
    ProjectPrefixService.NoBracketNoMatch(s, a);
    assert FindFrom(g.Whole(), s, 0) == Some((a, f + 2));
    TokensNone(s, f + 2);
    TokensFromFound(s, 0, a, f + 2, a + 1, f);
    OccursAtSlice(s, x, a + 1);
  }

  /** One step of the token loop: the match found at `a` gives its code,
      and the search goes on after it. */
  lemma TokensFromFound(s: string, i: nat, a: nat, e: nat, m: nat, n: nat)
    requires i <= |s| && FindFrom(ProjectPrefixService.PrefixRegex.Whole(), s, i) == Some((a, e))
    requires ScanGroup(ProjectPrefixService.PrefixRegex, s, a) == Some((m, n, e))
    ensures m <= n <= e <= |s| && TokensFrom(s, i) == [s[m..n]] + TokensFrom(s, e)
  {
    TokenAt(s, a);
  }

  /** A key is its project code, a dash and its number; the code is
      letters and digits, the number digits. */
  lemma KeyParts(k: string)
    requires IsTicket(k)
    ensures k == ProjectCode(k) + "-" + KeyNumber(k)
    ensures forall t :: 0 <= t < |ProjectCode(k)| ==> IsUpper(ProjectCode(k)[t]) || IsDigit(ProjectCode(k)[t])
    ensures forall t :: 0 <= t < |KeyNumber(k)| ==> IsDigit(KeyNumber(k)[t])
  {
    var i, j :| 0 < i <= j && j + 1 < |k| && TicketSplit(k, i, j);
    KeyDash(k, i, j);
    AroundDash(k, j);
  }

  /** The first dash of a key is the one after its letters and digits. */
  lemma KeyDash(k: string, i: nat, j: nat)
    requires 0 < i <= j && j + 1 < |k| && TicketSplit(k, i, j)
    ensures ProjectCode(k) == k[..j] && KeyNumber(k) == k[j + 1..]
  {
    OccursAtPointwise(k, "-", j);
    assert OccursAt(k, "-", j);
    var p := SubstringBefore(k, "-");
    OccursAtPointwise(k, "-", |p|);
    assert k[|p|] == '-';
    FirstDash(k, i, j, |p|);
    assert |p| == j;
    assert IndexFrom(k, "-", 0) == Some(j);
  }

  lemma AroundDash(k: string, j: nat)
    requires j < |k| && k[j] == '-'
    ensures k == k[..j] + "-" + k[j + 1..]
  {
  }

  /** Neither a project code nor a number holds `[` or `b`. */
  lemma KeyPartChars(k: string)
    requires IsTicket(k)
    ensures '[' !in ProjectCode(k) && 'b' !in ProjectCode(k) && '[' !in KeyNumber(k) && 'b' !in KeyNumber(k)
  {
    KeyParts(k);
    var p, n := ProjectCode(k), KeyNumber(k);
    forall c | c in p ensures IsUpper(c) || IsDigit(c) {
      var t :| 0 <= t < |p| && p[t] == c;
    }
    forall c | c in n ensures IsDigit(c) {
      var t :| 0 <= t < |n| && n[t] == c;
    }
  }

  /** No dash comes before the one after the code. */
  lemma FirstDash(k: string, i: nat, j: nat, q: nat)
    requires 0 < i <= j < |k| && TicketSplit(k, i, j) && q < |k| && k[q] == '-'
    ensures q >= j
  {
  }

  /** A project code is upper-case letters and digits. */
  lemma CodeChars(x: string)
    requires ProjectPrefixService.IsCode(x)
    ensures forall c :: c in x ==> IsUpper(c) || IsDigit(c)
  {
    var i :| 0 < i <= |x| && ProjectPrefixService.CodeSplit(x, i);
    forall c | c in x ensures IsUpper(c) || IsDigit(c) {
      var t :| 0 <= t < |x| && x[t] == c;
    }
  }

  /** `s` holds the token `[X-]` at `a` and no other `[`. */
  predicate OnlyToken(s: string, a: nat, x: string) {
    && a + |x| + 3 <= |s| && s[a] == '[' && s[a + 1 + |x|] == '-' && s[a + 2 + |x|] == ']'
    && OccursAt(s, x, a + 1)
    && OnlyCharAt(s, '[', a)
  }

  /** `a + Token(x) + post`, with no other `[`, holds only that token, at `|a|`. */
  lemma TokenLayout(a: string, x: string, post: string, s: string)
    requires '[' !in a && '[' !in x && '[' !in post && s == a + Token(x) + post
    ensures OnlyToken(s, |a|, x)
  {
    assert s[|a| + 1..|a| + 1 + |x|] == x;
    OccursAtSlice(s, x, |a| + 1);
    forall t | 0 <= t < |s| && t != |a| ensures s[t] != '[' {
      if t < |a| {
        assert s[t] == a[t];
      } else if t < |a| + 1 + |x| {
        assert s[t] == x[t - |a| - 1];
      } else if t >= |a| + 3 + |x| {
        assert s[t] == post[t - |a| - 3 - |x|];
      }
    }
  }

  lemma Regroup(a: string, b: string, c: string, d: string, e: string)
    ensures a + b + (c + d + e) == a + b + c + d + e
  {
  }

  /** The one code of a template with one token is pointed at `p`. */
  lemma RetargetOne(a: string, x: string, m: string, z: string, p: string)
    requires '[' !in a && '[' !in m && '[' !in z && 'b' !in a && 'b' !in m && 'b' !in z
    requires '[' !in p && 'b' !in p && ProjectPrefixService.IsCode(x)
    ensures var c := a + Token(x) + m + Browse(x) + z;
      Retarget(c, Distinct(TokensFrom(c, 0)), p) == a + Token(p) + m + Browse(p) + z
  {
    var c := a + Token(x) + m + Browse(x) + z;
    CodeChars(x);
    OneTokenOf(a, x, m, z);
    RetargetSingle(c, x, p);
    SwapToken(a, x, m, z, p);
    SwapBrowse(a, x, m, z, p);
  }

  /** The codes of a template with one token. */
  lemma OneTokenOf(a: string, x: string, m: string, z: string)
    requires '[' !in a && '[' !in m && '[' !in z && 'b' !in m && 'b' !in z
    requires ProjectPrefixService.IsCode(x) && '[' !in x
    ensures Distinct(TokensFrom(a + Token(x) + m + Browse(x) + z, 0)) == [x]
  {
    var post := m + Browse(x) + z;
    assert '[' !in Browse(x);
    assert '[' !in post;
    Regroup(a, Token(x), m, Browse(x), z);
    TokensOfOne(a, x, post);
    assert Distinct([x]) == [x];
  }

  /** A text whose only `[` opens the token `[X-]` has the one code `X`. */
  lemma TokensOfOne(a: string, x: string, post: string)
    requires '[' !in a && '[' !in x && '[' !in post && ProjectPrefixService.IsCode(x)
    ensures TokensFrom(a + Token(x) + post, 0) == [x]
  {
    var s := a + Token(x) + post;
    TokenLayout(a, x, post, s);
    TokensOne(s, |a|, x);
  }

  /** Retargeting one code replaces its token, then its link stem. */
  lemma RetargetSingle(c: string, x: string, p: string)
    ensures Retarget(c, [x], p) == ReplaceAll(ReplaceAll(c, Token(x), Token(p)), Browse(x), Browse(p))
  {
    assert [x][1..] == [];
  }

  lemma SwapToken(a: string, x: string, m: string, z: string, p: string)
    requires '[' !in a && '[' !in m && '[' !in z && '[' !in x
    ensures ReplaceAll(a + Token(x) + m + Browse(x) + z, Token(x), Token(p)) == a + Token(p) + m + Browse(x) + z
  {
    var post := m + Browse(x) + z;
    assert Token(x)[0] == '[';
    Regroup(a, Token(x), m, Browse(x), z);
    ReplaceUnique(a, Token(x), post, Token(p));
    Regroup(a, Token(p), m, Browse(x), z);
  }

  lemma SwapBrowse(a: string, x: string, m: string, z: string, p: string)
    requires 'b' !in a && 'b' !in m && 'b' !in z && 'b' !in p
    ensures ReplaceAll(a + Token(p) + m + Browse(x) + z, Browse(x), Browse(p)) == a + Token(p) + m + Browse(p) + z
  {
    assert Browse(x)[0] == 'b';
    assert 'b' !in Token(p);
    ReplaceUnique(a + Token(p) + m, Browse(x), z, Browse(p));
  }

  /** `[p-]` and `browse/p-`, each written once, get the key. */
  lemma FinishOne(a: string, m: string, z: string, p: string, k: string)
    requires '[' !in a && '[' !in m && '[' !in z && 'b' !in a && 'b' !in m && 'b' !in z
    requires '[' !in p && 'b' !in p && 'b' !in k
    ensures var s1 := ReplaceAll(a + Token(p) + m + Browse(p) + z, Token(p), "[" + k + "]");
      ReplaceAll(s1, Browse(p), "browse/" + k) == a + "[" + k + "]" + m + "browse/" + k + z
  {
    assert Token(p)[0] == '[' && Browse(p)[0] == 'b';
    Regroup(a, Token(p), m, Browse(p), z);
    ReplaceUnique(a, Token(p), m + Browse(p) + z, "[" + k + "]");
    Regroup(a, "[" + k + "]", m, Browse(p), z);
    ReplaceUnique(a + ("[" + k + "]") + m, Browse(p), z, "browse/" + k);
    assert a + ("[" + k + "]") + m + ("browse/" + k) + z == a + "[" + k + "]" + m + "browse/" + k + z;
  }

  /** A template with one token `[x-]` and one link stem `browse/x-`, and
      no other `[` or `b`, gets the key in both places. */
  lemma RewriteOneToken(a: string, x: string, m: string, z: string, k: string)
    requires '[' !in a && '[' !in m && '[' !in z && 'b' !in a && 'b' !in m && 'b' !in z
    requires ProjectPrefixService.IsCode(x) && IsTicket(k)
    ensures RewriteWithKey(a + Token(x) + m + Browse(x) + z, k) == a + "[" + k + "]" + m + "browse/" + k + z
  {
    TicketChars(k);
    KeyPartChars(k);
    RetargetOne(a, x, m, z, ProjectCode(k));
    FinishOne(a, m, z, ProjectCode(k), k);
  }

  /** A link that already carries the key gets the key's number once more:
      `browse/AIP123-45` becomes `browse/AIP123-4545` on a second pass. */
  lemma ReRenderRepeatsNumber(a: string, z: string, k: string)
    requires '[' !in a && '[' !in z && 'b' !in a && 'b' !in z && IsTicket(k)
    ensures RewriteWithKey(a + "browse/" + k + z, k) == a + "browse/" + k + KeyNumber(k) + z
  {
    var p, n := ProjectCode(k), KeyNumber(k);
    var c := a + "browse/" + k + z;
    KeyParts(k);
    KeyPartChars(k);
    assert '[' !in c by { TicketChars(k); }
    RewriteWithoutTokens(c, k);
    assert Browse(p)[0] == 'b';
    BrowseKeyLayout(a, z, k, p, n);
    ReplaceUnique(a, Browse(p), n + z, "browse/" + k);
    Regroup(a, "browse/", k, n, z);
  }

  /** The link `browse/CODE-N` is the stem of its code and the number. */
  lemma BrowseKeyLayout(a: string, z: string, k: string, p: string, n: string)
    requires k == p + "-" + n
    ensures a + "browse/" + k + z == a + Browse(p) + (n + z)
    ensures a + ("browse/" + k) + (n + z) == a + "browse/" + k + (n + z)
  {
  }

  /** A text with no `[` has no token: only its link stems get the key. */
  lemma RewriteWithoutTokens(c: string, k: string)
    requires '[' !in c
    ensures RewriteWithKey(c, k) == ReplaceAll(c, Browse(ProjectCode(k)), "browse/" + k)
  {
    var p := ProjectCode(k);
    TokensNone(c, 0);
    assert Distinct([]) == [];
    assert Token(p)[0] == '[';
    ReplaceWithoutFirst(c, Token(p), "[" + k + "]");
  }

  // ---------------------------------------------------------------------
  // Placeholders

  /** `{{` and a name that holds no `{`. */
  predicate IsPlaceholder(ph: string) {
    |ph| >= 3 && ph[0] == '{' && ph[1] == '{' && '{' !in ph[2..]
  }

  /** A placeholder `{{name`, its closing braces being part of the name. */
  function Ph(name: string): string { "{{" + name }

  /** The placeholders and their values, in the order they are replaced:
      `{{title}}`, `{{estimate_time}}`, `{{actual_time}}`, then the same in
      upper case. */
  function Fills(title: string, estimate: string, actual: string): (r: seq<(string, string)>)
    ensures |r| == 6
  {
    [(Ph("title}}"), title), (Ph("estimate_time}}"), estimate), (Ph("actual_time}}"), actual),
     (Ph("TITLE}}"), title), (Ph("ESTIMATE_TIME}}"), estimate), (Ph("ACTUAL_TIME}}"), actual)]
  }

  /** Each placeholder replaced in turn, everywhere it occurs. */
  function ReplaceEach(s: string, fills: seq<(string, string)>): string
    requires forall j :: 0 <= j < |fills| ==> IsPlaceholder(fills[j].0)
    decreases |fills|
  {
    if |fills| == 0 then s
    else
      assert IsPlaceholder(fills[0].0);
      ReplaceEach(ReplaceAll(s, fills[0].0, fills[0].1), fills[1..])
  }

  /** The six `replace` calls of `formatPullRequestContent`. */
  function Substitute(content: string, title: string, estimate: string, actual: string): (r: string)
    ensures '{' !in content ==> r == content
  {
    FillsSeparable(title, estimate, actual);
    if '{' !in content then
      NoBraceFixed(content, Fills(title, estimate, actual));
      ReplaceEach(content, Fills(title, estimate, actual))
    else ReplaceEach(content, Fills(title, estimate, actual))
  }

  /** Placeholders that no two share a name's first letter. */
  predicate Separable(fills: seq<(string, string)>) {
    && (forall j :: 0 <= j < |fills| ==> IsPlaceholder(fills[j].0))
    && (forall j, l :: 0 <= j < l < |fills| ==> fills[j].0[2] != fills[l].0[2])
  }

  lemma PlaceholderName(name: string)
    requires |name| > 0 && '{' !in name
    ensures IsPlaceholder(Ph(name)) && Ph(name)[2] == name[0]
  {
    assert Ph(name)[2..] == name;
  }

  /** The six placeholders are told apart by their third character. */
  lemma FillsSeparable(title: string, estimate: string, actual: string)
    ensures Separable(Fills(title, estimate, actual))
  {
    var f := Fills(title, estimate, actual);
    var names := ["title}}", "estimate_time}}", "actual_time}}", "TITLE}}", "ESTIMATE_TIME}}", "ACTUAL_TIME}}"];
    forall j | 0 <= j < 6 ensures IsPlaceholder(f[j].0) && f[j].0[2] == names[j][0] {
      assert f[j].0 == Ph(names[j]);
      PlaceholderName(names[j]);
    }
    assert [names[0][0], names[1][0], names[2][0], names[3][0], names[4][0], names[5][0]] == "teaTEA";
  }

  /** Text without `{` holds no placeholder, so every replacement leaves it
      alone. */
  lemma {:induction false} NoBraceFixed(s: string, fills: seq<(string, string)>)
    requires '{' !in s && forall j :: 0 <= j < |fills| ==> IsPlaceholder(fills[j].0)
    ensures ReplaceEach(s, fills) == s
    decreases |fills|
  {
    if |fills| > 0 {
      ReplaceWithoutFirst(s, fills[0].0, fills[0].1);
      NoBraceFixed(s, fills[1..]);
    }
  }

  /** In `a + ph + b` the only `{{` followed by `c` would be the
      placeholder's, so none is when `c` is not its third character. */
  lemma NoBracesBefore(a: string, ph: string, b: string, c: char)
    requires '{' !in a && '{' !in b && IsPlaceholder(ph) && ph[2] != c
    ensures var s := a + ph + b;
      forall t :: 0 <= t && t + 2 < |s| ==> !(s[t] == '{' && s[t + 1] == '{' && s[t + 2] == c)
  {
    var s := a + ph + b;
    forall t | 0 <= t && t + 2 < |s| ensures !(s[t] == '{' && s[t + 1] == '{' && s[t + 2] == c) {
      if t < |a| {
        assert s[t] == a[t];
      } else if t == |a| {
        assert s[t + 2] == ph[2];
      } else if t < |a| + |ph| - 1 {
        assert s[t + 1] == ph[t + 1 - |a|] == ph[2..][t - 1 - |a|];
      } else {
        assert s[t + 1] == b[t + 1 - |a| - |ph|];
      }
    }
  }

  /** A placeholder that is not the one written in `a + ph + b` is absent. */
  lemma OtherPlaceholderAbsent(a: string, ph: string, b: string, other: string)
    requires '{' !in a && '{' !in b && IsPlaceholder(ph) && IsPlaceholder(other) && ph[2] != other[2]
    ensures !Contains(a + ph + b, other)
  {
    var s := a + ph + b;
    NoBracesBefore(a, ph, b, other[2]);
    forall t: nat | t <= |s| ensures !OccursAt(s, other, t) {
      OccursAtPointwise(s, other, t);
    }
  }

  /** A lone placeholder in text without other braces gets its value, when
      no value brings a brace of its own. */
  lemma {:induction false} OnePlaceholderFilled(a: string, b: string, fills: seq<(string, string)>, i: nat)
    requires '{' !in a && '{' !in b && Separable(fills) && i < |fills|
    requires forall j :: 0 <= j < |fills| ==> '{' !in fills[j].1
    ensures ReplaceEach(a + fills[i].0 + b, fills) == a + fills[i].1 + b
    decreases |fills|
  {
    var rest := fills[1..];
    assert Separable(rest) by {
      forall j, l | 0 <= j < l < |rest| ensures rest[j].0[2] != rest[l].0[2] {
        assert rest[j] == fills[j + 1] && rest[l] == fills[l + 1];
      }
    }
    if i == 0 {
      ReplaceUnique(a, fills[0].0, b, fills[0].1);
      NoBraceFixed(a + fills[0].1 + b, rest);
    } else {
      OtherPlaceholderAbsent(a, fills[i].0, b, fills[0].0);
      ReplaceAbsent(a + fills[i].0 + b, fills[0].0, fills[0].1);
      assert fills[i] == rest[i - 1];
      OnePlaceholderFilled(a, b, rest, i - 1);
    }
  }

  /** Every placeholder, lower- or upper-case, stands for its input:
      `{{title}}` and `{{TITLE}}` for the title, and so on. */
  lemma PlaceholderFilled(a: string, b: string, i: nat, title: string, estimate: string, actual: string)
    requires '{' !in a && '{' !in b && '{' !in title && '{' !in estimate && '{' !in actual && i < 6
    ensures var f := Fills(title, estimate, actual);
      Substitute(a + f[i].0 + b, title, estimate, actual) == a + f[i].1 + b
  {
    FillsSeparable(title, estimate, actual);
    OnePlaceholderFilled(a, b, Fills(title, estimate, actual), i);
  }

  // ---------------------------------------------------------------------
  // The rendered body

  /** `enhanceTemplateWithTimeAndTicket`: the ticket step, then the time
      sections; `None` where the time step throws. */
  function Enhance(content: string, title: string, estimate: string, actual: string): (r: Option<string>)
    ensures (FindTicket(title).None? || ('[' !in content && 'b' !in content)) && IsBlank(estimate) && IsBlank(actual)
            ==> r == Some(content)
  {
    PullRequestTimes.EnhanceTimes(RewriteTicket(content, title), estimate, actual)
  }

  /** A time as the fixed body shows it: `0m` when blank. */
  function DefaultTime(raw: string): string {
    if IsBlank(raw) then "0m" else PullRequestTimes.TimeText(raw)
  }

  /** The key the fixed body links: Jira's own key pattern on a non-blank
      title. */
  function DefaultKey(title: string): Option<string> {
    if IsBlank(title) then None else JiraService.ExtractTicketKey(title)
  }

  const ResolvedHeading: string := "# Resolved tickets"
  const BrowseBase: string := "https://apero.atlassian.net/" + "browse/"
  const CheckItem: string := "- [ ] Copy/paste PR link" + " into issued tickets"

  /** `- [k](…/browse/k)` */
  function ResolvedLine(k: string): string {
    "- [" + k + "](" + BrowseBase + k + ")"
  }

  /** The six lines of `getDefaultFormattedContent`, before they are
      joined. */
  function DefaultLines(title: string, estimate: string, actual: string): (r: seq<string>)
    ensures |r| == 6
  {
    var h := PullRequestTimes.Dialog;
    [ResolvedHeading,
     ResolvedLine(DefaultKey(title).GetOr("TICKET-KEY")),
     PullRequestTimes.EstimateLine(h, DefaultTime(estimate)),
     PullRequestTimes.ActualLine(h, DefaultTime(actual)),
     h.checkList,
     CheckItem]
  }

  /** `getDefaultFormattedContent`: the lines joined by `\n`; `trimIndent`
      only normalises line breaks, since the first and last lines are not
      blank and the heading lines have no indent.  Split at `\n`, it gives
      back its six lines when the times hold no line break. */
  function DefaultContent(title: string, estimate: string, actual: string): (r: string)
    ensures RegexReplace.NoTerminator(estimate) && RegexReplace.NoTerminator(actual)
            ==> Split(r, '\n') == DefaultLines(title, estimate, actual)
  {
    if RegexReplace.NoTerminator(estimate) && RegexReplace.NoTerminator(actual) then
      DefaultLinesOneLine(title, estimate, actual);
      LinesRoundTrip(DefaultLines(title, estimate, actual));
      NormalizeLineBreaks(Join(DefaultLines(title, estimate, actual), "\n"))
    else NormalizeLineBreaks(Join(DefaultLines(title, estimate, actual), "\n"))
  }

  /** `formatPullRequestContent`: with a template selected and at least
      one listed, the template read, its placeholders filled and the
      result enhanced; the fixed body when nothing is selected or listed,
      or when rendering throws. */
  function FormatContent(selected: Option<PullRequestTemplateService.Template>,
                         listing: Option<seq<PullRequestTemplateService.Entry>>,
                         title: string, estimate: string, actual: string): (r: string)
    ensures selected.None? || |PullRequestTemplateService.AvailableTemplates(listing)| == 0 ==>
      r == DefaultContent(title, estimate, actual)
    ensures r != DefaultContent(title, estimate, actual) ==>
      && selected.Some?
      && Enhance(Substitute(PullRequestTemplateService.ReadTemplate(selected.value, listing), title, estimate, actual),
                 title, estimate, actual) == Some(r)
  {
    if selected.Some? && |PullRequestTemplateService.AvailableTemplates(listing)| > 0 then
      var content := PullRequestTemplateService.ReadTemplate(selected.value, listing);
      match Enhance(Substitute(content, title, estimate, actual), title, estimate, actual)
      case None => DefaultContent(title, estimate, actual)
      case Some(x) => x
    else DefaultContent(title, estimate, actual)
  }

  // ---------------------------------------------------------------------
  // Properties of the rendered body

  lemma AppendOneLine(a: string, b: string)
    requires RegexReplace.NoTerminator(a) && RegexReplace.NoTerminator(b)
    ensures RegexReplace.NoTerminator(a + b)
  {
    assert forall t :: |a| <= t < |a + b| ==> (a + b)[t] == b[t - |a|];
  }

  lemma ResolvedHeadingOneLine()
    ensures PullRequestTimes.OneLine(ResolvedHeading)
  {
    var x := ResolvedHeading;
    assert forall i :: 0 <= i < |x| ==> PullRequestTimes.Safe(x[i]);
    PullRequestTimes.SafeOneLine(x);
  }

  lemma BrowseBaseOneLine()
    ensures PullRequestTimes.OneLine(BrowseBase)
  {
    var x := BrowseBase;
    assert forall i :: 0 <= i < |x| ==> PullRequestTimes.Safe(x[i]);
    PullRequestTimes.SafeOneLine(x);
  }

  lemma CheckItemOneLine()
    ensures PullRequestTimes.OneLine(CheckItem)
  {
    var x := CheckItem;
    assert forall i :: 0 <= i < |x| ==> PullRequestTimes.Safe(x[i]);
    PullRequestTimes.SafeOneLine(x);
  }

  lemma ResolvedLineOneLine(k: string)
    requires RegexReplace.NoTerminator(k)
    ensures RegexReplace.NoTerminator(ResolvedLine(k))
  {
    BrowseBaseOneLine();
    var open, mid, close := "- [", "](", ")";
    assert forall i :: 0 <= i < |open| ==> !IsLineTerminator(open[i]);
    assert forall i :: 0 <= i < |mid| ==> !IsLineTerminator(mid[i]);
    assert forall i :: 0 <= i < |close| ==> !IsLineTerminator(close[i]);
    AppendOneLine(open, k);
    AppendOneLine(open + k, mid);
    AppendOneLine(open + k + mid, BrowseBase);
    AppendOneLine(open + k + mid + BrowseBase, k);
    AppendOneLine(open + k + mid + BrowseBase + k, close);
  }

  lemma KeyOneLine(k: string)
    requires JiraService.IsKey(k)
    ensures RegexReplace.NoTerminator(k)
  {
    var i :| 0 < i < |k| - 1 && JiraService.KeySplit(k, i);
    forall t | 0 <= t < |k| ensures !IsLineTerminator(k[t]) {
      if t < i { assert IsUpper(k[t]); } else if t > i { assert IsDigit(k[t]); }
    }
  }

  lemma DefaultTimeOneLine(raw: string)
    requires RegexReplace.NoTerminator(raw)
    ensures RegexReplace.NoTerminator(DefaultTime(raw))
  {
    if IsBlank(raw) {
      var z := "0m";
      assert forall i :: 0 <= i < |z| ==> !IsLineTerminator(z[i]);
    } else {
      PullRequestTimes.TimeTextKeeps(raw);
    }
  }

  /** Lines without a line break, joined by `\n`, normalised and split at
      `\n`, come back as they were. */
  lemma LinesRoundTrip(lines: seq<string>)
    requires |lines| >= 1 && forall j :: 0 <= j < |lines| ==> RegexReplace.NoTerminator(lines[j])
    ensures Split(NormalizeLineBreaks(Join(lines, "\n")), '\n') == lines
  {
    forall j | 0 <= j < |lines| ensures '\n' !in lines[j] && '\r' !in lines[j] {
      assert forall t :: 0 <= t < |lines[j]| ==> !IsLineTerminator(lines[j][t]);
    }
    JoinAvoids(lines, "\n", '\r');
    NormalizeWithoutCr(Join(lines, "\n"));
    SplitJoin(lines, '\n');
  }

  /** No line of the fixed body holds a line break. */
  lemma DefaultLinesOneLine(title: string, estimate: string, actual: string)
    requires RegexReplace.NoTerminator(estimate) && RegexReplace.NoTerminator(actual)
    ensures PullRequestTimes.OneLineEach(DefaultLines(title, estimate, actual))
  {
    var h := PullRequestTimes.Dialog;
    var k := DefaultKey(title).GetOr("TICKET-KEY");
    if DefaultKey(title).Some? {
      KeyOneLine(k);
    } else {
      assert forall t :: 0 <= t < |k| ==> !IsLineTerminator(k[t]);
    }
    ResolvedHeadingOneLine();
    ResolvedLineOneLine(k);
    PullRequestTimes.EstimatePrefixOneLine();
    PullRequestTimes.ActualPrefixOneLine();
    PullRequestTimes.CheckListOneLine();
    CheckItemOneLine();
    DefaultTimeOneLine(estimate);
    DefaultTimeOneLine(actual);
    AppendOneLine(h.estimatePrefix, DefaultTime(estimate));
    AppendOneLine(h.actualPrefix, DefaultTime(actual));
    SixOneLine(DefaultLines(title, estimate, actual), ResolvedHeading, ResolvedLine(k),
      PullRequestTimes.EstimateLine(h, DefaultTime(estimate)), PullRequestTimes.ActualLine(h, DefaultTime(actual)),
      h.checkList, CheckItem);
  }

  lemma SixOneLine(lines: seq<string>, a: string, b: string, c: string, d: string, e: string, f: string)
    requires lines == [a, b, c, d, e, f]
    requires RegexReplace.NoTerminator(a) && RegexReplace.NoTerminator(b) && RegexReplace.NoTerminator(c)
    requires RegexReplace.NoTerminator(d) && RegexReplace.NoTerminator(e) && RegexReplace.NoTerminator(f)
    ensures PullRequestTimes.OneLineEach(lines)
  {
  }

  /** A ticket whose project code holds digits is the dialog's key, but
      Jira's key pattern does not read it, so the fixed body links the
      placeholder `TICKET-KEY`. */
  lemma DigitCodeOnlyInTemplate(k: string, i: nat, j: nat)
    requires 0 < i < j && j + 1 < |k| && TicketSplit(k, i, j)
    ensures FindTicket("[" + k + "]") == Some(k)
    ensures DefaultKey("[" + k + "]") == None
  {
    assert IsTicket(k);
    BracketedAlone(k);
    DigitCodeNoKey(k, i, j);
    var s := "[" + k + "]";
    assert !IsWhitespace(s[0]);
  }

  lemma BracketedAlone(k: string)
    requires IsTicket(k)
    ensures FindTicket("[" + k + "]") == Some(k)
  {
    var e: string := [];
    var s := "[" + k + "]";
    assert e + "[" == "[";
    assert s + e == s;
    BracketedTicketFirst(e, k, e);
  }

  lemma DigitCodeNoKey(k: string, i: nat, j: nat)
    requires 0 < i < j && j + 1 < |k| && TicketSplit(k, i, j)
    ensures JiraService.ExtractTicketKey("[" + k + "]") == None
  {
    var s := "[" + k + "]";
    forall t | 0 < t < |s| && s[t] == '-' ensures !IsUpper(s[t - 1]) {
      assert t <= |k|;
      assert s[t] == k[t - 1];
      assert t - 1 == j;
      assert s[t - 1] == k[j - 1];
      assert IsDigit(k[j - 1]);
    }
    JiraService.NoKeyWithoutLetterDash(s);
  }

  /** An estimate without a digit is written as typed with `m` appended;
      a `$` in it not followed by a digit makes rendering throw, so a
      template with the estimate heading gives the fixed body. */
  lemma DollarFallsBack(template: PullRequestTemplateService.Template,
                        listing: Option<seq<PullRequestTemplateService.Entry>>,
                        title: string, estimate: string, actual: string, pre: string, rest: string)
    requires |PullRequestTemplateService.AvailableTemplates(listing)| > 0
    requires var content := PullRequestTemplateService.ReadTemplate(template, listing);
      '{' !in content && Contains(content, PullRequestTimes.Dialog.estimate)
    requires FindTicket(title).None?
    requires forall i :: 0 <= i < |estimate| ==> !IsDigit(estimate[i])
    requires estimate == pre + "$" + rest && RegexReplace.Plain(pre)
    ensures FormatContent(Some(template), listing, title, estimate, actual) == DefaultContent(title, estimate, actual)
  {
    var content := PullRequestTemplateService.ReadTemplate(template, listing);
    PullRequestTimes.DollarInEstimateThrows(content, estimate, actual, pre, rest);
  }

  // ---------------------------------------------------------------------
  // The Jira follow-up after the pull request is created

  /** The key read from the title, else from the branch name. */
  function JiraKey(title: string, branch: string): (r: Option<string>)
    ensures r.Some? ==> IsTicket(r.value) && (Contains(title, r.value) || Contains(branch, r.value))
    ensures r.None? <==> FindTicket(title).None? && FindTicket(branch).None?
  {
    if FindTicket(title).Some? then FindTicket(title) else FindTicket(branch)
  }

  /** The minutes logged: a positive parse of a non-blank actual time. */
  function LoggedMinutes(actual: string): (r: Option<int>)
    ensures r.Some? ==> r.value > 0 && TimeParser.IsInt(r.value)
    ensures r.None? <==> IsBlank(actual) || TimeParser.ValidateAndFormat(actual).None?
  {
    if IsBlank(actual) then None
    else match TimeParser.ParseToMinutes(actual)
      case Some(m) => if m > 0 then Some(m) else None
      case None => None
  }

  const WorkLogPrefix: string := "Development work - Pull Request: "

  /** The key returned, and the comment and work-log calls made. */
  datatype FollowUp = FollowUp(key: Option<string>, comment: Option<JiraService.Outcome>, workLog: Option<JiraService.Outcome>)

  /** `handleJiraIntegration`, the two Jira responses given as inputs. */
  function HandleJira(s: GitSettings.Settings, title: string, branch: string, prUrl: string, actual: string,
                      commentResp: JiraService.Response, logResp: JiraService.Response): (r: FollowUp)
    ensures !GitSettings.IsJiraConfigured(s) ==> r == FollowUp(None, None, None)
    ensures GitSettings.IsJiraConfigured(s) ==> r.key == JiraKey(title, branch)
    ensures r.comment.Some? <==> r.key.Some?
    ensures r.comment.Some? ==>
      r.comment.value.request.Some? && r.comment.value.request.value.body == JiraService.CommentLink(prUrl)
    ensures r.workLog.Some? <==> r.key.Some? && LoggedMinutes(actual).Some?
    ensures r.workLog.Some? ==>
      && r.workLog.value.request.Some?
      && r.workLog.value.request.value.body == JiraService.WorkLogBody(LoggedMinutes(actual).value, WorkLogPrefix + prUrl)
  {
    if !GitSettings.IsJiraConfigured(s) then FollowUp(None, None, None)
    else match JiraKey(title, branch)
      case None => FollowUp(None, None, None)
      case Some(k) =>
        var comment := JiraService.CommentOnTicket(s, k, prUrl, commentResp);
        var workLog := match LoggedMinutes(actual)
          case Some(m) => Some(JiraService.LogWork(s, k, m, WorkLogPrefix + prUrl, logResp))
          case None => None;
        FollowUp(Some(k), Some(comment), workLog)
  }

  /** A ticket in the title's only brackets is the key, whatever the
      branch name holds. */
  lemma TitleKeyWins(s: GitSettings.Settings, pre: string, k: string, post: string, branch: string, prUrl: string,
                     actual: string, commentResp: JiraService.Response, logResp: JiraService.Response)
    requires GitSettings.IsJiraConfigured(s) && IsTicket(k) && '[' !in pre && '[' !in post
    ensures HandleJira(s, pre + "[" + k + "]" + post, branch, prUrl, actual, commentResp, logResp).key == Some(k)
  {
    BracketedTicketFirst(pre, k, post);
  }

  /** The work logged is the duration the fixed body shows: a logged
      number of minutes is formatted into the actual-time line, and when
      nothing is logged the line shows `0m` or the raw text with `m`. */
  lemma LoggedTimeShown(actual: string)
    ensures LoggedMinutes(actual).Some? ==>
      DefaultTime(actual) == TimeParser.FormatMinutes(LoggedMinutes(actual).value)
    ensures LoggedMinutes(actual).None? ==>
      DefaultTime(actual) == (if IsBlank(actual) then "0m" else actual + "m")
  {
  }

  /** The logged seconds are sixty times the minutes, for any duration
      that fits a 32-bit `Int` in seconds, and the link is the trimmed
      pull-request URL when it starts with `http`. */
  lemma WorkLogOfDialog(s: GitSettings.Settings, title: string, branch: string, prUrl: string, actual: string,
                        commentResp: JiraService.Response, logResp: JiraService.Response)
    ensures var r := HandleJira(s, title, branch, prUrl, actual, commentResp, logResp);
      LoggedMinutes(actual).Some? && LoggedMinutes(actual).value * 60 <= TimeParser.MaxInt && r.workLog.Some? ==>
        && r.workLog.value.request.value.body.seconds == 60 * LoggedMinutes(actual).value
        && (r.workLog.value.request.value.body.WorkLogLink? <==> StartsWith(Trim(prUrl), "http"))
  {
    if LoggedMinutes(actual).Some? && LoggedMinutes(actual).value * 60 <= TimeParser.MaxInt {
      var m := LoggedMinutes(actual).value;
      JiraService.WorkLogSeconds(m, WorkLogPrefix + prUrl);
      JiraService.DialogWorkLogBody(m, prUrl);
    }
  }
}

/** `TemplateSetupDialog`: the project code the user types, its
    validation, and the template files the dialog writes for it.  The
    dialog itself is not modelled; "OK" is a function from the typed text,
    the check box and the environment to what happens. */
module TemplateSetupDialog {
  import opened Wrappers
  import opened Text
  import ProjectPrefixService
  import PullRequestTemplateService
  import PullRequestTimes

  /** `projectCodeField.text.trim().uppercase()` */
  function NormalizeCode(text: string): (r: string)
    ensures |r| <= |text|
    ensures r == [] <==> IsBlank(text)
  {
    TrimEmptyIffBlank(text);
    assert |Trim(text)| <= |text| by { TrimLength(text); }
    Upper(Trim(text))
  }

  lemma TrimLength(s: string)
    ensures |Trim(s)| <= |s|
  {
  }

  const BlankCodeError: string := "Mã project không được để trống"

  /** `doValidate`: a blank code is refused. */
  function Validate(text: string): (r: Option<string>)
    ensures r.Some? <==> IsBlank(text)
    ensures r.Some? ==> r.value == BlankCodeError
  {
    BlankTrim(text);
    if IsBlank(Trim(text)) then Some(BlankCodeError) else None
  }

  /** A string is blank exactly when its trim is. */
  lemma BlankTrim(s: string)
    ensures IsBlank(Trim(s)) <==> IsBlank(s)
  {
    TrimEmptyIffBlank(s);
    TrimEnds(s);
  }

  // ---------------------------------------------------------------------
  // Generated files

  const Heading: string := "# Resolved tickets\n- "
  const JiraHost: string := "(https://jira.apero.vn/"
  const Closing: string := ")\n\n# Checklist\n"
  const FirstCheck: string := "- [ ] I have checked " + "the previous pull request."
  const FeatureChecks: string := "\n- [ ] Added tests for new feature" + "\n- [ ] Updated documentation"

  /** The body of `bug_fix.md` and of `pull_request_template.md`: the
      `[CODE-]` token, its Jira link and one check-list line. */
  function BugFixBody(code: string): (r: string)
    ensures Contains(r, "[" + code + "-]") && Contains(r, "browse/" + code + "-")
  {
    BodyShapeNamesCode(Heading, code, JiraHost, Closing + FirstCheck, FeatureChecks);
    Heading + "[" + code + "-]" + (JiraHost + "browse/" + code + ("-" + (Closing + FirstCheck)))
  }

  /** The body of `feature_request.md`: two more check-list lines. */
  function FeatureBody(code: string): (r: string)
    ensures Contains(r, "[" + code + "-]") && Contains(r, "browse/" + code + "-")
  {
    BodyShapeNamesCode(Heading, code, JiraHost, Closing + FirstCheck, FeatureChecks);
    BugFixBody(code) + FeatureChecks
  }

  /** The files `createTemplateFiles` writes, with their text. */
  function TemplateFiles(code: string, createDefaults: bool): (r: seq<(string, string)>)
    ensures createDefaults ==> |r| == 2 && r[0].0 == "bug_fix.md" && r[1].0 == "feature_request.md"
    ensures !createDefaults ==> |r| == 1 && r[0].0 == "pull_request_template.md"
    ensures forall k :: 0 <= k < |r| ==> PullRequestTemplateService.EndsWithMd(r[k].0)
  {
    if createDefaults then [("bug_fix.md", BugFixBody(code)), ("feature_request.md", FeatureBody(code))]
    else [("pull_request_template.md", BugFixBody(code))]
  }

  datatype SetupResult = SetupResult(projectCode: string, createDefaultTemplates: bool)

  /** What pressing OK does: the dialog stays open with a validation error,
      reports a failure to create the files, or writes them and closes. */
  datatype Outcome =
    | Invalid(error: string)
    | Failed(error: string)
    | Created(files: seq<(string, string)>, result: SetupResult)

  const NoPathMessage: string := "Không thể xác định project path"

  /** `doOKAction`.  `writeError` is the message of an exception thrown
      while creating the directory or writing a file. */
  function OkAction(text: string, createDefaults: bool, hasBasePath: bool, writeError: Option<string>): (r: Outcome)
    ensures r.Invalid? <==> IsBlank(text)
    ensures r.Created? ==>
              && r.result == SetupResult(NormalizeCode(text), createDefaults)
              && r.files == TemplateFiles(NormalizeCode(text), createDefaults)
    ensures r.Created? <==> !IsBlank(text) && hasBasePath && writeError.None?
  {
    match Validate(text)
    case Some(error) => Invalid(error)
    case None =>
      var code := NormalizeCode(text);
      if !hasBasePath then Failed("Lỗi tạo templates: " + NoPathMessage)
      else if writeError.Some? then Failed("Lỗi tạo templates: " + writeError.value)
      else Created(TemplateFiles(code, createDefaults), SetupResult(code, createDefaults))
  }

  // ---------------------------------------------------------------------
  // Properties

  /** Normalising a normalised code changes nothing. */
  lemma NormalizeTwice(text: string)
    ensures NormalizeCode(NormalizeCode(text)) == NormalizeCode(text)
  {
    var t := Trim(text);
    var u := Upper(t);
    TrimEnds(text);
    UpperKeepsEnds(t);
    TrimFixed(u);
    UpperTwice(t);
  }

  /** Upper-casing keeps a string free of whitespace at its ends. */
  lemma UpperKeepsEnds(t: string)
    requires |t| == 0 || (!IsWhitespace(t[0]) && !IsWhitespace(t[|t| - 1]))
    ensures |Upper(t)| == 0 || (!IsWhitespace(Upper(t)[0]) && !IsWhitespace(Upper(t)[|t| - 1]))
  {
  }

  lemma UpperTwice(t: string)
    ensures Upper(Upper(t)) == Upper(t)
  {
    var u := Upper(t);
    assert forall i :: 0 <= i < |u| ==> UpperChar(u[i]) == u[i];
  }

  /** The token and the link, in a body of the generated shape. */
  lemma BodyShapeNamesCode(h: string, code: string, host: string, y: string, z: string)
    ensures var b := h + "[" + code + "-]" + (host + "browse/" + code + ("-" + y));
      && Contains(b, "[" + code + "-]") && Contains(b + z, "[" + code + "-]")
      && Contains(b, "browse/" + code + "-") && Contains(b + z, "browse/" + code + "-")
  {
    var tok, link := "[" + code + "-]", "browse/" + code + "-";
    var tail := host + "browse/" + code + ("-" + y);
    var b := h + "[" + code + "-]" + tail;
    assert b == h + tok + tail;
    ContainsMiddle(h, tok, tail);
    assert b + z == h + tok + (tail + z);
    ContainsMiddle(h, tok, tail + z);
    assert b == (h + tok + host) + link + y;
    ContainsMiddle(h + tok + host, link, y);
    assert b + z == (h + tok + host) + link + (y + z);
    ContainsMiddle(h + tok + host, link, y + z);
  }

  lemma HeadingNoBracket(h: string)
    requires h == Heading
    ensures forall t :: 0 <= t < |h| ==> h[t] != '['
  {
  }

  /** `PrefixInBrackets` with more text after the rest. */
  lemma PrefixInBracketsThen(pre: string, code: string, rest: string, more: string)
    requires forall t :: 0 <= t < |pre| ==> pre[t] != '['
    requires ProjectPrefixService.IsCode(code)
    ensures ProjectPrefixService.ExtractPrefix(pre + "[" + code + "-]" + rest) == Some(code)
    ensures ProjectPrefixService.ExtractPrefix(pre + "[" + code + "-]" + rest + more) == Some(code)
  {
    ProjectPrefixService.PrefixInBrackets(pre, code, rest);
    assert pre + "[" + code + "-]" + rest + more == pre + "[" + code + "-]" + (rest + more);
    ProjectPrefixService.PrefixInBrackets(pre, code, rest + more);
  }

  /** Reading the code back: a code of letters and then digits is what
      `extractPrefixFromTemplate` finds in each generated body. */
  lemma BodiesGivePrefix(code: string)
    requires ProjectPrefixService.IsCode(code)
    ensures ProjectPrefixService.ExtractPrefix(BugFixBody(code)) == Some(code)
    ensures ProjectPrefixService.ExtractPrefix(FeatureBody(code)) == Some(code)
  {
    HeadingNoBracket(Heading);
    PrefixInBracketsThen(Heading, code, JiraHost + "browse/" + code + ("-" + (Closing + FirstCheck)), FeatureChecks);
  }

  /** After the default templates are written, the commit dialog's prefix
      is the code that was typed. */
  lemma SetupThenPrefix(text: string, hasBasePath: bool)
    requires ProjectPrefixService.IsCode(NormalizeCode(text)) && hasBasePath
    ensures var r := OkAction(text, true, hasBasePath, None);
      && r.Created?
      && ProjectPrefixService.GetProjectPrefix(true,
           ProjectPrefixService.Readable(r.files[0].1), ProjectPrefixService.Readable(r.files[1].1))
         == NormalizeCode(text)
  {
    var code := NormalizeCode(text);
    assert !IsBlank(text) by { assert code != []; }
    var r := OkAction(text, true, hasBasePath, None);
    assert r.Created? && r.files == TemplateFiles(code, true);
    DefaultsGivePrefix(code, r.files);
  }

  /** The prefix read back from the two default files is their code. */
  lemma DefaultsGivePrefix(code: string, files: seq<(string, string)>)
    requires ProjectPrefixService.IsCode(code) && files == TemplateFiles(code, true)
    ensures ProjectPrefixService.GetProjectPrefix(true,
              ProjectPrefixService.Readable(files[0].1), ProjectPrefixService.Readable(files[1].1))
            == code
  {
    assert files[0].1 == BugFixBody(code);
    BodiesGivePrefix(code);
    ProjectPrefixService.BugFixFirst(files[0].1, ProjectPrefixService.Readable(files[1].1));
  }

  /** The basic template is not one of the two files the prefix is read
      from, so after a basic setup the prefix falls back to `AIP`. */
  lemma BasicSetupPrefixFallback(text: string)
    requires !IsBlank(text)
    ensures var r := OkAction(text, false, true, None);
      && r.Created? && forall k :: 0 <= k < |r.files| ==> r.files[k].0 != "bug_fix.md" && r.files[k].0 != "feature_request.md"
    ensures ProjectPrefixService.GetProjectPrefix(true, ProjectPrefixService.Missing, ProjectPrefixService.Missing)
         == ProjectPrefixService.Fallback
  {
    var r := OkAction(text, false, true, None);
    assert r.Created? && r.files == TemplateFiles(NormalizeCode(text), false);
    BasicFileName(r.files);
  }

  lemma BasicFileName(files: seq<(string, string)>)
    requires |files| == 1 && files[0].0 == "pull_request_template.md"
    ensures forall k :: 0 <= k < |files| ==> files[k].0 != "bug_fix.md" && files[k].0 != "feature_request.md"
  {
    assert files[0].0[0] == 'p';
  }

  /** No digit in `s`. */
  predicate NoDigit(s: string) {
    forall x :: 0 <= x < |s| ==> !IsDigit(s[x])
  }

  lemma NoDigitConcat(a: string, b: string)
    requires NoDigit(a) && NoDigit(b)
    ensures NoDigit(a + b)
  {
    assert forall x :: 0 <= x < |a + b| ==> (a + b)[x] == if x < |a| then a[x] else b[x - |a|];
  }

  lemma HeadingNoDigit(s: string)
    requires s == "# Resolved tickets\n- "
    ensures NoDigit(s)
  {
  }

  lemma HostNoDigit(s: string)
    requires s == "(https://jira.apero.vn/"
    ensures NoDigit(s)
  {
  }

  lemma ShortNoDigit(s: string)
    requires s == "browse/" || s == ")\n\n# Checklist\n" || s == "[" || s == "-" || s == "-]"
    ensures NoDigit(s)
  {
  }

  lemma CheckNoDigit(s: string)
    requires s == "- [ ] I have checked " || s == "the previous pull request."
    ensures NoDigit(s)
  {
  }

  lemma TestsNoDigit(s: string)
    requires s == "\n- [ ] Added tests for new feature"
    ensures NoDigit(s)
  {
  }

  lemma DocsNoDigit(s: string)
    requires s == "\n- [ ] Updated documentation"
    ensures NoDigit(s)
  {
  }

  /** A code of letters only gives bodies with no ticket pattern: the
      catalog's pattern `\[([A-Z]+\d+-?)\]` needs a digit after the
      letters, so such a template offers no `[CODE-N]` prefix. */
  lemma LettersOnlyCodeNoTicketPattern(code: string)
    requires NoDigit(code)
    ensures PullRequestTemplateService.ExtractTicketPattern(BugFixBody(code)) == None
    ensures PullRequestTemplateService.ExtractTicketPattern(FeatureBody(code)) == None
  {
    BodyNoDigit(code, Heading, JiraHost, Closing, "- [ ] I have checked ", "the previous pull request.",
      "\n- [ ] Added tests for new feature", "\n- [ ] Updated documentation");
    PullRequestTemplateService.NoDigitNoTicket(BugFixBody(code));
    PullRequestTemplateService.NoDigitNoTicket(FeatureBody(code));
  }

  lemma BodyNoDigit(code: string, h: string, host: string, close: string, c1: string, c2: string, f1: string, f2: string)
    requires NoDigit(code)
    requires h == Heading && host == JiraHost && close == Closing
    requires c1 == "- [ ] I have checked " && c2 == "the previous pull request."
    requires f1 == "\n- [ ] Added tests for new feature" && f2 == "\n- [ ] Updated documentation"
    ensures NoDigit(BugFixBody(code)) && NoDigit(FeatureBody(code))
  {
    HeadingNoDigit(h); HostNoDigit(host); ShortNoDigit(close);
    CheckNoDigit(c1); CheckNoDigit(c2); TestsNoDigit(f1); DocsNoDigit(f2);
    ShortNoDigit("["); ShortNoDigit("-]"); ShortNoDigit("-"); ShortNoDigit("browse/");
    NoDigitConcat(h, "[");
    NoDigitConcat(h + "[", code);
    NoDigitConcat(h + "[" + code, "-]");
    NoDigitConcat(c1, c2);
    NoDigitConcat(close, c1 + c2);
    NoDigitConcat("-", close + (c1 + c2));
    NoDigitConcat(host, "browse/");
    NoDigitConcat(host + "browse/", code);
    NoDigitConcat(host + "browse/" + code, "-" + (close + (c1 + c2)));
    NoDigitConcat(h + "[" + code + "-]", host + "browse/" + code + ("-" + (close + (c1 + c2))));
    NoDigitConcat(f1, f2);
    NoDigitConcat(BugFixBody(code), f1 + f2);
  }

  // ---------------------------------------------------------------------
  // The generated bodies in the pull-request renderer

  /** `p` has a `#` at its start and nowhere else. */
  predicate HashLed(p: string) {
    |p| > 0 && p[0] == '#' && forall i :: 0 < i < |p| ==> p[i] != '#'
  }

  /** Text made of two parts, each starting with its only `#`, does not
      contain a heading that starts with `#` and differs from the first
      part in character `j` and from the second in character `k`. */
  lemma TwoHashesAvoid(p: string, x: string, q: string, y: string, h: string, j: nat, k: nat)
    requires j < |h| && j < |p| && k < |h| && k < |q|
    requires h[0] == '#' && p[j] != h[j] && q[k] != h[k]
    requires HashLed(p) && HashLed(q)
    requires '#' !in x && '#' !in y
    ensures !Contains(p + x + q + y, h)
  {
    var s := p + x + q + y;
    forall i: nat | i <= |s| ensures !OccursAt(s, h, i) {
      OccursAtPointwise(s, h, i);
      if i + |h| <= |s| {
        if i == 0 {
          assert s[0 + j] == p[j];
        } else if i < |p| {
          assert s[i + 0] == p[i];
        } else if i < |p| + |x| {
          assert s[i + 0] == x[i - |p|];
        } else if i == |p| + |x| {
          assert s[i + k] == q[k];
        } else if i < |p| + |x| + |q| {
          assert s[i + 0] == q[i - |p| - |x|];
        } else {
          assert s[i + 0] == y[i - |p| - |x| - |q|];
        }
      }
    }
  }

  /** The same, ignoring case. */
  lemma TwoHashesAvoidIgnoringCase(p: string, x: string, q: string, y: string, h: string, j: nat, k: nat)
    requires j < |h| && j < |p| && k < |h| && k < |q|
    requires h[0] == '#' && HashLed(p) && HashLed(q)
    requires LowerChar(p[j]) != LowerChar(h[j]) && LowerChar(q[k]) != LowerChar(h[k])
    requires '#' !in x && '#' !in y
    ensures !ContainsIgnoreCase(p + x + q + y, h)
  {
    LowerAppend(p + x + q, y);
    LowerAppend(p + x, q);
    LowerAppend(p, x);
    LowerKeepsHash(x);
    LowerKeepsHash(y);
    LowerHashLed(p);
    LowerHashLed(q);
    TwoHashesAvoid(Lower(p), Lower(x), Lower(q), Lower(y), Lower(h), j, k);
  }

  lemma LowerHashLed(p: string)
    requires HashLed(p)
    ensures HashLed(Lower(p))
  {
    forall i | 0 < i < |p| ensures Lower(p)[i] != '#' {
      assert p[i] != '#';
    }
  }

  const ChecklistHeading: string := "# Checklist\n"

  /** The text between the two headings of a generated body. */
  function Middle(code: string): string {
    "[" + code + "-]" + JiraHost + "browse/" + code + "-" + ")\n\n"
  }

  /** A generated body is the resolved-tickets part, the `# Checklist`
      heading and its items. */
  lemma BodyParts(code: string)
    ensures BugFixBody(code) == Heading + Middle(code) + ChecklistHeading + FirstCheck
    ensures FeatureBody(code) == Heading + Middle(code) + ChecklistHeading + (FirstCheck + FeatureChecks)
  {
    assert Closing == ")\n\n" + ChecklistHeading;
    var m := Middle(code);
    Regroup(Heading, "[", code, "-]", JiraHost, "browse/", "-", ")\n\n", ChecklistHeading, FirstCheck);
    Assoc3(Heading + m + ChecklistHeading, FirstCheck, FeatureChecks);
  }

  lemma Regroup(a: string, b: string, c: string, d: string, e: string, f: string, g: string, h: string, i: string, j: string)
    ensures a + b + c + d + (e + f + c + (g + ((h + i) + j))) == a + (b + c + d + e + f + c + g + h) + i + j
  {
  }

  /** Where the headings of a generated body and the dialog's headings
      first differ. */
  lemma HeadingLetters()
    ensures HashLed(Heading) && HashLed(ChecklistHeading)
    ensures |Heading| > 2 && Heading[2] == 'R'
    ensures |ChecklistHeading| > 7 && ChecklistHeading[2] == 'C' && ChecklistHeading[7] == 'l'
    ensures var h := PullRequestTimes.Dialog;
      && |h.estimate| > 2 && h.estimate[0] == '#' && h.estimate[2] == 'E'
      && |h.actual| > 2 && h.actual[0] == '#' && h.actual[2] == 'A'
      && |h.checkList| > 7 && h.checkList[0] == '#' && h.checkList[7] == ' '
  {
  }

  /** The dialog's time headings and check list are not in a generated
      body, in any case, when the code holds no `#`. */
  lemma BodyHasNoSections(code: string, y: string)
    requires '#' !in code && '#' !in y
    ensures var b := Heading + Middle(code) + ChecklistHeading + y;
      && !ContainsIgnoreCase(b, PullRequestTimes.Dialog.estimate)
      && !ContainsIgnoreCase(b, PullRequestTimes.Dialog.actual)
      && !ContainsIgnoreCase(b, PullRequestTimes.Dialog.checkList)
  {
    var p, x, q := Heading, Middle(code), ChecklistHeading;
    assert '#' !in JiraHost;
    assert '#' !in x;
    HeadingLetters();
    assert LowerChar('R') == 'r' && LowerChar('C') == 'c' && LowerChar('E') == 'e' && LowerChar('A') == 'a';
    TwoHashesAvoidIgnoringCase(p, x, q, y, PullRequestTimes.Dialog.estimate, 2, 2);
    TwoHashesAvoidIgnoringCase(p, x, q, y, PullRequestTimes.Dialog.actual, 2, 2);
    TwoHashesAvoidIgnoringCase(p, x, q, y, PullRequestTimes.Dialog.checkList, 2, 7);
  }

  /** The generated bodies spell the check list `# Checklist`, which the
      renderer does not read as `# Check list`; having no time headings
      either, they get both time lines appended at the end rather than
      inserted before the check list. */
  lemma GeneratedBodiesAppendTimes(code: string, est: string, act: string)
    requires '#' !in code
    requires !IsBlank(est) && !IsBlank(act) && '#' !in est
    ensures var h := PullRequestTimes.Dialog;
      PullRequestTimes.EnhanceTimes(BugFixBody(code), est, act) ==
        Some(BugFixBody(code) + "\n" + PullRequestTimes.EstimateLine(h, PullRequestTimes.TimeText(est))
             + "\n" + PullRequestTimes.ActualLine(h, PullRequestTimes.TimeText(act)))
    ensures var h := PullRequestTimes.Dialog;
      PullRequestTimes.EnhanceTimes(FeatureBody(code), est, act) ==
        Some(FeatureBody(code) + "\n" + PullRequestTimes.EstimateLine(h, PullRequestTimes.TimeText(est))
             + "\n" + PullRequestTimes.ActualLine(h, PullRequestTimes.TimeText(act)))
  {
    BodyParts(code);
    ChecksNoHash();
    BodyAppendsTimes(code, FirstCheck, est, act);
    BodyAppendsTimes(code, FirstCheck + FeatureChecks, est, act);
  }

  lemma ChecksNoHash()
    ensures '#' !in FirstCheck && '#' !in FirstCheck + FeatureChecks
  {
    LiteralNoHash("- [ ] I have checked ");
    LiteralNoHash("the previous pull request.");
    LiteralNoHash("\n- [ ] Added tests for new feature");
    LiteralNoHash("\n- [ ] Updated documentation");
  }

  lemma LiteralNoHash(s: string)
    requires s == "- [ ] I have checked " || s == "the previous pull request."
          || s == "\n- [ ] Added tests for new feature" || s == "\n- [ ] Updated documentation"
    ensures '#' !in s
  {
  }

  lemma BodyAppendsTimes(code: string, y: string, est: string, act: string)
    requires '#' !in code && '#' !in y
    requires !IsBlank(est) && !IsBlank(act) && '#' !in est
    ensures var b, h := Heading + Middle(code) + ChecklistHeading + y, PullRequestTimes.Dialog;
      PullRequestTimes.EnhanceTimes(b, est, act) ==
        Some(b + "\n" + PullRequestTimes.EstimateLine(h, PullRequestTimes.TimeText(est))
             + "\n" + PullRequestTimes.ActualLine(h, PullRequestTimes.TimeText(act)))
  {
    BodyHasNoSections(code, y);
    PullRequestTimes.SectionsAppended(Heading + Middle(code) + ChecklistHeading + y, est, act);
  }
}

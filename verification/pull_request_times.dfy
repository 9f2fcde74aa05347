/** The time sections of `PullRequestDialog.enhanceTemplateWithTimeAndTicket`:
    the estimate and the actual duration are written into a rendered
    template, filling the headings it has and adding the ones it lacks.

    Every heading test ignores case, but every regex that then rewrites a
    heading is case-sensitive, so a heading spelt `# estimate time:` is
    seen and left alone.  The text written is passed to `Regex.replace` as
    a replacement string: a `$` or `\` in a duration is interpreted, and a
    malformed one throws (`None`).

    The functions take the headings as a `Sections` value; the dialog's
    own headings are `Dialog`. */
module PullRequestTimes {
  import opened Wrappers
  import opened Text
  import opened RegexReplace
  import TimeParser

  /** The text a time field contributes: nothing for a blank field, the
      normalised duration when it parses to a positive number of minutes,
      and otherwise the field as typed with `m` appended. */
  function TimeText(raw: string): (r: string)
    ensures IsBlank(r) <==> IsBlank(raw)
  {
    if IsBlank(raw) then ""
    else
      var r := TimeParser.ValidateAndFormat(raw).GetOr(raw + "m");
      assert r[|r| - 1] == 'm' || r[|r| - 1] == 'h';
      assert !IsWhitespace(r[|r| - 1]);
      r
  }

  /** A filled-in time field gives its validated duration, or the field as
      typed with `m` appended when it does not validate. */
  lemma TimeTextCases(raw: string)
    requires !IsBlank(raw)
    ensures TimeParser.ValidateAndFormat(raw).Some? ==> TimeText(raw) == TimeParser.ValidateAndFormat(raw).value
    ensures TimeParser.ValidateAndFormat(raw).None? ==> TimeText(raw) == raw + "m"
  {
  }

  /** The headings looked for, and the text each written line starts with. */
  datatype Sections = Sections(estimate: string, actual: string, checkList: string,
                               estimatePrefix: string, actualPrefix: string)

  /** `# Estimate Time:`, `# Actual Time:` and `# Check list`; an estimate
      is written as `# Estimate time: ` (lower-case `t`) and an actual time
      as `# Actual Time: `. */
  const Dialog: Sections := Sections("# Estimate Time:", "# Actual Time:", "# Check list",
                                     "# Estimate time: ", "# Actual Time: ")

  function EstimateLine(h: Sections, e: string): string { h.estimatePrefix + e }
  function ActualLine(h: Sections, a: string): string { h.actualPrefix + a }

  /** A heading the template mentions, in any case, is rewritten with
      `Regex(heading + ".*")` when there is a duration to write. */
  function FillSection(s: string, heading: string, line: string, text: string): (r: Option<string>)
    requires |heading| > 0
    ensures IsBlank(text) || !ContainsIgnoreCase(s, heading) ==> r == Some(s)
  {
    if ContainsIgnoreCase(s, heading) && !IsBlank(text) then ReplaceLines(s, heading, line, false)
    else Some(s)
  }

  /** A missing estimate goes in front of the actual-time heading, else in
      front of the check list, else at the end. */
  function InsertEstimate(h: Sections, s: string, e: string): (r: Option<string>)
    requires |h.actual| > 0 && |h.checkList| > 0
    ensures ContainsIgnoreCase(s, h.estimate) || IsBlank(e) ==> r == Some(s)
  {
    if ContainsIgnoreCase(s, h.estimate) || IsBlank(e) then Some(s)
    else if ContainsIgnoreCase(s, h.actual) then ReplaceLines(s, h.actual, EstimateLine(h, e) + "\n$1", true)
    else if ContainsIgnoreCase(s, h.checkList) then ReplaceLines(s, h.checkList, EstimateLine(h, e) + "\n$1", true)
    else Some(s + "\n" + EstimateLine(h, e))
  }

  /** A missing actual time goes in front of the check list, else at the
      end. */
  function InsertActual(h: Sections, s: string, a: string): (r: Option<string>)
    requires |h.checkList| > 0
    ensures ContainsIgnoreCase(s, h.actual) || IsBlank(a) ==> r == Some(s)
  {
    if ContainsIgnoreCase(s, h.actual) || IsBlank(a) then Some(s)
    else if ContainsIgnoreCase(s, h.checkList) then ReplaceLines(s, h.checkList, ActualLine(h, a) + "\n$1", true)
    else Some(s + "\n" + ActualLine(h, a))
  }

  /** Fill the estimate, fill the actual time, then add whichever is
      missing, given the time texts `e` and `a`.  Blank texts leave the
      template as it is. */
  function FillTimes(h: Sections, s: string, e: string, a: string): (r: Option<string>)
    requires |h.estimate| > 0 && |h.actual| > 0 && |h.checkList| > 0
    ensures IsBlank(e) && IsBlank(a) ==> r == Some(s)
  {
    var s1 := FillSection(s, h.estimate, EstimateLine(h, e), e);
    if s1.None? then None
    else
      var s2 := FillSection(s1.value, h.actual, ActualLine(h, a), a);
      if s2.None? then None
      else
        var s3 := InsertEstimate(h, s2.value, e);
        if s3.None? then None else InsertActual(h, s3.value, a)
  }

  /** The time half of `enhanceTemplateWithTimeAndTicket`. */
  function EnhanceTimes(s: string, est: string, act: string): (r: Option<string>)
    ensures IsBlank(est) && IsBlank(act) ==> r == Some(s)
  {
    FillTimes(Dialog, s, TimeText(est), TimeText(act))
  }

  // ---------------------------------------------------------------------
  // Properties

  /** What the proofs use of the headings: each is one line starting with
      `#`; a written line has no other `#`, and its third character tells
      it apart from the other headings, ignoring case; and, ignoring case,
      a written line still counts as its heading. */
  predicate WellFormed(h: Sections) {
    Shapes(h) && Hashes(h) && Distinct(h) && Mentions(h)
  }

  predicate Shapes(h: Sections) {
    && |h.estimate| > 2 && |h.actual| > 2 && |h.checkList| > 2
    && |h.estimatePrefix| > 2 && |h.actualPrefix| > 2
    && OneLine(h.estimate) && OneLine(h.actual) && OneLine(h.checkList)
    && OneLine(h.estimatePrefix) && OneLine(h.actualPrefix)
  }

  /** One line of text free of replacement metacharacters. */
  predicate OneLine(x: string) {
    Plain(x) && NoTerminator(x)
  }

  predicate Hashes(h: Sections) {
    && |h.estimate| > 0 && |h.actual| > 0 && |h.checkList| > 0
    && |h.estimatePrefix| > 0 && |h.actualPrefix| > 0
    && h.estimate[0] == '#' && h.actual[0] == '#' && h.checkList[0] == '#'
    && h.estimatePrefix[0] == '#' && h.actualPrefix[0] == '#'
    && (forall i :: 0 < i < |h.estimatePrefix| ==> h.estimatePrefix[i] != '#')
    && (forall i :: 0 < i < |h.actualPrefix| ==> h.actualPrefix[i] != '#')
  }

  predicate Distinct(h: Sections) {
    && |h.estimate| > 2 && |h.actual| > 2 && |h.checkList| > 2
    && |h.estimatePrefix| > 2 && |h.actualPrefix| > 2
    && LowerChar(h.estimatePrefix[2]) != LowerChar(h.actual[2])
    && LowerChar(h.estimatePrefix[2]) != LowerChar(h.checkList[2])
    && LowerChar(h.actualPrefix[2]) != LowerChar(h.estimate[2])
    && LowerChar(h.actualPrefix[2]) != LowerChar(h.checkList[2])
  }

  predicate Mentions(h: Sections) {
    OccursAt(Lower(h.estimatePrefix), Lower(h.estimate), 0) && OccursAt(h.actualPrefix, h.actual, 0)
  }

  /** Printable ASCII other than the replacement metacharacters. */
  predicate Safe(c: char) {
    ' ' <= c <= '~' && c != '$' && c != '\\'
  }

  lemma SafeOneLine(x: string)
    requires forall i :: 0 <= i < |x| ==> Safe(x[i])
    ensures OneLine(x)
  {
    forall t | 0 <= t < |x| ensures !IsLineTerminator(x[t]) {
      assert Safe(x[t]);
    }
  }

  lemma EstimateOneLine()
    ensures OneLine(Dialog.estimate)
  {
    var x := Dialog.estimate;
    assert forall i :: 0 <= i < |x| ==> Safe(x[i]);
    SafeOneLine(x);
  }

  lemma ActualOneLine()
    ensures OneLine(Dialog.actual)
  {
    var x := Dialog.actual;
    assert forall i :: 0 <= i < |x| ==> Safe(x[i]);
    SafeOneLine(x);
  }

  lemma CheckListOneLine()
    ensures OneLine(Dialog.checkList)
  {
    var x := Dialog.checkList;
    assert forall i :: 0 <= i < |x| ==> Safe(x[i]);
    SafeOneLine(x);
  }

  lemma EstimatePrefixOneLine()
    ensures OneLine(Dialog.estimatePrefix)
  {
    var x := Dialog.estimatePrefix;
    assert forall i :: 0 <= i < |x| ==> Safe(x[i]);
    SafeOneLine(x);
  }

  lemma ActualPrefixOneLine()
    ensures OneLine(Dialog.actualPrefix)
  {
    var x := Dialog.actualPrefix;
    assert forall i :: 0 <= i < |x| ==> Safe(x[i]);
    SafeOneLine(x);
  }

  lemma DialogShapes()
    ensures Shapes(Dialog)
  {
    EstimateOneLine();
    ActualOneLine();
    CheckListOneLine();
    EstimatePrefixOneLine();
    ActualPrefixOneLine();
  }

  lemma DialogHashes()
    ensures Hashes(Dialog)
  {
  }

  lemma EstimateMentioned()
    ensures OccursAt(Lower(Dialog.estimatePrefix), Lower(Dialog.estimate), 0)
  {
    var p, e := Dialog.estimatePrefix, Dialog.estimate;
    assert |e| <= |p| && forall t :: 0 <= t < |e| ==> LowerChar(p[t]) == LowerChar(e[t]);
    OccursAtPointwise(Lower(p), Lower(e), 0);
  }

  lemma ActualMentioned()
    ensures OccursAt(Dialog.actualPrefix, Dialog.actual, 0)
  {
    var q, a := Dialog.actualPrefix, Dialog.actual;
    assert |a| <= |q| && forall t :: 0 <= t < |a| ==> q[t] == a[t];
    OccursAtPointwise(q, a, 0);
  }

  lemma DialogMentions()
    ensures Mentions(Dialog)
  {
    EstimateMentioned();
    ActualMentioned();
  }

  lemma DialogWellFormed()
    ensures WellFormed(Dialog)
  {
    DialogShapes();
    DialogHashes();
    DialogMentions();
  }

  /** A duration that is copied as it is: no replacement metacharacter, no
      line break, no `#` that could start a heading. */
  predicate Verbatim(x: string) {
    Plain(x) && NoTerminator(x) && '#' !in x
  }

  /** Lines where only line `k` mentions `lit`, and at its start. */
  predicate OnlyAt(lines: seq<string>, k: nat, lit: string) {
    k < |lines| && OccursAt(lines[k], lit, 0)
    && forall i :: 0 <= i < |lines| && i != k ==> !Contains(lines[i], lit)
  }

  predicate OneLineEach(lines: seq<string>) {
    forall i :: 0 <= i < |lines| ==> NoTerminator(lines[i])
  }

  lemma VerbatimAppend(p: string, x: string)
    requires Plain(p) && NoTerminator(p) && Verbatim(x)
    ensures Plain(p + x) && NoTerminator(p + x)
  {
    assert forall t :: |p| <= t < |p + x| ==> (p + x)[t] == x[t - |p|];
  }

  /** `lines` with `x` put in as line `k`. */
  function Inserted(lines: seq<string>, k: nat, x: string): (r: seq<string>)
    requires k <= |lines|
    ensures |r| == |lines| + 1 && r[k] == x
    ensures forall i :: 0 <= i < k ==> r[i] == lines[i]
    ensures forall i :: k < i < |r| ==> r[i] == lines[i - 1]
  {
    lines[..k] + [x] + lines[k..]
  }

  /** Text that starts with its only `#` and differs from `h` in character
      `j` does not contain `h`, which starts with `#`. */
  lemma NotAfterStart(p: string, x: string, h: string, j: nat)
    requires j < |h| && j < |p| && h[0] == '#' && p[0] == '#' && p[j] != h[j]
    requires forall i :: 0 < i < |p| ==> p[i] != '#'
    requires '#' !in x
    ensures !Contains(p + x, h)
  {
    var s := p + x;
    forall i: nat | i <= |s| ensures !OccursAt(s, h, i) {
      OccursAtPointwise(s, h, i);
      if i + |h| <= |s| {
        if i == 0 {
          assert s[0 + j] == p[j];
        } else if i < |p| {
          assert s[i + 0] == p[i];
        } else {
          assert s[i + 0] == x[i - |p|];
        }
      }
    }
  }

  /** The same, in both case-sensitive and case-insensitive form. */
  lemma LineAvoids(p: string, x: string, h: string)
    requires |h| > 2 && |p| > 2 && h[0] == '#' && p[0] == '#' && LowerChar(p[2]) != LowerChar(h[2])
    requires forall i :: 0 < i < |p| ==> p[i] != '#'
    requires '#' !in x
    ensures !Contains(p + x, h) && !ContainsIgnoreCase(p + x, h)
  {
    NotAfterStart(p, x, h, 2);
    LowerAppend(p, x);
    LowerKeepsHash(x);
    forall i | 0 < i < |p| ensures Lower(p)[i] != '#' {
      assert p[i] != '#';
    }
    NotAfterStart(Lower(p), Lower(x), Lower(h), 2);
  }

  /** A written estimate line names neither the actual time nor the check
      list. */
  lemma EstimateLineAvoids(h: Sections, e: string)
    requires WellFormed(h) && '#' !in e
    ensures !Contains(EstimateLine(h, e), h.actual) && !ContainsIgnoreCase(EstimateLine(h, e), h.actual)
    ensures !Contains(EstimateLine(h, e), h.checkList) && !ContainsIgnoreCase(EstimateLine(h, e), h.checkList)
  {
    LineAvoids(h.estimatePrefix, e, h.actual);
    LineAvoids(h.estimatePrefix, e, h.checkList);
  }

  /** A written actual-time line names neither the estimate nor the check
      list. */
  lemma ActualLineAvoids(h: Sections, a: string)
    requires WellFormed(h) && '#' !in a
    ensures !Contains(ActualLine(h, a), h.estimate) && !ContainsIgnoreCase(ActualLine(h, a), h.estimate)
    ensures !Contains(ActualLine(h, a), h.checkList) && !ContainsIgnoreCase(ActualLine(h, a), h.checkList)
  {
    LineAvoids(h.actualPrefix, a, h.estimate);
    LineAvoids(h.actualPrefix, a, h.checkList);
  }

  /** Text that `p` starts with, `p + x` starts with too. */
  lemma StartsWithAppend(p: string, x: string, h: string)
    requires OccursAt(p, h, 0)
    ensures OccursAt(p + x, h, 0)
  {
    OccursAtSlice(p, h, 0);
    OccursAtSlice(p + x, h, 0);
    assert (p + x)[0..|h|] == p[0..|h|];
  }

  /** A written estimate line counts as the estimate heading, ignoring
      case; a written actual-time line starts with its heading. */
  lemma LinesMention(h: Sections, e: string, a: string)
    requires WellFormed(h)
    ensures ContainsIgnoreCase(EstimateLine(h, e), h.estimate)
    ensures OccursAt(ActualLine(h, a), h.actual, 0) && ContainsIgnoreCase(ActualLine(h, a), h.actual)
  {
    LowerAppend(h.estimatePrefix, e);
    StartsWithAppend(Lower(h.estimatePrefix), Lower(e), Lower(h.estimate));
    StartsWithAppend(h.actualPrefix, a, h.actual);
    ContainsIgnoringCase(ActualLine(h, a), h.actual);
  }

  /** Filling a heading that only line `k` starts with rewrites that line. */
  lemma FillStep(lines: seq<string>, k: nat, heading: string, line: string, t: string)
    requires |heading| > 0 && NoTerminator(heading) && OnlyAt(lines, k, heading) && OneLineEach(lines)
    requires Plain(line) && !IsBlank(t)
    ensures FillSection(Join(lines, "\n"), heading, line, t) == Some(Join(lines[k := line], "\n"))
  {
    ContainsLines(lines, heading);
    assert Contains(lines[k], heading);
    ContainsIgnoringCase(Join(lines, "\n"), heading);
    FillAtOne(lines, k, heading, line);
  }

  /** Ignoring case, a heading on no line of the template is absent from it. */
  lemma NoLineMentions(lines: seq<string>, heading: string)
    requires |lines| >= 1 && NoTerminator(heading)
    requires forall i :: 0 <= i < |lines| ==> !ContainsIgnoreCase(lines[i], heading)
    ensures !ContainsIgnoreCase(Join(lines, "\n"), heading)
  {
    ContainsIgnoreCaseLines(lines, heading);
  }

  /** Both fills, for `SectionsFilled`. */
  lemma FillBoth(h: Sections, lines: seq<string>, k1: nat, k2: nat, e: string, a: string) returns (l2: seq<string>)
    requires WellFormed(h) && OneLineEach(lines) && k1 != k2
    requires OnlyAt(lines, k1, h.estimate) && OnlyAt(lines, k2, h.actual)
    requires !IsBlank(e) && !IsBlank(a) && Verbatim(e) && Verbatim(a)
    ensures l2 == lines[k1 := EstimateLine(h, e)][k2 := ActualLine(h, a)]
    ensures FillSection(Join(lines, "\n"), h.estimate, EstimateLine(h, e), e) == Some(Join(lines[k1 := EstimateLine(h, e)], "\n"))
    ensures FillSection(Join(lines[k1 := EstimateLine(h, e)], "\n"), h.actual, ActualLine(h, a), a) == Some(Join(l2, "\n"))
  {
    var el, al := EstimateLine(h, e), ActualLine(h, a);
    VerbatimAppend(h.estimatePrefix, e);
    VerbatimAppend(h.actualPrefix, a);
    FillStep(lines, k1, h.estimate, el, e);
    var l1 := lines[k1 := el];
    EstimateLineAvoids(h, e);
    assert OnlyAt(l1, k2, h.actual);
    FillStep(l1, k2, h.actual, al, a);
    l2 := l1[k2 := al];
  }

  /** A template whose estimate and actual-time headings each start one
      line of their own gets both lines rewritten, and nothing added. */
  lemma SectionsFilledIn(h: Sections, lines: seq<string>, k1: nat, k2: nat, e: string, a: string)
    requires WellFormed(h) && OneLineEach(lines) && k1 != k2
    requires OnlyAt(lines, k1, h.estimate) && OnlyAt(lines, k2, h.actual)
    requires !IsBlank(e) && !IsBlank(a) && Verbatim(e) && Verbatim(a)
    ensures FillTimes(h, Join(lines, "\n"), e, a) ==
      Some(Join(lines[k1 := EstimateLine(h, e)][k2 := ActualLine(h, a)], "\n"))
  {
    var l2 := FillBoth(h, lines, k1, k2, e, a);
    LinesMention(h, e, a);
    NothingInserted(h, l2, k1, k2, e, a);
  }

  /** When lines mention both headings, ignoring case, nothing is added. */
  lemma NothingInserted(h: Sections, l2: seq<string>, k1: nat, k2: nat, e: string, a: string)
    requires WellFormed(h) && k1 < |l2| && k2 < |l2|
    requires ContainsIgnoreCase(l2[k1], h.estimate) && ContainsIgnoreCase(l2[k2], h.actual)
    ensures InsertEstimate(h, Join(l2, "\n"), e) == Some(Join(l2, "\n"))
    ensures InsertActual(h, Join(l2, "\n"), a) == Some(Join(l2, "\n"))
  {
    ContainsIgnoreCaseLines(l2, h.estimate);
    ContainsIgnoreCaseLines(l2, h.actual);
  }

  /** The first insertion of `SectionsBeforeCheckList`. */
  lemma InsertEstimateStep(h: Sections, lines: seq<string>, k: nat, e: string)
    requires WellFormed(h) && OneLineEach(lines) && OnlyAt(lines, k, h.checkList)
    requires forall i :: 0 <= i < |lines| ==> !ContainsIgnoreCase(lines[i], h.estimate) && !ContainsIgnoreCase(lines[i], h.actual)
    requires !IsBlank(e) && Verbatim(e)
    ensures InsertEstimate(h, Join(lines, "\n"), e) == Some(Join(Inserted(lines, k, EstimateLine(h, e)), "\n"))
  {
    VerbatimAppend(h.estimatePrefix, e);
    NoLineMentions(lines, h.estimate);
    NoLineMentions(lines, h.actual);
    ContainsLines(lines, h.checkList);
    assert Contains(lines[k], h.checkList);
    ContainsIgnoringCase(Join(lines, "\n"), h.checkList);
    InsertAtOne(lines, k, h.checkList, EstimateLine(h, e));
  }

  /** The lines after the first insertion still have the check list on one
      line only, and no actual-time heading. */
  lemma AfterEstimateInserted(h: Sections, lines: seq<string>, k: nat, e: string)
    requires WellFormed(h) && OneLineEach(lines) && OnlyAt(lines, k, h.checkList)
    requires forall i :: 0 <= i < |lines| ==> !ContainsIgnoreCase(lines[i], h.actual)
    requires Verbatim(e)
    ensures OneLineEach(Inserted(lines, k, EstimateLine(h, e)))
    ensures OnlyAt(Inserted(lines, k, EstimateLine(h, e)), k + 1, h.checkList)
    ensures !ContainsIgnoreCase(Join(Inserted(lines, k, EstimateLine(h, e)), "\n"), h.actual)
  {
    var l1 := Inserted(lines, k, EstimateLine(h, e));
    VerbatimAppend(h.estimatePrefix, e);
    EstimateLineAvoids(h, e);
    NoLineMentions(l1, h.actual);
  }

  /** The second insertion of `SectionsBeforeCheckList`. */
  lemma InsertActualStep(h: Sections, lines: seq<string>, k: nat, e: string, a: string)
    requires WellFormed(h) && OneLineEach(lines) && OnlyAt(lines, k, h.checkList)
    requires forall i :: 0 <= i < |lines| ==> !ContainsIgnoreCase(lines[i], h.actual)
    requires Verbatim(e) && !IsBlank(a) && Verbatim(a)
    ensures InsertActual(h, Join(Inserted(lines, k, EstimateLine(h, e)), "\n"), a) ==
      Some(Join(lines[..k] + [EstimateLine(h, e), ActualLine(h, a)] + lines[k..], "\n"))
  {
    var el := EstimateLine(h, e);
    var l1 := Inserted(lines, k, el);
    VerbatimAppend(h.actualPrefix, a);
    AfterEstimateInserted(h, lines, k, e);
    ContainsLines(l1, h.checkList);
    assert Contains(l1[k + 1], h.checkList);
    ContainsIgnoringCase(Join(l1, "\n"), h.checkList);
    InsertAtOne(l1, k + 1, h.checkList, ActualLine(h, a));
    assert l1[..k + 1] + [ActualLine(h, a)] + l1[k + 1..] == lines[..k] + [el, ActualLine(h, a)] + lines[k..];
  }

  /** A template with a check list but neither time heading gets the
      estimate and then the actual time as lines of their own, in that
      order, just in front of the check list. */
  lemma SectionsBeforeCheckListIn(h: Sections, lines: seq<string>, k: nat, e: string, a: string)
    requires WellFormed(h) && OneLineEach(lines) && OnlyAt(lines, k, h.checkList)
    requires forall i :: 0 <= i < |lines| ==> !ContainsIgnoreCase(lines[i], h.estimate) && !ContainsIgnoreCase(lines[i], h.actual)
    requires !IsBlank(e) && !IsBlank(a) && Verbatim(e) && Verbatim(a)
    ensures FillTimes(h, Join(lines, "\n"), e, a) ==
      Some(Join(lines[..k] + [EstimateLine(h, e), ActualLine(h, a)] + lines[k..], "\n"))
  {
    var s := Join(lines, "\n");
    NoLineMentions(lines, h.estimate);
    NoLineMentions(lines, h.actual);
    InsertEstimateStep(h, lines, k, e);
    InsertActualStep(h, lines, k, e, a);
    Chain(h, s, e, a, s, s, Join(Inserted(lines, k, EstimateLine(h, e)), "\n"));
  }

  /** The insertion in front of the actual-time line. */
  lemma InsertBeforeActualStep(h: Sections, lines: seq<string>, k: nat, e: string)
    requires WellFormed(h) && OneLineEach(lines) && OnlyAt(lines, k, h.actual)
    requires forall i :: 0 <= i < |lines| ==> !ContainsIgnoreCase(lines[i], h.estimate)
    requires !IsBlank(e) && Verbatim(e)
    ensures InsertEstimate(h, Join(lines, "\n"), e) == Some(Join(Inserted(lines, k, EstimateLine(h, e)), "\n"))
  {
    VerbatimAppend(h.estimatePrefix, e);
    NoLineMentions(lines, h.estimate);
    ContainsLines(lines, h.actual);
    assert Contains(lines[k], h.actual);
    ContainsIgnoringCase(Join(lines, "\n"), h.actual);
    InsertAtOne(lines, k, h.actual, EstimateLine(h, e));
  }

  /** The actual-time line, once filled, is still the only one with the
      heading, and names no estimate. */
  lemma AfterActualFilled(h: Sections, lines: seq<string>, k: nat, a: string) returns (l1: seq<string>)
    requires WellFormed(h) && OneLineEach(lines) && OnlyAt(lines, k, h.actual)
    requires forall i :: 0 <= i < |lines| ==> !ContainsIgnoreCase(lines[i], h.estimate)
    requires Verbatim(a)
    ensures l1 == lines[k := ActualLine(h, a)]
    ensures OneLineEach(l1) && OnlyAt(l1, k, h.actual)
    ensures forall i :: 0 <= i < |l1| ==> !ContainsIgnoreCase(l1[i], h.estimate)
  {
    VerbatimAppend(h.actualPrefix, a);
    LinesMention(h, "", a);
    ActualLineAvoids(h, a);
    l1 := lines[k := ActualLine(h, a)];
  }

  /** The actual-time line refilled, then the estimate put in front of it,
      and nothing more. */
  lemma ActualThenEstimate(h: Sections, lines: seq<string>, k: nat, e: string, a: string) returns (l2: seq<string>)
    requires WellFormed(h) && OneLineEach(lines) && OnlyAt(lines, k, h.actual)
    requires forall i :: 0 <= i < |lines| ==> !ContainsIgnoreCase(lines[i], h.estimate)
    requires !IsBlank(e) && !IsBlank(a) && Verbatim(e) && Verbatim(a)
    ensures l2 == lines[..k] + [EstimateLine(h, e), ActualLine(h, a)] + lines[k + 1..]
    ensures FillSection(Join(lines, "\n"), h.actual, ActualLine(h, a), a) == Some(Join(lines[k := ActualLine(h, a)], "\n"))
    ensures InsertEstimate(h, Join(lines[k := ActualLine(h, a)], "\n"), e) == Some(Join(l2, "\n"))
    ensures InsertActual(h, Join(l2, "\n"), a) == Some(Join(l2, "\n"))
  {
    var al := ActualLine(h, a);
    VerbatimAppend(h.actualPrefix, a);
    FillStep(lines, k, h.actual, al, a);
    var l1 := AfterActualFilled(h, lines, k, a);
    InsertBeforeActualStep(h, l1, k, e);
    l2 := Inserted(l1, k, EstimateLine(h, e));
    LinesMention(h, e, a);
    assert l2[k + 1] == al;
    ContainsIgnoreCaseLines(l2, h.actual);
    InsertedBeforeUpdate(lines, k, al, EstimateLine(h, e));
  }

  /** A line replaced and then a line put in front of it. */
  lemma InsertedBeforeUpdate(lines: seq<string>, k: nat, x: string, y: string)
    requires k < |lines|
    ensures Inserted(lines[k := x], k, y) == lines[..k] + [y, x] + lines[k + 1..]
  {
    var l1 := lines[k := x];
    assert l1[..k] == lines[..k] && l1[k..] == [x] + lines[k + 1..];
  }

  /** A template with the actual-time heading, as written, but no estimate
      heading in any case gets its actual-time line refilled and the
      estimate line inserted just in front of it. */
  lemma EstimateBeforeActualIn(h: Sections, lines: seq<string>, k: nat, e: string, a: string)
    requires WellFormed(h) && OneLineEach(lines) && OnlyAt(lines, k, h.actual)
    requires forall i :: 0 <= i < |lines| ==> !ContainsIgnoreCase(lines[i], h.estimate)
    requires !IsBlank(e) && !IsBlank(a) && Verbatim(e) && Verbatim(a)
    ensures FillTimes(h, Join(lines, "\n"), e, a) ==
      Some(Join(lines[..k] + [EstimateLine(h, e), ActualLine(h, a)] + lines[k + 1..], "\n"))
  {
    var s := Join(lines, "\n");
    NoLineMentions(lines, h.estimate);
    var l2 := ActualThenEstimate(h, lines, k, e, a);
    Chain(h, s, e, a, s, Join(lines[k := ActualLine(h, a)], "\n"), Join(l2, "\n"));
  }

  /** `FillTimes` step by step. */
  lemma Chain(h: Sections, s: string, e: string, a: string, s1: string, s2: string, s3: string)
    requires |h.estimate| > 0 && |h.actual| > 0 && |h.checkList| > 0
    requires FillSection(s, h.estimate, EstimateLine(h, e), e) == Some(s1)
    requires FillSection(s1, h.actual, ActualLine(h, a), a) == Some(s2)
    requires InsertEstimate(h, s2, e) == Some(s3)
    ensures FillTimes(h, s, e, a) == InsertActual(h, s3, a)
  {
  }

  /** Ignoring case, a heading in neither of two texts is not in them
      joined by a line break. */
  lemma NotAcrossBreak(s: string, x: string, h: string)
    requires NoTerminator(h) && !ContainsIgnoreCase(s, h) && !ContainsIgnoreCase(x, h)
    ensures !ContainsIgnoreCase(s + "\n" + x, h)
  {
    LowerAppend(s + "\n", x);
    LowerAppend(s, "\n");
    assert Lower("\n") == "\n";
    NoTerminatorLower(h);
    ContainsAcrossBreak(Lower(s), Lower(x), Lower(h));
  }

  /** A template with none of the three headings gets the estimate and the
      actual time appended, in that order.  Appending is plain
      concatenation, so any duration text is written as it is. */
  lemma SectionsAppendedIn(h: Sections, s: string, e: string, a: string)
    requires WellFormed(h)
    requires !ContainsIgnoreCase(s, h.estimate) && !ContainsIgnoreCase(s, h.actual) && !ContainsIgnoreCase(s, h.checkList)
    requires !IsBlank(e) && !IsBlank(a) && '#' !in e
    ensures FillTimes(h, s, e, a) == Some(s + "\n" + EstimateLine(h, e) + "\n" + ActualLine(h, a))
  {
    EstimateLineAvoids(h, e);
    NotAcrossBreak(s, EstimateLine(h, e), h.actual);
    NotAcrossBreak(s, EstimateLine(h, e), h.checkList);
  }

  /** An estimate whose text holds a `$` that is not a group reference
      makes the estimate fill throw, when the template has the heading as
      written. */
  lemma DollarInEstimateThrowsIn(h: Sections, s: string, e: string, a: string, pre: string, rest: string)
    requires WellFormed(h) && Contains(s, h.estimate)
    requires e == pre + "$" + rest && Plain(pre) && (|rest| == 0 || !IsDigit(rest[0]))
    ensures FillTimes(h, s, e, a) == None
  {
    FillThrows(h, s, e, pre, rest);
  }

  lemma FillThrows(h: Sections, s: string, e: string, pre: string, rest: string)
    requires WellFormed(h) && Contains(s, h.estimate)
    requires e == pre + "$" + rest && Plain(pre) && (|rest| == 0 || !IsDigit(rest[0]))
    ensures FillSection(s, h.estimate, EstimateLine(h, e), e) == None
  {
    var p := h.estimatePrefix + pre;
    ContainsIgnoringCase(s, h.estimate);
    assert Plain(p);
    DollarWithoutDigitThrows(p, rest, [""]);
    assert EstimateLine(h, e) == p + "$" + rest;
    assert e[|pre|] == '$' && !IsWhitespace('$');
  }

  // The same properties for the dialog's own headings and the fields as
  // typed.  A field free of `$`, `\`, `#` and line breaks gives such a
  // time text (`TimeTextKeeps`).

  lemma SectionsFilled(lines: seq<string>, k1: nat, k2: nat, est: string, act: string)
    requires OneLineEach(lines) && k1 != k2
    requires OnlyAt(lines, k1, Dialog.estimate) && OnlyAt(lines, k2, Dialog.actual)
    requires !IsBlank(est) && !IsBlank(act) && Verbatim(est) && Verbatim(act)
    ensures EnhanceTimes(Join(lines, "\n"), est, act) ==
      Some(Join(lines[k1 := EstimateLine(Dialog, TimeText(est))][k2 := ActualLine(Dialog, TimeText(act))], "\n"))
  {
    DialogWellFormed();
    TimeTextKeeps(est);
    TimeTextKeeps(act);
    SectionsFilledIn(Dialog, lines, k1, k2, TimeText(est), TimeText(act));
  }

  lemma SectionsBeforeCheckList(lines: seq<string>, k: nat, est: string, act: string)
    requires OneLineEach(lines) && OnlyAt(lines, k, Dialog.checkList)
    requires forall i :: 0 <= i < |lines| ==> !ContainsIgnoreCase(lines[i], Dialog.estimate) && !ContainsIgnoreCase(lines[i], Dialog.actual)
    requires !IsBlank(est) && !IsBlank(act) && Verbatim(est) && Verbatim(act)
    ensures EnhanceTimes(Join(lines, "\n"), est, act) ==
      Some(Join(lines[..k] + [EstimateLine(Dialog, TimeText(est)), ActualLine(Dialog, TimeText(act))] + lines[k..], "\n"))
  {
    DialogWellFormed();
    TimeTextKeeps(est);
    TimeTextKeeps(act);
    SectionsBeforeCheckListIn(Dialog, lines, k, TimeText(est), TimeText(act));
  }

  lemma EstimateBeforeActual(lines: seq<string>, k: nat, est: string, act: string)
    requires OneLineEach(lines) && OnlyAt(lines, k, Dialog.actual)
    requires forall i :: 0 <= i < |lines| ==> !ContainsIgnoreCase(lines[i], Dialog.estimate)
    requires !IsBlank(est) && !IsBlank(act) && Verbatim(est) && Verbatim(act)
    ensures EnhanceTimes(Join(lines, "\n"), est, act) ==
      Some(Join(lines[..k] + [EstimateLine(Dialog, TimeText(est)), ActualLine(Dialog, TimeText(act))] + lines[k + 1..], "\n"))
  {
    DialogWellFormed();
    TimeTextKeeps(est);
    TimeTextKeeps(act);
    EstimateBeforeActualIn(Dialog, lines, k, TimeText(est), TimeText(act));
  }

  lemma SectionsAppended(s: string, est: string, act: string)
    requires !ContainsIgnoreCase(s, Dialog.estimate) && !ContainsIgnoreCase(s, Dialog.actual) && !ContainsIgnoreCase(s, Dialog.checkList)
    requires !IsBlank(est) && !IsBlank(act) && '#' !in est
    ensures EnhanceTimes(s, est, act) == Some(s + "\n" + EstimateLine(Dialog, TimeText(est)) + "\n" + ActualLine(Dialog, TimeText(act)))
  {
    DialogWellFormed();
    TimeTextKeeps(est);
    SectionsAppendedIn(Dialog, s, TimeText(est), TimeText(act));
  }

  /** An estimate with no digit does not parse, so it is written as typed
      with `m` appended; a `$` in it not followed by a digit makes the fill
      throw when the template has the heading as written.  The caller then
      falls back to the default body. */
  lemma DollarInEstimateThrows(s: string, est: string, act: string, pre: string, rest: string)
    requires Contains(s, Dialog.estimate)
    requires forall i :: 0 <= i < |est| ==> !IsDigit(est[i])
    requires est == pre + "$" + rest && Plain(pre)
    ensures EnhanceTimes(s, est, act) == None
  {
    DialogWellFormed();
    DollarText(est, pre, rest);
    NoDigitKeptWithUnit(est);
    DollarInEstimateThrowsIn(Dialog, s, TimeText(est), TimeText(act), pre, rest + "m");
  }

  /** Such an estimate is filled in, and with `m` appended its `$` is
      still followed by no digit. */
  lemma DollarText(est: string, pre: string, rest: string)
    requires forall i :: 0 <= i < |est| ==> !IsDigit(est[i])
    requires est == pre + "$" + rest
    ensures !IsBlank(est)
    ensures est + "m" == pre + "$" + (rest + "m") && !IsDigit((rest + "m")[0])
  {
    assert est[|pre|] == '$' && !IsWhitespace('$');
    assert |rest| == 0 || rest[0] == est[|pre| + 1];
  }

  /** A filled-in field without a digit does not validate, and is written
      with `m` appended. */
  lemma NoDigitKeptWithUnit(raw: string)
    requires !IsBlank(raw) && forall i :: 0 <= i < |raw| ==> !IsDigit(raw[i])
    ensures TimeText(raw) == raw + "m"
  {
    TimeParser.ParseNeedsDigit(raw);
  }

  /** A template that spells the actual-time heading in another case keeps
      no estimate: the test for the heading ignores case, the regex that
      would insert in front of it does not. */
  lemma EstimateLostBeforeOtherCase(s: string, est: string, act: string)
    requires !ContainsIgnoreCase(s, Dialog.estimate) && ContainsIgnoreCase(s, Dialog.actual) && !Contains(s, Dialog.actual)
    requires IsBlank(act)
    ensures EnhanceTimes(s, est, act) == Some(s)
  {
    var h := Dialog;
    assert ReplaceLines(s, h.actual, EstimateLine(h, TimeText(est)) + "\n$1", true) == Some(s);
  }

  /** A written estimate line does not hold the estimate heading as the
      fill regex reads it, case-sensitively: it says `time`, not `Time`. */
  lemma EstimateLineNotHeading(e: string)
    requires '#' !in e
    ensures !Contains(EstimateLine(Dialog, e), Dialog.estimate)
  {
    DialogHashes();
    assert Dialog.estimatePrefix[11] != Dialog.estimate[11];
    NotAfterStart(Dialog.estimatePrefix, e, Dialog.estimate, 11);
  }

  /** Rendering the output again adds no line: the written estimate line
      still counts as the estimate heading, and is not refilled because the
      fill regex is case-sensitive; the actual-time line is refilled in
      place. */
  lemma ReRenderAddsNoLine(lines: seq<string>, k1: nat, k2: nat, e0: string, est: string, act: string)
    requires OneLineEach(lines) && k1 != k2 && k1 < |lines|
    requires lines[k1] == EstimateLine(Dialog, e0) && '#' !in e0
    requires forall i :: 0 <= i < |lines| && i != k1 ==> !Contains(lines[i], Dialog.estimate)
    requires OnlyAt(lines, k2, Dialog.actual)
    requires IsBlank(act) || Verbatim(act)
    ensures EnhanceTimes(Join(lines, "\n"), est, act) ==
      Some(Join(if IsBlank(act) then lines else lines[k2 := ActualLine(Dialog, TimeText(act))], "\n"))
  {
    var h := Dialog;
    var s := Join(lines, "\n");
    var e, a := TimeText(est), TimeText(act);
    DialogWellFormed();
    EstimateLineNotHeading(e0);
    ContainsLines(lines, h.estimate);
    assert FillSection(s, h.estimate, EstimateLine(h, e), e) == Some(s);
    var l2 := if IsBlank(act) then lines else lines[k2 := ActualLine(h, a)];
    if !IsBlank(act) {
      TimeTextKeeps(act);
      VerbatimAppend(h.actualPrefix, a);
      FillStep(lines, k2, h.actual, ActualLine(h, a), a);
      LinesMention(h, e0, a);
    } else {
      assert Contains(lines[k2], h.actual);
      ContainsIgnoringCase(lines[k2], h.actual);
    }
    LinesMention(h, e0, a);
    NothingInserted(h, l2, k1, k2, e, a);
    Chain(h, s, e, a, s, Join(l2, "\n"), Join(l2, "\n"));
  }

  /** A character of a duration as `formatMinutes` writes it. */
  predicate DurationChar(c: char) {
    IsDigit(c) || c == '-' || c == 'h' || c == 'm'
  }

  lemma IntToStringChars(i: int)
    ensures forall t :: 0 <= t < |IntToString(i)| ==> DurationChar(IntToString(i)[t])
  {
    var d := NatToString(if i < 0 then -i else i);
    assert forall t :: 0 <= t < |d| ==> IsDigit(d[t]);
  }

  lemma FormatMinutesChars(m: int)
    ensures forall t :: 0 <= t < |TimeParser.FormatMinutes(m)| ==> DurationChar(TimeParser.FormatMinutes(m)[t])
  {
    IntToStringChars(m);
    IntToStringChars(m / 60);
    IntToStringChars(m % 60);
  }

  /** The time text adds no line break, `$`, backslash or `#` that the
      input does not hold: it is the input with `m`, or a formatted
      duration. */
  lemma TimeTextKeeps(raw: string)
    ensures NoTerminator(raw) ==> NoTerminator(TimeText(raw))
    ensures Plain(raw) ==> Plain(TimeText(raw))
    ensures '#' !in raw ==> '#' !in TimeText(raw)
  {
    var r := TimeText(raw);
    if IsBlank(raw) {
    } else if r == raw + "m" {
      WithUnit(raw);
    } else {
      var m := TimeParser.ParseToMinutes(raw).value;
      FormatMinutesChars(m);
      DurationVerbatim(r);
    }
  }

  lemma WithUnit(raw: string)
    ensures NoTerminator(raw) ==> NoTerminator(raw + "m")
    ensures Plain(raw) ==> Plain(raw + "m")
    ensures '#' !in raw ==> '#' !in raw + "m"
  {
    assert forall t :: 0 <= t < |raw| ==> (raw + "m")[t] == raw[t];
  }

  lemma DurationVerbatim(r: string)
    requires forall t :: 0 <= t < |r| ==> DurationChar(r[t])
    ensures Verbatim(r)
  {
    assert forall t :: 0 <= t < |r| ==> Safe(r[t]) && r[t] != '#';
    SafeOneLine(r);
  }
}

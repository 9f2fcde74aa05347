/** `PullRequestTemplateService`: the catalog of pull-request templates in
    `.github/PULL_REQUEST_TEMPLATE`, their display names and ticket
    patterns, and reading a template's text.  The directory is given as
    the list of its entries (`None` when there is no base path, no such
    directory, or it cannot be listed); each entry carries what reading it
    gives (`None` when that throws). */
module PullRequestTemplateService {
  import opened Wrappers
  import opened Text
  import opened Patterns
  import Sorting

  datatype Template = Template(name: string, displayName: string, fileName: string, ticketPattern: Option<string>)

  /** A directory entry: its name, whether it is a regular file, and its
      text when it can be read. */
  datatype Entry = Entry(name: string, isFile: bool, content: Option<string>)

  // ---------------------------------------------------------------------
  // Display names

  /** `word.lowercase().replaceFirstChar { it.uppercase() }` */
  function Capitalize(w: string): (r: string)
    ensures |r| == |w|
    ensures |w| > 0 ==> r[0] == UpperChar(LowerChar(w[0]))
    ensures forall i :: 0 < i < |w| ==> r[i] == LowerChar(w[i])
  {
    if |w| == 0 then "" else [UpperChar(LowerChar(w[0]))] + Lower(w[1..])
  }

  function CapitalizeAll(ws: seq<string>): (r: seq<string>)
    ensures |r| == |ws|
    ensures forall k :: 0 <= k < |ws| ==> r[k] == Capitalize(ws[k])
  {
    seq(|ws|, k requires 0 <= k < |ws| => Capitalize(ws[k]))
  }

  /** `formatDisplayName`: the `_`-separated words, each capitalised,
      joined by single spaces. */
  function FormatDisplayName(name: string): (r: string)
    ensures '_' !in r
  {
    var words := CapitalizeAll(Split(name, '_'));
    forall k | 0 <= k < |words| ensures '_' !in words[k] {
      CaseKeeps(Split(name, '_')[k], '_');
    }
    JoinAvoids(words, " ", '_');
    Join(words, " ")
  }

  /** Case mapping never produces a character that is not a letter, and
      keeps every such character where it was. */
  lemma CaseKeeps(w: string, c: char)
    requires !IsUpper(c) && !IsLower(c) && c !in w
    ensures c !in Capitalize(w)
  {
    var r := Capitalize(w);
    forall i | 0 <= i < |r| ensures r[i] != c {
      assert w[i] != c;
    }
  }

  /** The display name is the capitalised words of the name, one per
      `_`-separated piece, so there is one more word than the name has `_`
      (when the name itself holds no space). */
  lemma DisplayNameWords(name: string)
    requires ' ' !in name
    ensures Split(FormatDisplayName(name), ' ') == CapitalizeAll(Split(name, '_'))
    ensures |Split(FormatDisplayName(name), ' ')| == multiset(name)['_'] + 1
  {
    var pieces := Split(name, '_');
    var words := CapitalizeAll(pieces);
    forall k | 0 <= k < |words| ensures ' ' !in words[k] {
      assert forall i :: 0 <= i < |pieces[k]| ==> pieces[k][i] in name by {
        forall i | 0 <= i < |pieces[k]| ensures pieces[k][i] in name {
          SplitPieceChars(name, '_', k, i);
        }
      }
      CaseKeeps(pieces[k], ' ');
    }
    SplitJoin(words, ' ');
    SplitCount(name, '_');
  }

  /** Every character of a piece comes from the split string. */
  lemma {:induction false} SplitPieceChars(s: string, sep: char, k: nat, i: nat)
    requires k < |Split(s, sep)| && i < |Split(s, sep)[k]|
    ensures Split(s, sep)[k][i] in s
    decreases |s|
  {
    var rest := Split(s[1..], sep);
    if s[0] == sep {
      assert k > 0;
      SplitPieceChars(s[1..], sep, k - 1, i);
    } else if k == 0 && i == 0 {
    } else if k == 0 {
      SplitPieceChars(s[1..], sep, 0, i - 1);
    } else {
      SplitPieceChars(s[1..], sep, k, i);
    }
  }

  /** `bug_fix` is shown as `Bug Fix`. */
  lemma DisplayNameExample(name: string)
    requires name == "bug_fix"
    ensures FormatDisplayName(name) == "Bug Fix"
  {
    SplitBugFix(name);
    CapitalizeBugFix();
    var words := CapitalizeAll(["bug", "fix"]);
    assert words[1..] == ["Fix"];
  }

  lemma SplitBugFix(name: string)
    requires name == "bug_fix"
    ensures Split(name, '_') == ["bug", "fix"]
  {
    SplitPrefix("bug", "fix", '_');
    assert name == "bug" + ['_'] + "fix";
    SplitNone("fix", '_');
  }

  lemma CapitalizeBugFix()
    ensures CapitalizeAll(["bug", "fix"]) == ["Bug", "Fix"]
  {
    assert Capitalize("bug") == "Bug" by {
      assert "bug"[1..] == "ug";
      LowerFixed("ug");
    }
    assert Capitalize("fix") == "Fix" by {
      assert "fix"[1..] == "ix";
      LowerFixed("ix");
    }
  }

  // ---------------------------------------------------------------------
  // Ticket patterns: `\[([A-Z]+\d+-?)\]`, group 1

  const TicketRegex: Grouped := Grouped([Lit('[')], [Plus(Upper), Plus(Digit), Opt('-')], [Lit(']')])

  /** `t[..i]` is letters, `t[i..j]` digits, and `t[j..]` empty or `-`. */
  predicate TicketSplit(t: string, i: nat, j: nat)
    requires i <= j <= |t|
  {
    && (forall x :: 0 <= x < i ==> IsUpper(t[x]))
    && (forall x :: i <= x < j ==> IsDigit(t[x]))
    && (j == |t| || (j + 1 == |t| && t[j] == '-'))
  }

  /** `t` is a word of `[A-Z]+\d+-?`. */
  predicate IsTicketPattern(t: string) {
    exists i, j :: 0 < i < j <= |t| && TicketSplit(t, i, j)
  }

  /** The end of a word of `[A-Z]+\d+-?` starting at `m`, if any. */
  function TicketEnd(s: string, m: nat): (r: Option<nat>)
    requires m <= |s|
    ensures r.Some? ==> m < r.value <= |s| && IsTicketPattern(s[m..r.value])
  {
    if m < |s| && IsUpper(s[m]) then
      var e := RunEnd(Upper, s, m);
      if e < |s| && IsDigit(s[e]) then
        var f := RunEnd(Digit, s, e);
        var n := if f < |s| && s[f] == '-' then f + 1 else f;
        SliceTicketSplit(s, m, e, f, n);
        Some(n)
      else None
    else None
  }

  /** Letters, digits and an optional dash read in `s` make a ticket
      pattern of the slice. */
  lemma SliceTicketSplit(s: string, m: nat, e: nat, f: nat, n: nat)
    requires m <= e <= f <= n <= |s| && AllIn(Upper, s, m, e) && AllIn(Digit, s, e, f)
    requires n == f || (n == f + 1 && s[f] == '-')
    ensures TicketSplit(s[m..n], e - m, f - m)
  {
    var t := s[m..n];
    forall x | 0 <= x < e - m ensures IsUpper(t[x]) { assert t[x] == s[m + x] && In(Upper, s[m + x]); }
    forall x | e - m <= x < f - m ensures IsDigit(t[x]) { assert t[x] == s[m + x] && In(Digit, s[m + x]); }
  }

  lemma ScanTicket(s: string, m: nat)
    requires m <= |s|
    ensures Scan(TicketRegex.grp, s, m) == TicketEnd(s, m)
  {
    var p := TicketRegex.grp;
    assert p[1..] == [Plus(Digit), Opt('-')];
    assert p[1..][1..] == [Opt('-')];
    assert p[1..][1..][1..] == [];
  }

  lemma TicketFound(s: string)
    ensures FindGroup(TicketRegex, s).Some? ==>
      IsTicketPattern(FindGroup(TicketRegex, s).value) && Contains(s, "[" + FindGroup(TicketRegex, s).value + "]")
  {
    match FindFrom(TicketRegex.Whole(), s, 0)
    case None =>
    case Some((a, _)) =>
      var (m, n, b) := ScanGroup(TicketRegex, s, a).value;
      ScanGroupParts(TicketRegex, s, a, m, n, b);
      TicketGroupAt(s, a, m, n, b);
  }

  /** A match of the ticket regex at `a` brackets a ticket pattern. */
  lemma TicketGroupAt(s: string, a: nat, m: nat, n: nat, b: nat)
    requires a <= |s| && Scan(TicketRegex.pre, s, a) == Some(m)
    requires Scan(TicketRegex.grp, s, m) == Some(n) && Scan(TicketRegex.post, s, n) == Some(b)
    ensures m <= n <= |s| && IsTicketPattern(s[m..n]) && Contains(s, "[" + s[m..n] + "]")
  {
    ScanOneLit(TicketRegex.pre, '[', s, a);
    ScanTicket(s, m);
    ScanOneLit(TicketRegex.post, ']', s, n);
    var v := s[m..n];
    assert s[a..n + 1] == "[" + v + "]";
    OccursAtSlice(s, "[" + v + "]", a);
  }

  /** `extractTicketPattern` on the file's text: the group of the first
      bracketed ticket pattern. */
  function ExtractTicketPattern(content: string): (r: Option<string>)
    ensures r.Some? ==> IsTicketPattern(r.value) && Contains(content, "[" + r.value + "]")
  {
    TicketFound(content);
    FindGroup(TicketRegex, content)
  }

  /** A bracketed ticket pattern at `a`, read as a match of the regex. */
  lemma ScanTicketAt(s: string, a: nat, n: nat)
    requires a < n < |s| && s[a] == '[' && s[n] == ']'
    requires TicketEnd(s, a + 1) == Some(n)
    ensures ScanGroup(TicketRegex, s, a) == Some((a + 1, n, n + 1))
  {
    var g := TicketRegex;
    assert Scan(g.pre, s, a) == Some(a + 1) by { assert g.pre[1..] == []; }
    ScanTicket(s, a + 1);
    assert Scan(g.post, s, n) == Some(n + 1) by { assert g.post[1..] == []; }
  }

  /** A ticket pattern written at `m` and closed by `]` is the word the
      group reads there. */
  lemma TicketEndAt(s: string, m: nat, t: string)
    requires m + |t| < |s| && IsTicketPattern(t) && s[m + |t|] == ']'
    requires forall x :: 0 <= x < |t| ==> s[m + x] == t[x]
    ensures TicketEnd(s, m) == Some(m + |t|)
  {
    var i, j :| 0 < i < j <= |t| && TicketSplit(t, i, j);
    assert AllIn(Upper, s, m, m + i) by {
      forall x | m <= x < m + i ensures In(Upper, s[x]) { assert s[m + (x - m)] == t[x - m]; }
    }
    assert AllIn(Digit, s, m + i, m + j) by {
      forall x | m + i <= x < m + j ensures In(Digit, s[x]) { assert s[m + (x - m)] == t[x - m]; }
    }
    assert s[m + i] == t[i];
    assert m + j < |s| && !IsDigit(s[m + j]) by {
      if j < |t| { assert s[m + j] == t[j]; }
    }
    RunEndAt(Upper, s, m, m + i);
    RunEndAt(Digit, s, m + i, m + j);
    if j < |t| { assert s[m + j] == '-'; }
  }

  /** The first `[` where the regex matches gives the pattern inside. */
  lemma FindTicketAt(s: string, a: nat, n: nat, t: string)
    requires a < n < |s| && s[a] == '[' && s[n] == ']'
    requires TicketEnd(s, a + 1) == Some(n) && s[a + 1..n] == t
    requires forall x :: 0 <= x < a ==> s[x] != '['
    ensures ExtractTicketPattern(s) == Some(t)
  {
    var g := TicketRegex;
    ScanTicketAt(s, a, n);
    forall a' | 0 <= a' < a ensures Scan(g.Whole(), s, a').None? {
      ScanLitFirst(g.Whole(), '[', s, a');
    }
    FindGroupAt(g, s, a, a + 1, n, n + 1);
  }

  /** The characters of `pre + "[" + t + "]" + rest`, by position. */
  lemma BracketLayout(pre: string, t: string, rest: string)
    ensures var s := pre + "[" + t + "]" + rest;
      && |s| == |pre| + |t| + 2 + |rest|
      && s[|pre|] == '[' && s[|pre| + 1 + |t|] == ']'
      && (forall x :: 0 <= x < |t| ==> s[|pre| + 1 + x] == t[x])
      && (forall x :: 0 <= x < |pre| ==> s[x] == pre[x])
      && s[|pre| + 1..|pre| + 1 + |t|] == t
  {
  }

  /** The first bracketed ticket pattern gives that pattern, whatever
      follows it: `[AIP698-]` gives `AIP698-` and `[AIP698]` gives
      `AIP698`. */
  lemma TicketInBrackets(pre: string, t: string, rest: string)
    requires forall x :: 0 <= x < |pre| ==> pre[x] != '['
    requires IsTicketPattern(t)
    ensures ExtractTicketPattern(pre + "[" + t + "]" + rest) == Some(t)
  {
    var s := pre + "[" + t + "]" + rest;
    BracketLayout(pre, t, rest);
    TicketWrittenAt(s, |pre|, t);
  }

  /** The ticket pattern written in brackets at `a`, with no `[` before. */
  lemma TicketWrittenAt(s: string, a: nat, t: string)
    requires IsTicketPattern(t) && a + |t| + 1 < |s|
    requires s[a] == '[' && s[a + 1 + |t|] == ']' && s[a + 1..a + 1 + |t|] == t
    requires forall x :: 0 <= x < |t| ==> s[a + 1 + x] == t[x]
    requires forall x :: 0 <= x < a ==> s[x] != '['
    ensures ExtractTicketPattern(s) == Some(t)
  {
    TicketEndAt(s, a + 1, t);
    FindTicketAt(s, a, a + 1 + |t|, t);
  }

  /** The group needs a digit, so text without digits gives no pattern:
      `[AIP-]` gives none. */
  lemma NoDigitNoTicket(s: string)
    requires forall x :: 0 <= x < |s| ==> !IsDigit(s[x])
    ensures ExtractTicketPattern(s) == None
  {
    if ExtractTicketPattern(s).Some? {
      TicketHasDigit(s, ExtractTicketPattern(s).value);
    }
  }

  /** A bracketed ticket pattern in `s` puts a digit in `s`. */
  lemma TicketHasDigit(s: string, t: string)
    requires IsTicketPattern(t) && Contains(s, "[" + t + "]")
    ensures exists x :: 0 <= x < |s| && IsDigit(s[x])
  {
    var i, j :| 0 < i < j <= |t| && TicketSplit(t, i, j);
    var w := "[" + t + "]";
    var k: nat :| k <= |s| && OccursAt(s, w, k);
    OccursAtPointwise(s, w, k);
    assert s[k + (1 + i)] == w[1 + i] == t[i];
  }

  /** `formatTicketNumber`: the pattern and the number in brackets, or
      `""` without a pattern or with a blank number. */
  function FormatTicketNumber(template: Template, ticketNumber: string): (r: string)
    ensures r != "" <==> template.ticketPattern.Some? && !IsBlank(ticketNumber)
    ensures r != "" ==> r == "[" + template.ticketPattern.value + ticketNumber + "]"
  {
    if template.ticketPattern.Some? && !IsBlank(ticketNumber) then
      "[" + template.ticketPattern.value + ticketNumber + "]"
    else ""
  }

  // ---------------------------------------------------------------------
  // The catalog

  predicate EndsWithMd(n: string) {
    |n| >= 3 && n[|n| - 3..] == ".md"
  }

  /** The filter of `listFiles`: a regular file named `*.md`. */
  predicate IsTemplateFile(e: Entry) {
    e.isFile && EndsWithMd(e.name)
  }

  /** The template a file stands for: `nameWithoutExtension`, its display
      name, and the ticket pattern of its text (none when it cannot be
      read). */
  function TemplateOf(e: Entry): (t: Template)
    requires IsTemplateFile(e)
    ensures t.fileName == e.name && t.name + ".md" == e.name
    ensures t.displayName == FormatDisplayName(t.name)
    ensures e.content.None? ==> t.ticketPattern.None?
  {
    var name := e.name[..|e.name| - 3];
    assert name + ".md" == e.name;
    Template(name, FormatDisplayName(name), e.name,
             if e.content.Some? then ExtractTicketPattern(e.content.value) else None)
  }

  /** The templates of the listed files, in listing order. */
  function Collect(entries: seq<Entry>): (r: seq<Template>)
    ensures |r| <= |entries|
    ensures forall e :: e in entries && IsTemplateFile(e) ==> TemplateOf(e) in r
    ensures forall t :: t in r ==> exists e :: e in entries && IsTemplateFile(e) && t == TemplateOf(e)
    decreases |entries|
  {
    if |entries| == 0 then []
    else
      var rest := Collect(entries[1..]);
      assert forall e :: e in entries ==> e == entries[0] || e in entries[1..];
      if IsTemplateFile(entries[0]) then [TemplateOf(entries[0])] + rest else rest
  }

  /** Names in a directory are distinct. */
  predicate DistinctNames(entries: seq<Entry>) {
    forall i, j :: 0 <= i < j < |entries| ==> entries[i].name != entries[j].name
  }

  function DisplayKey(t: Template): string { t.displayName }

  /** `getAvailableTemplates`: the templates sorted by display name. */
  function AvailableTemplates(listing: Option<seq<Entry>>): (r: seq<Template>)
    ensures listing.None? ==> r == []
    ensures Sorting.Sorted(r, DisplayKey)
    ensures listing.Some? ==> multiset(r) == multiset(Collect(listing.value))
  {
    match listing
    case None => []
    case Some(entries) =>
      Sorting.SortBySorted(Collect(entries), DisplayKey);
      Sorting.SortBy(Collect(entries), DisplayKey)
  }

  /** `getDefaultTemplate`: the first template of the catalog. */
  function DefaultTemplate(listing: Option<seq<Entry>>): (r: Option<Template>)
    ensures r.None? <==> AvailableTemplates(listing) == []
    ensures r.Some? ==> r.value in AvailableTemplates(listing)
  {
    var all := AvailableTemplates(listing);
    if |all| == 0 then None else Some(all[0])
  }

  // ---------------------------------------------------------------------
  // Reading a template

  /** `getDefaultTemplateContent`: the built-in body, with the `{{…}}`
      placeholders the renderer fills in. */
  const DefaultHead: string := "## Pull Request: "
  const DefaultTiming: string := "\n\n### Time Tracking\n- **Estimate:** "
  const DefaultActual: string := "\n- **Actual:** "
  const DefaultTail: string :=
    "\n\n### Description\nBrief description of changes\n\n### Type of Change\n"
    + "- [ ] Bug fix\n- [ ] New feature  \n- [ ] Breaking change\n- [ ] Documentation update\n\n"
    + "### Testing\n- [ ] Tests pass locally\n- [ ] Added new tests for changes\n\n"
    + "### Checklist\n- [ ] Code follows project style guidelines\n- [ ] Self-review completed\n"
    + "- [ ] Documentation updated if needed"

  const TitlePlaceholder: string := "{{title}}"
  const EstimatePlaceholder: string := "{{estimate_time}}"
  const ActualPlaceholder: string := "{{actual_time}}"

  const DefaultTemplateContent: string :=
    DefaultHead + (TitlePlaceholder + (DefaultTiming + (EstimatePlaceholder
    + (DefaultActual + (ActualPlaceholder + DefaultTail)))))

  /** The built-in body holds all three placeholders. */
  lemma DefaultHasPlaceholders()
    ensures Contains(DefaultTemplateContent, TitlePlaceholder)
    ensures Contains(DefaultTemplateContent, EstimatePlaceholder)
    ensures Contains(DefaultTemplateContent, ActualPlaceholder)
  {
    AlternateContains(DefaultHead, TitlePlaceholder, DefaultTiming, EstimatePlaceholder,
                      DefaultActual, ActualPlaceholder, DefaultTail);
  }

  /** Each of the pieces `t`, `e` and `a` occurs in the whole. */
  lemma AlternateContains(h: string, t: string, g: string, e: string, c: string, a: string, l: string)
    ensures Contains(h + (t + (g + (e + (c + (a + l))))), t)
    ensures Contains(h + (t + (g + (e + (c + (a + l))))), e)
    ensures Contains(h + (t + (g + (e + (c + (a + l))))), a)
  {
    var x := h + (t + (g + (e + (c + (a + l)))));
    assert x == h + t + (g + (e + (c + (a + l))));
    ContainsMiddle(h, t, g + (e + (c + (a + l))));
    assert x == (h + t + g) + e + (c + (a + l));
    ContainsMiddle(h + t + g, e, c + (a + l));
    assert x == (h + t + g + e + c) + a + l;
    ContainsMiddle(h + t + g + e + c, a, l);
  }

  /** The first entry with the given name. */
  function FindEntry(entries: seq<Entry>, name: string): (r: Option<Entry>)
    ensures r.Some? ==> r.value in entries && r.value.name == name
    ensures r.None? ==> forall e :: e in entries ==> e.name != name
    decreases |entries|
  {
    if |entries| == 0 then None
    else if entries[0].name == name then Some(entries[0])
    else FindEntry(entries[1..], name)
  }

  /** `readTemplate`: the file's text, or the built-in body when there is
      no base path, no such file, or reading it throws. */
  function ReadTemplate(template: Template, listing: Option<seq<Entry>>): (r: string)
    ensures listing.None? ==> r == DefaultTemplateContent
    ensures listing.Some? && (forall e :: e in listing.value ==> e.name != template.fileName) ==>
      r == DefaultTemplateContent
  {
    match listing
    case None => DefaultTemplateContent
    case Some(entries) =>
      match FindEntry(entries, template.fileName)
      case None => DefaultTemplateContent
      case Some(e) => e.content.GetOr(DefaultTemplateContent)
  }

  // ---------------------------------------------------------------------
  // Properties

  /** The catalog has exactly one template for each `.md` file. */
  lemma CatalogEntries(entries: seq<Entry>)
    requires DistinctNames(entries)
    ensures forall e :: e in entries && IsTemplateFile(e) ==> TemplateOf(e) in AvailableTemplates(Some(entries))
    ensures forall t :: t in AvailableTemplates(Some(entries)) ==>
      exists e :: e in entries && IsTemplateFile(e) && t == TemplateOf(e)
    ensures |AvailableTemplates(Some(entries))| == |Collect(entries)|
    ensures forall i, j :: 0 <= i < j < |AvailableTemplates(Some(entries))| ==>
      AvailableTemplates(Some(entries))[i].fileName != AvailableTemplates(Some(entries))[j].fileName
  {
    var c := Collect(entries);
    var r := AvailableTemplates(Some(entries));
    assert forall t :: t in r <==> t in c by {
      forall t ensures t in r <==> t in c {
        assert t in r <==> t in multiset(r);
        assert t in c <==> t in multiset(c);
      }
    }
    CollectDistinct(entries);
    Sorting.SortByDistinct(c, DisplayKey, FileKey);
  }

  function FileKey(t: Template): string { t.fileName }

  /** Every template of `Collect` comes from an entry of that name. */
  lemma {:induction false} CollectNames(entries: seq<Entry>, t: Template)
    requires t in Collect(entries)
    ensures exists q :: 0 <= q < |entries| && entries[q].name == t.fileName
    decreases |entries|
  {
    if |entries| > 0 && !(IsTemplateFile(entries[0]) && t == TemplateOf(entries[0])) {
      CollectNames(entries[1..], t);
      var q :| 0 <= q < |entries[1..]| && entries[1..][q].name == t.fileName;
      assert entries[q + 1].name == t.fileName;
    }
  }

  /** `Collect` gives each file once. */
  lemma {:induction false} CollectDistinct(entries: seq<Entry>)
    requires DistinctNames(entries)
    ensures Sorting.DistinctBy(Collect(entries), FileKey)
    decreases |entries|
  {
    if |entries| > 0 {
      var rest := Collect(entries[1..]);
      assert DistinctNames(entries[1..]) by {
        forall i, j | 0 <= i < j < |entries[1..]| ensures entries[1..][i].name != entries[1..][j].name {
          assert entries[1..][i] == entries[i + 1] && entries[1..][j] == entries[j + 1];
        }
      }
      CollectDistinct(entries[1..]);
      if IsTemplateFile(entries[0]) {
        forall j | 0 <= j < |rest| ensures rest[j].fileName != entries[0].name {
          CollectNames(entries[1..], rest[j]);
          var q :| 0 <= q < |entries[1..]| && entries[1..][q].name == rest[j].fileName;
          assert entries[q + 1].name == rest[j].fileName;
        }
        var r := [TemplateOf(entries[0])] + rest;
        forall i, j | 0 <= i < j < |r| ensures FileKey(r[i]) != FileKey(r[j]) {
          if i > 0 { assert r[i] == rest[i - 1] && r[j] == rest[j - 1]; }
          else { assert r[j] == rest[j - 1]; }
        }
      }
    }
  }

  /** Templates with the same display name keep their listing order. */
  lemma CatalogStable(entries: seq<Entry>, k: string)
    ensures Sorting.WithKey(AvailableTemplates(Some(entries)), DisplayKey, k)
         == Sorting.WithKey(Collect(entries), DisplayKey, k)
  {
    Sorting.SortByStable(Collect(entries), DisplayKey, k);
  }

  /** The default template has the least display name. */
  lemma DefaultTemplateLeast(listing: Option<seq<Entry>>)
    ensures DefaultTemplate(listing).Some? ==>
      forall t :: t in AvailableTemplates(listing) ==> LessEq(DefaultTemplate(listing).value.displayName, t.displayName)
  {
    var all := AvailableTemplates(listing);
    if |all| > 0 {
      Sorting.SortedAllPairs(all, DisplayKey);
      forall t | t in all ensures LessEq(all[0].displayName, t.displayName) {
        var j :| 0 <= j < |all| && all[j] == t;
        if j > 0 { assert LessEq(DisplayKey(all[0]), DisplayKey(all[j])); }
      }
    }
  }

  /** A missing directory gives an empty catalog and no default template. */
  lemma NoDirectoryNoTemplates()
    ensures AvailableTemplates(None) == [] && DefaultTemplate(None).None?
  {
  }

  /** Reading a template of the catalog gives its file's text, or the
      built-in body when the file cannot be read; its ticket pattern is the
      one found in that text. */
  lemma ReadCatalogTemplate(entries: seq<Entry>, e: Entry)
    requires DistinctNames(entries) && e in entries && IsTemplateFile(e)
    ensures ReadTemplate(TemplateOf(e), Some(entries)) == e.content.GetOr(DefaultTemplateContent)
    ensures e.content.Some? ==>
      TemplateOf(e).ticketPattern == ExtractTicketPattern(ReadTemplate(TemplateOf(e), Some(entries)))
  {
    var f := FindEntry(entries, e.name).value;
    var i :| 0 <= i < |entries| && entries[i] == e;
    var j :| 0 <= j < |entries| && entries[j] == f;
    assert i == j;
  }
}

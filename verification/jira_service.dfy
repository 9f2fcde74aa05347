/** `JiraService`: finding a Jira issue key in text, and the requests the
    service sends to Jira's REST API.  The HTTP client is not modelled: each
    call takes the response it would get (a status code, or a failure for
    an exception anywhere in building or sending the request) as a
    parameter, and the model says which request would be sent and whether
    the call reports success. */
module JiraService {
  import opened Wrappers
  import opened Text
  import Patterns
  import TimeParser
  import GitSettings

  // ---------------------------------------------------------------------
  // Issue keys: `Regex("[A-Z]+-\\d+").find(text)?.value`

  const KeyPattern: Patterns.Pattern :=
    [Patterns.Plus(Patterns.Upper), Patterns.Lit('-'), Patterns.Plus(Patterns.Digit)]

  /** `k` is upper-case letters, one `-`, then digits, with at least one
      of each. */
  predicate IsKey(k: string) {
    exists i :: 0 < i < |k| - 1 && KeySplit(k, i)
  }

  /** `k[..i]` is the project code, `k[i]` the dash, `k[i + 1..]` the number. */
  predicate KeySplit(k: string, i: nat)
    requires i < |k|
  {
    && k[i] == '-'
    && (forall t :: 0 <= t < i ==> IsUpper(k[t]))
    && (forall t :: i < t < |k| ==> IsDigit(k[t]))
  }

  /** The end of a match of `[A-Z]+-\d+` starting at `a`, if any. */
  function KeyEnd(s: string, a: nat): (r: Option<nat>)
    requires a <= |s|
    ensures r.Some? ==> a < r.value <= |s| && IsKey(s[a..r.value])
  {
    if a < |s| && IsUpper(s[a]) then
      var e := Patterns.RunEnd(Patterns.Upper, s, a);
      if e + 1 < |s| && s[e] == '-' && IsDigit(s[e + 1]) then
        var b := Patterns.RunEnd(Patterns.Digit, s, e + 1);
        assert KeySplit(s[a..b], e - a);
        Some(b)
      else None
    else None
  }

  /** The greedy scan of the key pattern is `KeyEnd`. */
  lemma ScanKey(s: string, a: nat)
    requires a <= |s|
    ensures Patterns.Scan(KeyPattern, s, a) == KeyEnd(s, a)
  {
    var p := KeyPattern;
    assert p[1..] == [Patterns.Lit('-'), Patterns.Plus(Patterns.Digit)];
    assert p[1..][1..] == [Patterns.Plus(Patterns.Digit)];
    assert p[1..][1..][1..] == [];
  }

  /** `JiraService.extractTicketKey` */
  function ExtractTicketKey(text: string): (r: Option<string>)
    ensures r.Some? ==> IsKey(r.value) && Contains(text, r.value)
  {
    match Patterns.FindFrom(KeyPattern, text, 0)
    case None => None
    case Some((a, b)) =>
      ScanKey(text, a);
      OccursAtSlice(text, text[a..b], a);
      Some(text[a..b])
  }

  lemma KeyPatternSeparated()
    ensures Patterns.Separated(KeyPattern)
  {
    var p := KeyPattern;
    assert p[1..] == [Patterns.Lit('-'), Patterns.Plus(Patterns.Digit)];
    assert p[1..][1..] == [Patterns.Plus(Patterns.Digit)];
    assert p[1..][1..][1..] == [];
  }

  /** `k` is the match `Matcher.find` reports when it starts at `a`: a
      word of the pattern, the longest one at `a`, with no word starting
      further left. */
  predicate FirstKeyAt(text: string, k: string, a: nat) {
    && a + |k| <= |text| && text[a..a + |k|] == k
    && Patterns.Matches(KeyPattern, text, a, a + |k|)
    && (forall j :: a <= j <= |text| && Patterns.Matches(KeyPattern, text, a, j) ==> j <= a + |k|)
    && (forall a', j :: 0 <= a' < a && a' <= j <= |text| ==> !Patterns.Matches(KeyPattern, text, a', j))
  }

  /** No word of the pattern anywhere in `text`. */
  predicate NoKey(text: string) {
    forall a', j :: 0 <= a' <= j <= |text| ==> !Patterns.Matches(KeyPattern, text, a', j)
  }

  /** `extractTicketKey` is `Matcher.find`: the key is the longest match at
      the leftmost position where the pattern matches, and there is no key
      exactly when the pattern matches nowhere. */
  lemma ExtractSpec(text: string)
    ensures ExtractTicketKey(text).None? <==> NoKey(text)
    ensures ExtractTicketKey(text).Some? ==>
      exists a: nat :: FirstKeyAt(text, ExtractTicketKey(text).value, a)
  {
    KeyPatternSeparated();
    Patterns.FindSpec(KeyPattern, text, 0);
    match Patterns.FindFrom(KeyPattern, text, 0)
    case None =>
    case Some((a, b)) =>
      var k := text[a..b];
      assert a + |k| == b;
      assert FirstKeyAt(text, k, a);
      assert !NoKey(text) by {
        assert Patterns.Matches(KeyPattern, text, a, b);
      }
  }

  /** A match of the key pattern ends a run of upper-case letters with `-`. */
  lemma KeyEndDash(s: string, a: nat)
    requires a <= |s|
    ensures KeyEnd(s, a).Some? ==>
      var e := Patterns.RunEnd(Patterns.Upper, s, a);
      a < e < |s| && s[e] == '-' && IsUpper(s[e - 1])
  {
  }

  /** A run of upper-case letters directly before every `-` is needed: a
      code with digits in it (`AIP123-45`) gives no key. */
  lemma NoKeyWithoutLetterDash(s: string)
    requires forall i :: 0 < i < |s| && s[i] == '-' ==> !IsUpper(s[i - 1])
    ensures ExtractTicketKey(s) == None
  {
    forall a | 0 <= a <= |s| ensures Patterns.Scan(KeyPattern, s, a).None? {
      ScanKey(s, a);
      KeyEndDash(s, a);
    }
  }

  lemma ExampleDigitCode()
    ensures ExtractTicketKey("AIP123-45") == None
  {
    var s := "AIP123-45";
    assert forall i :: 0 < i < |s| && s[i] == '-' ==> i == 6;
    NoKeyWithoutLetterDash(s);
  }

  /** A bracketed key `[CODE-N]` at the start of the text is the key found,
      whatever follows the bracket. */
  lemma KeyInBrackets(code: string, num: string, rest: string)
    requires |code| > 0 && forall t :: 0 <= t < |code| ==> IsUpper(code[t])
    requires IsDigitString(num)
    ensures ExtractTicketKey("[" + code + "-" + num + "]" + rest) == Some(code + "-" + num)
  {
    var s := "[" + code + "-" + num + "]" + rest;
    var e := 1 + |code|;
    var b := e + 1 + |num|;
    assert forall t :: 0 <= t < |code| ==> s[1 + t] == code[t];
    assert forall t :: 0 <= t < |num| ==> s[e + 1 + t] == num[t];
    assert s[e] == '-' && s[b] == ']';
    Patterns.RunEndAt(Patterns.Upper, s, 1, e);
    Patterns.RunEndAt(Patterns.Digit, s, e + 1, b);
    ScanKey(s, 0);
    ScanKey(s, 1);
    assert Patterns.FindFrom(KeyPattern, s, 0) == Some((1, b));
    assert s[1..b] == code + "-" + num;
  }

  // ---------------------------------------------------------------------
  // Requests

  datatype Verb = Get | Post

  /** The JSON document a request carries, by the values it interpolates. */
  datatype Body =
    | NoBody
    | CommentLink(prUrl: string)
    | WorkLogLink(seconds: int, link: string)
    | WorkLogText(seconds: int, text: string)

  datatype Request = Request(verb: Verb, url: string, body: Body)

  /** What the HTTP client gives back: a status code, or an exception. */
  datatype Response = Status(code: int) | Failure

  /** What a call sends (`None` when it returns before sending) and the
      Boolean it returns. */
  datatype Outcome = Outcome(request: Option<Request>, success: bool)

  /** `${settings.jiraUrl}/rest/api/3/issue/$ticketKey` */
  function IssueUrl(s: GitSettings.Settings, key: string): (r: string)
    ensures StartsWith(r, GitSettings.JiraUrl(s))
  {
    var base := GitSettings.JiraUrl(s);
    OccursAtSlice(base + "/rest/api/3/issue/" + key, base, 0);
    base + "/rest/api/3/issue/" + key
  }

  /** A status in `200..299`: the 2xx class. */
  predicate IsSuccessful(resp: Response)
    ensures IsSuccessful(resp) <==> resp.Status? && resp.code / 100 == 2
  {
    resp.Status? && 200 <= resp.code <= 299
  }

  /** `commentOnTicket` */
  function CommentOnTicket(s: GitSettings.Settings, key: string, prUrl: string, resp: Response): (r: Outcome)
    ensures r.request.None? <==> !GitSettings.IsJiraConfigured(s)
    ensures r.request.Some? ==> r.request.value.verb == Post && r.request.value.body == CommentLink(prUrl)
    ensures r.success <==> GitSettings.IsJiraConfigured(s) && IsSuccessful(resp)
  {
    if !GitSettings.IsJiraConfigured(s) then Outcome(None, false)
    else Outcome(Some(Request(Post, IssueUrl(s, key) + "/comment", CommentLink(prUrl))), IsSuccessful(resp))
  }

  /** The payload of a work log: the link form when the text after
      `Pull Request: ` (all of it when absent), trimmed, starts with
      `http`; otherwise the whole description as text. */
  function WorkLogBody(minutes: int, description: string): (r: Body)
    requires TimeParser.IsInt(minutes)
    ensures r.WorkLogLink? || r.WorkLogText?
    ensures r.seconds == TimeParser.Wrap32(minutes * 60)
    ensures r.WorkLogLink? <==> StartsWith(Trim(SubstringAfter(description, "Pull Request: ")), "http")
    ensures r.WorkLogLink? ==> r.link == Trim(SubstringAfter(description, "Pull Request: "))
    ensures r.WorkLogLink? ==> StartsWith(r.link, "http") && r.link == Trim(r.link)
    ensures r.WorkLogText? ==> r.text == description
  {
    var seconds := TimeParser.Wrap32(minutes * 60);
    var link := Trim(SubstringAfter(description, "Pull Request: "));
    if StartsWith(link, "http") then
      TrimTwice(SubstringAfter(description, "Pull Request: "));
      WorkLogLink(seconds, link)
    else WorkLogText(seconds, description)
  }

  /** `logWork` */
  function LogWork(s: GitSettings.Settings, key: string, minutes: int, description: string, resp: Response): (r: Outcome)
    requires TimeParser.IsInt(minutes)
    ensures r.request.None? <==> !GitSettings.IsJiraConfigured(s) || minutes <= 0
    ensures r.request.Some? ==> r.request.value.verb == Post && r.request.value.body == WorkLogBody(minutes, description)
    ensures r.success <==> GitSettings.IsJiraConfigured(s) && minutes > 0 && IsSuccessful(resp)
  {
    if !GitSettings.IsJiraConfigured(s) then Outcome(None, false)
    else if minutes <= 0 then Outcome(None, false)
    else Outcome(Some(Request(Post, IssueUrl(s, key) + "/worklog", WorkLogBody(minutes, description))), IsSuccessful(resp))
  }

  /** `ticketExists`: only status 200 counts. */
  function TicketExists(s: GitSettings.Settings, key: string, resp: Response): (r: Outcome)
    ensures r.request.None? <==> !GitSettings.IsJiraConfigured(s)
    ensures r.request.Some? ==> r.request.value == Request(Get, IssueUrl(s, key), NoBody)
    ensures r.success <==> GitSettings.IsJiraConfigured(s) && resp == Status(200)
  {
    if !GitSettings.IsJiraConfigured(s) then Outcome(None, false)
    else Outcome(Some(Request(Get, IssueUrl(s, key), NoBody)), resp == Status(200))
  }

  // ---------------------------------------------------------------------
  // Properties of the requests

  /** The three endpoints share the issue URL and differ in their suffix. */
  lemma Endpoints(s: GitSettings.Settings, key: string, prUrl: string, minutes: int, description: string, resp: Response)
    requires GitSettings.IsJiraConfigured(s) && TimeParser.IsInt(minutes) && minutes > 0
    ensures CommentOnTicket(s, key, prUrl, resp).request.value.url ==
      GitSettings.JiraUrl(s) + "/rest/api/3/issue/" + key + "/comment"
    ensures LogWork(s, key, minutes, description, resp).request.value.url ==
      GitSettings.JiraUrl(s) + "/rest/api/3/issue/" + key + "/worklog"
    ensures TicketExists(s, key, resp).request.value.url ==
      GitSettings.JiraUrl(s) + "/rest/api/3/issue/" + key
  {
  }

  /** The seconds logged are sixty times the minutes as long as that fits
      in an `Int`; beyond, the product wraps around. */
  lemma WorkLogSeconds(minutes: int, description: string)
    requires 0 < minutes && minutes * 60 <= TimeParser.MaxInt
    ensures WorkLogBody(minutes, description).seconds == 60 * minutes
  {
  }

  lemma WorkLogSecondsWrap(description: string)
    ensures WorkLogBody(35791395, description).seconds == -2147483596
  {
    var x := 35791395 * 60;
    assert x == 2147483700;
    assert (x - TimeParser.MinInt) % 0x1_0000_0000 == 52;
  }

  /** A description that names the pull request after its first
      `Pull Request: ` is logged with that URL, trimmed, as the link
      exactly when it starts with `http`. */
  lemma WorkLogBodyAfterMarker(minutes: int, pre: string, url: string)
    requires TimeParser.IsInt(minutes)
    requires forall j :: 0 <= j < |pre| ==> pre[j] != 'P'
    ensures var b := WorkLogBody(minutes, pre + "Pull Request: " + url);
      && (b.WorkLogLink? <==> StartsWith(Trim(url), "http"))
      && (b.WorkLogLink? ==> b.link == Trim(url))
      && (b.WorkLogText? ==> b.text == pre + "Pull Request: " + url)
  {
    SubstringAfterFirst(pre, "Pull Request: ", url);
  }

  /** Without `Pull Request: ` the whole description, trimmed, decides. */
  lemma WorkLogBodyNoMarker(minutes: int, description: string)
    requires TimeParser.IsInt(minutes) && !Contains(description, "Pull Request: ")
    ensures var b := WorkLogBody(minutes, description);
      && (b.WorkLogLink? <==> StartsWith(Trim(description), "http"))
      && (b.WorkLogLink? ==> b.link == Trim(description))
  {
  }

  /** The description the pull-request dialog passes: the link form is
      chosen exactly when the pull-request URL, trimmed, starts with
      `http`, and then the link is that trimmed URL. */
  lemma DialogWorkLogBody(minutes: int, prUrl: string)
    requires TimeParser.IsInt(minutes)
    ensures var b := WorkLogBody(minutes, "Development work - Pull Request: " + prUrl);
      && (b.WorkLogLink? <==> StartsWith(Trim(prUrl), "http"))
      && (b.WorkLogLink? ==> b.link == Trim(prUrl))
  {
    var pre := "Development work - ";
    assert forall j :: 0 <= j < |pre| ==> pre[j] != 'P';
    assert pre + "Pull Request: " == "Development work - Pull Request: ";
    WorkLogBodyAfterMarker(minutes, pre, prUrl);
  }

  /** A status that makes `ticketExists` succeed also makes the comment and
      work-log calls succeed; `201 Created` does only the latter. */
  lemma StatusAgreement(s: GitSettings.Settings, key: string, resp: Response)
    ensures TicketExists(s, key, resp).success ==> CommentOnTicket(s, key, "", resp).success
    ensures GitSettings.IsJiraConfigured(s) ==>
      CommentOnTicket(s, key, "", Status(201)).success && !TicketExists(s, key, Status(201)).success
  {
  }
}

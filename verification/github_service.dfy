/** `GitHubService`: remote-URL parsing, the `html_url` lookup in a
    create-pull-request reply, and what `createPullRequest` sends and
    returns.  The HTTP client is a parameter: the reply it gives (or the
    exception it throws) is an input. */
module GitHubService {
  import opened Wrappers
  import opened Text
  import Patterns
  import GitSettings
  import GitHubEscape

  // ---------------------------------------------------------------------
  // Remote URLs

  const HttpsPrefix: string := "https://github.com/"
  const SshPrefix: string := "git@github.com:"

  predicate NoSlash(x: string) {
    forall i :: 0 <= i < |x| ==> x[i] != '/'
  }

  /** The line terminators of java.util.regex without `UNIX_LINES`. */
  predicate IsLineTerminator(c: char) {
    c == '\n' || c == '\r' || c == '\U{85}' || c == '\U{2028}' || c == '\U{2029}'
  }

  /** `$` of java.util.regex without `MULTILINE`, at position `i`: the end of
      the input, before a final line terminator (not between `\r` and `\n`),
      or before a final `\r\n`. */
  predicate DollarAt(s: string, i: nat) {
    || i == |s|
    || (i + 1 == |s| && IsLineTerminator(s[i]) && !(s[i] == '\n' && i > 0 && s[i - 1] == '\r'))
    || (i + 2 == |s| && s[i] == '\r' && s[i + 1] == '\n')
  }

  /** `/?$` (with `slash`) or `$` at `i`. */
  predicate SlashDollar(s: string, i: nat, slash: bool) {
    (slash && i < |s| && s[i] == '/' && DollarAt(s, i + 1)) || DollarAt(s, i)
  }

  /** `(?:\.git)?/?$` (with `slash`) or `(?:\.git)?$` at `e`. */
  predicate TailAt(s: string, e: nat, slash: bool) {
    (OccursAt(s, ".git", e) && SlashDollar(s, e + 4, slash)) || SlashDollar(s, e, slash)
  }

  /** The lazy `([^/]+?)` group: the first end, from `e` to `limit`, after
      which the tail matches. */
  function RepoEnd(s: string, e: nat, limit: nat, slash: bool): (r: Option<nat>)
    requires e <= limit <= |s|
    ensures r.Some? ==> e <= r.value <= limit && TailAt(s, r.value, slash)
    ensures r.Some? ==> forall j :: e <= j < r.value ==> !TailAt(s, j, slash)
    ensures r.None? ==> forall j :: e <= j <= limit ==> !TailAt(s, j, slash)
    decreases limit - e
  {
    if TailAt(s, e, slash) then Some(e)
    else if e == limit then None
    else RepoEnd(s, e + 1, limit, slash)
  }

  const NotSlash: Patterns.Class := Patterns.Except('/')

  /** A match of `lit([^/]+)/([^/]+?)<tail>` starting at `a`, as its two
      groups.  The greedy owner group can only end at a `/`, so it is the
      maximal run of non-`/` characters. */
  function MatchAt(s: string, a: nat, lit: string, slash: bool): (r: Option<(string, string)>)
    requires a <= |s|
    ensures r.Some? ==> |r.value.0| > 0 && |r.value.1| > 0 && NoSlash(r.value.0) && NoSlash(r.value.1)
    ensures r.Some? ==> OccursAt(s, lit + r.value.0 + "/" + r.value.1, a)
  {
    if !OccursAt(s, lit, a) then None
    else
      var o := a + |lit|;
      var oe := Patterns.RunEnd(NotSlash, s, o);
      if oe == o || oe == |s| then None
      else
        var r0 := oe + 1;
        var re := Patterns.RunEnd(NotSlash, s, r0);
        if re == r0 then None
        else
          match RepoEnd(s, r0 + 1, re, slash)
          case None => None
          case Some(e) =>
            var owner := s[o..oe];
            var repo := s[r0..e];
            MatchAtOccurs(s, a, lit, o, oe, e);
            Some((owner, repo))
  }

  lemma MatchAtOccurs(s: string, a: nat, lit: string, o: nat, oe: nat, e: nat)
    requires a + |lit| == o < oe < e <= |s| && OccursAt(s, lit, a) && s[oe] == '/'
    ensures OccursAt(s, lit + s[o..oe] + "/" + s[oe + 1..e], a)
  {
    OccursAtSlice(s, lit, a);
    var w := lit + s[o..oe] + "/" + s[oe + 1..e];
    assert s[a..e] == s[a..o] + s[o..oe] + [s[oe]] + s[oe + 1..e];
    assert s[a..a + |w|] == w;
    OccursAtSlice(s, w, a);
  }

  /** `Regex.find`: the leftmost match at or after `a`. */
  function FindRepo(s: string, lit: string, slash: bool, a: nat): (r: Option<(string, string)>)
    requires a <= |s|
    ensures r.Some? ==> |r.value.0| > 0 && |r.value.1| > 0 && NoSlash(r.value.0) && NoSlash(r.value.1)
    ensures r.Some? ==> Contains(s, lit + r.value.0 + "/" + r.value.1)
    ensures r.Some? ==> Contains(s, lit)
    decreases |s| - a
  {
    match MatchAt(s, a, lit, slash)
    case Some(p) =>
      assert OccursAt(s, lit, a) by {
        OccursAtPointwise(s, lit + p.0 + "/" + p.1, a);
        OccursAtPointwise(s, lit, a);
        assert forall t :: 0 <= t < |lit| ==> (lit + p.0 + "/" + p.1)[t] == lit[t];
      }
      Some(p)
    case None => if a == |s| then None else FindRepo(s, lit, slash, a + 1)
  }

  /** `parseRepositoryInfo`: the owner and repository of an HTTPS remote
      (`https://github.com/OWNER/REPO`, optionally followed by `.git` and
      `/`), or else of an SSH remote (`git@github.com:OWNER/REPO`,
      optionally followed by `.git`). */
  function ParseRepositoryInfo(remoteUrl: string): (r: Option<(string, string)>)
    ensures r.Some? ==> |r.value.0| > 0 && |r.value.1| > 0 && NoSlash(r.value.0) && NoSlash(r.value.1)
    ensures r.Some? ==> (Contains(remoteUrl, HttpsPrefix + r.value.0 + "/" + r.value.1)
                      || Contains(remoteUrl, SshPrefix + r.value.0 + "/" + r.value.1))
    ensures !Contains(remoteUrl, HttpsPrefix) && !Contains(remoteUrl, SshPrefix) ==> r.None?
  {
    match FindRepo(remoteUrl, HttpsPrefix, true, 0)
    case Some(p) => Some(p)
    case None => FindRepo(remoteUrl, SshPrefix, false, 0)
  }

  /** When the URL ends in neither `/` nor a line terminator, the tail can
      only match at the very end or just before a final `.git`. */
  lemma TailOnlyAtEnd(s: string, j: nat, slash: bool)
    requires j <= |s| && |s| > 0 && s[|s| - 1] != '/' && !IsLineTerminator(s[|s| - 1])
    requires TailAt(s, j, slash)
    ensures j == |s| || j + 4 == |s|
  {
  }

  /** The positions of the prefix and the owner in
      `lit + owner + "/" + repo + ".git"`. */
  lemma OwnerLayout(s: string, lit: string, owner: string, repo: string)
    requires |owner| > 0 && NoSlash(owner)
    requires s == lit + owner + "/" + repo + ".git"
    ensures var o := |lit|; var oe := o + |owner|;
      && OccursAt(s, lit, 0)
      && Patterns.RunEnd(NotSlash, s, o) == oe && oe < |s| && s[oe] == '/'
      && s[o..oe] == owner
  {
    var o := |lit|;
    var oe := o + |owner|;
    assert s[..o] == lit;
    OccursAtSlice(s, lit, 0);
    assert forall t :: o <= t < oe ==> s[t] == owner[t - o];
    Patterns.RunEndAt(NotSlash, s, o, oe);
    assert s[o..oe] == owner;
  }

  /** The positions of the repository and `.git` in
      `lit + owner + "/" + repo + ".git"`. */
  lemma RepoLayout(s: string, lit: string, owner: string, repo: string)
    requires |repo| > 0 && NoSlash(repo)
    requires s == lit + owner + "/" + repo + ".git"
    ensures var r0 := |lit| + |owner| + 1; var e := r0 + |repo|;
      && Patterns.RunEnd(NotSlash, s, r0) == |s| && e + 4 == |s|
      && OccursAt(s, ".git", e) && s[|s| - 1] == 't'
      && s[r0..e] == repo
  {
    var r0 := |lit| + |owner| + 1;
    var e := r0 + |repo|;
    assert forall t :: r0 <= t < e ==> s[t] == repo[t - r0];
    assert s[e..] == ".git";
    assert forall t :: e <= t < |s| ==> s[t] == ".git"[t - e];
    Patterns.RunEndAt(NotSlash, s, r0, |s|);
    OccursAtSlice(s, ".git", e);
    assert s[r0..e] == repo;
  }

  /** `MatchAt` from the positions it computes. */
  lemma MatchAtFrom(s: string, a: nat, lit: string, slash: bool, oe: nat, re: nat, e: nat)
    requires a + |lit| < oe && oe + 1 < re <= |s| && OccursAt(s, lit, a)
    requires Patterns.RunEnd(NotSlash, s, a + |lit|) == oe && Patterns.RunEnd(NotSlash, s, oe + 1) == re
    requires RepoEnd(s, oe + 2, re, slash) == Some(e)
    ensures MatchAt(s, a, lit, slash) == Some((s[a + |lit|..oe], s[oe + 1..e]))
  {
  }

  /** The tail matches just before a final `.git`. */
  lemma GitTail(s: string, e: nat, slash: bool)
    requires OccursAt(s, ".git", e) && e + 4 == |s|
    ensures TailAt(s, e, slash)
  {
  }

  /** A repository URL of the given shape parses to its owner and repository. */
  lemma MatchRemote(s: string, lit: string, owner: string, repo: string, slash: bool)
    requires |owner| > 0 && |repo| > 0 && NoSlash(owner) && NoSlash(repo)
    requires s == lit + owner + "/" + repo + ".git"
    ensures MatchAt(s, 0, lit, slash) == Some((owner, repo))
  {
    OwnerLayout(s, lit, owner, repo);
    RepoLayout(s, lit, owner, repo);
    var e := |s| - 4;
    var oe := |lit| + |owner|;
    GitTail(s, e, slash);
    var found := RepoEnd(s, oe + 2, |s|, slash);
    TailOnlyAtEnd(s, found.value, slash);
    MatchAtFrom(s, 0, lit, slash, oe, |s|, e);
  }

  /** An HTTPS remote ending in `.git` parses to its owner and repository. */
  lemma ParseHttps(owner: string, repo: string)
    requires |owner| > 0 && |repo| > 0 && NoSlash(owner) && NoSlash(repo)
    ensures ParseRepositoryInfo(HttpsPrefix + owner + "/" + repo + ".git") == Some((owner, repo))
  {
    var s := HttpsPrefix + owner + "/" + repo + ".git";
    MatchRemote(s, HttpsPrefix, owner, repo, true);
  }

  /** The HTTPS prefix holds two adjacent slashes. */
  lemma HttpsSlashes(s: string, a: nat)
    requires OccursAt(s, HttpsPrefix, a)
    ensures a + 7 < |s| && s[a + 6] == '/' && s[a + 7] == '/'
  {
    OccursAtPointwise(s, HttpsPrefix, a);
  }

  /** An SSH remote ending in `.git` parses to its owner and repository; the
      HTTPS form cannot occur in it, since it holds a single `/`. */
  lemma ParseSsh(owner: string, repo: string)
    requires |owner| > 0 && |repo| > 0 && NoSlash(owner) && NoSlash(repo)
    ensures ParseRepositoryInfo(SshPrefix + owner + "/" + repo + ".git") == Some((owner, repo))
  {
    var s := SshPrefix + owner + "/" + repo + ".git";
    var k := |SshPrefix| + |owner|;
    assert forall t :: 0 <= t < |s| && t != k ==> s[t] != '/' by {
      forall t | 0 <= t < |s| && t != k ensures s[t] != '/' {
        if t < |SshPrefix| {
        } else if t < k {
          assert s[t] == owner[t - |SshPrefix|];
        } else if t < k + 1 + |repo| {
          assert s[t] == repo[t - k - 1];
        }
      }
    }
    assert !Contains(s, HttpsPrefix) by {
      forall a: nat | a <= |s| ensures !OccursAt(s, HttpsPrefix, a) {
        if OccursAt(s, HttpsPrefix, a) {
          HttpsSlashes(s, a);
        }
      }
    }
    MatchRemote(s, SshPrefix, owner, repo, false);
  }

  // ---------------------------------------------------------------------
  // The pull-request URL in a reply

  /** `"html_url"\s*:\s*"([^"]+)"` */
  const HtmlUrl: Patterns.Grouped := Patterns.Grouped(
    Patterns.Lits(UrlKey) + UrlColon, UrlGroup, [Patterns.Lit('"')])

  const UrlKey: string := "\"html_url\""

  /** `\s*:\s*"` */
  const UrlColon: Patterns.Pattern :=
    [Patterns.Star(Patterns.Space), Patterns.Lit(':'), Patterns.Star(Patterns.Space), Patterns.Lit('"')]

  /** `[^"]+` */
  const UrlGroup: Patterns.Pattern := [Patterns.Plus(Patterns.Except('"'))]

  lemma HtmlUrlSeparated()
    ensures Patterns.Separated(HtmlUrl.Whole())
  {
    var q := UrlColon + UrlGroup + [Patterns.Lit('"')];
    assert |q| == 6;
    assert Patterns.Separated(q[5..]);
    assert Patterns.Separated(q[4..]);
    assert Patterns.Separated(q[3..]);
    assert Patterns.Separated(q[2..]);
    assert Patterns.Separated(q[1..]);
    assert q[0..] == q;
    Patterns.GroupedLitsSeparated(UrlKey, UrlColon, UrlGroup, [Patterns.Lit('"')]);
  }

  /** `extractPullRequestUrl`: the first `html_url` string value. */
  function ExtractPullRequestUrl(responseBody: string): (r: Option<string>)
    ensures r.Some? ==> |r.value| > 0 && forall i :: 0 <= i < |r.value| ==> r.value[i] != '"'
  {
    UrlChars(responseBody);
    Patterns.FindGroup(HtmlUrl, responseBody)
  }

  lemma UrlChars(responseBody: string)
    ensures var r := Patterns.FindGroup(HtmlUrl, responseBody);
      r.Some? ==> |r.value| > 0 && forall i :: 0 <= i < |r.value| ==> r.value[i] != '"'
  {
    Patterns.FindGroupRun(HtmlUrl, responseBody, Patterns.Except('"'));
  }

  /** `"html_url"\s*:\s*"` scanned over `"html_url":"`. */
  lemma ScanUrlPre(s: string, a: nat)
    requires OccursAt(s, UrlKey, a) && a + 12 <= |s| && s[a + 10] == ':' && s[a + 11] == '"'
    ensures Patterns.Scan(HtmlUrl.pre, s, a) == Some(a + 12)
  {
    var i := a + 10;
    Patterns.ScanLits(UrlKey, UrlColon, s, a);
    Patterns.RunEndAt(Patterns.Space, s, i, i);
    Patterns.RunEndAt(Patterns.Space, s, i + 1, i + 1);
  }

  /** `[^"]+"` scanned over `URL"`. */
  lemma ScanUrlValue(s: string, m: nat, n: nat)
    requires m < n < |s| && s[n] == '"' && forall t :: m <= t < n ==> s[t] != '"'
    ensures Patterns.Scan(HtmlUrl.grp, s, m) == Some(n)
    ensures Patterns.Scan(HtmlUrl.post, s, n) == Some(n + 1)
  {
    Patterns.RunEndAt(Patterns.Except('"'), s, m, n);
    Patterns.ScanPlus(Patterns.Except('"'), s, m);
  }

  /** The scan of the whole pattern at a `"html_url":"URL"` member. */
  lemma ScanUrlMember(s: string, a: nat, n: nat)
    requires OccursAt(s, UrlKey, a) && a + 12 < n < |s| && s[a + 10] == ':' && s[a + 11] == '"'
    requires s[n] == '"' && forall t :: a + 12 <= t < n ==> s[t] != '"'
    ensures Patterns.ScanGroup(HtmlUrl, s, a) == Some((a + 12, n, n + 1))
  {
    ScanUrlPre(s, a);
    ScanUrlValue(s, a + 12, n);
  }

  /** A reply whose first `"` opens an `"html_url":"URL"` member gives URL. */
  lemma ExtractUrlMember(pre: string, u: string, rest: string)
    requires |u| > 0 && forall i :: 0 <= i < |u| ==> u[i] != '"'
    requires forall i :: 0 <= i < |pre| ==> pre[i] != '"'
    ensures ExtractPullRequestUrl(pre + UrlKey + ":\"" + u + "\"" + rest) == Some(u)
  {
    var s := pre + UrlKey + ":\"" + u + "\"" + rest;
    var a := |pre|;
    var n := a + 12 + |u|;
    MemberLayout(pre, u, rest, s);
    QuoteFree(s, a + 12, n, u);
    ScanUrlMember(s, a, n);
    NoMemberBefore(pre, s);
    Patterns.FindGroupAt(HtmlUrl, s, a, a + 12, n, n + 1);
  }

  /** No match starts in text before the first `"`. */
  lemma NoMemberBefore(pre: string, s: string)
    requires |pre| <= |s| && forall i :: 0 <= i < |pre| ==> pre[i] != '"' && s[i] == pre[i]
    ensures Patterns.NoMatchBefore(HtmlUrl.Whole(), s, |pre|)
  {
    var w := HtmlUrl.Whole();
    assert w[0] == Patterns.Lit('"');
    forall b | 0 <= b < |pre| ensures Patterns.Scan(w, s, b).None? {
      Patterns.ScanLitFirst(w, '"', s, b);
    }
  }

  /** The value copied into `s` keeps its characters. */
  lemma QuoteFree(s: string, m: nat, n: nat, u: string)
    requires m <= n <= |s| && s[m..n] == u && forall i :: 0 <= i < |u| ==> u[i] != '"'
    ensures forall t :: m <= t < n ==> s[t] != '"'
  {
    forall t | m <= t < n ensures s[t] != '"' {
      assert s[t] == u[t - m];
    }
  }

  lemma MemberLayout(pre: string, u: string, rest: string, s: string)
    requires s == pre + UrlKey + ":\"" + u + "\"" + rest
    ensures var a := |pre|; var n := a + 12 + |u|;
      && OccursAt(s, UrlKey, a) && n < |s| && s[a + 10] == ':' && s[a + 11] == '"'
      && s[n] == '"' && s[a + 12..n] == u
    ensures forall i :: 0 <= i < |pre| ==> s[i] == pre[i]
  {
    var a := |pre|;
    assert forall t :: 0 <= t < 10 ==> s[a + t] == UrlKey[t];
    OccursAtPointwise(s, UrlKey, a);
    assert s[a + 12..a + 12 + |u|] == u;
  }

  // ---------------------------------------------------------------------
  // Creating a pull request

  /** What the HTTP client gives back: a status and body, or an exception
      with its message (`null` reads as `"null"` in the source's template). */
  datatype Reply = Reply(code: int, body: string) | Thrown(message: string)

  /** The create request: its URL and the four JSON string fields as sent. */
  datatype PullRequest = PullRequest(url: string, title: string, body: string, head: string, base: string)

  /** `PullRequestResult` */
  datatype PullRequestResult = PullRequestResult(success: bool, pullRequestUrl: Option<string>, error: Option<string>)

  datatype Outcome = Outcome(request: Option<PullRequest>, result: PullRequestResult)

  const NotConfigured: string := "GitHub token chưa được cấu hình"
  const AlreadyExists: string := "Pull Request" + " đã tồn tại hoặc không có thay đổi nào để merge"

  function PullsUrl(owner: string, repo: string): string {
    "https://api.github.com/repos/" + owner + "/" + repo + "/pulls"
  }

  /** One member of the document: `"name": "value"`. */
  function Member(name: string, value: string): string {
    "\"" + name + "\": \"" + value + "\""
  }

  /** The JSON document of the request, after `trimIndent`: the four
      members, one per indented line, in braces. */
  function Json(pr: PullRequest): (r: string)
    ensures Contains(r, Member("title", pr.title)) && Contains(r, Member("body", pr.body))
    ensures Contains(r, Member("head", pr.head)) && Contains(r, Member("base", pr.base))
  {
    FourPieces("{\n    ", Member("title", pr.title), ",\n    ", Member("body", pr.body),
               Member("head", pr.head), Member("base", pr.base), "\n}");
    "{\n    " + Member("title", pr.title) + ",\n    " + Member("body", pr.body)
      + ",\n    " + Member("head", pr.head) + ",\n    " + Member("base", pr.base) + "\n}"
  }

  /** The result for a reply to the create request. */
  function ResultOf(reply: Reply): (r: PullRequestResult)
    ensures r.success <==> reply.Reply? && reply.code == 201
    ensures r.success <==> r.error.None?
    ensures r.success ==> r.pullRequestUrl == ExtractPullRequestUrl(reply.body)
    ensures !r.success ==> r.pullRequestUrl.None?
  {
    match reply
    case Thrown(message) => PullRequestResult(false, None, Some("Exception: " + message))
    case Reply(code, body) =>
      if code == 201 then PullRequestResult(true, ExtractPullRequestUrl(body), None)
      else if code == 422 then PullRequestResult(false, None, Some(AlreadyExists))
      else PullRequestResult(false, None, Some("HTTP " + IntToString(code) + ": " + body))
  }

  /** `createPullRequest`: nothing is sent without a GitHub token; otherwise
      the four fields are escaped and posted, and the reply is mapped. */
  function CreatePullRequest(s: GitSettings.Settings, owner: string, repo: string, title: string,
                             body: string, headBranch: string, baseBranch: string, reply: Reply): (r: Outcome)
    ensures r.request.None? <==> !GitSettings.IsGitHubConfigured(s)
    ensures r.request.Some? ==> r.request.value.url == PullsUrl(owner, repo)
    ensures r.request.Some? ==> r.result == ResultOf(reply)
    ensures r.request.None? ==> r.result == PullRequestResult(false, None, Some(NotConfigured))
  {
    if !GitSettings.IsGitHubConfigured(s) then
      Outcome(None, PullRequestResult(false, None, Some(NotConfigured)))
    else
      var pr := PullRequest(PullsUrl(owner, repo), GitHubEscape.Escape(title), GitHubEscape.Escape(body),
                            GitHubEscape.Escape(headBranch), GitHubEscape.Escape(baseBranch));
      Outcome(Some(pr), ResultOf(reply))
  }

  /** Every field of a sent request reads back, as a JSON string, as the
      value it was given, when the values hold no control character the
      escape leaves raw. */
  lemma RequestFieldsReadBack(s: GitSettings.Settings, owner: string, repo: string, title: string,
                              body: string, headBranch: string, baseBranch: string, reply: Reply)
    requires GitSettings.IsGitHubConfigured(s)
    requires GitHubEscape.ChainSafe(title) && GitHubEscape.ChainSafe(body)
    requires GitHubEscape.ChainSafe(headBranch) && GitHubEscape.ChainSafe(baseBranch)
    ensures var pr := CreatePullRequest(s, owner, repo, title, body, headBranch, baseBranch, reply).request.value;
      && GitHubEscape.Unescape(pr.title) == Some(title)
      && GitHubEscape.Unescape(pr.body) == Some(body)
      && GitHubEscape.Unescape(pr.head) == Some(headBranch)
      && GitHubEscape.Unescape(pr.base) == Some(baseBranch)
  {
    GitHubEscape.EscapeRoundTrip(title);
    GitHubEscape.EscapeRoundTrip(body);
    GitHubEscape.EscapeRoundTrip(headBranch);
    GitHubEscape.EscapeRoundTrip(baseBranch);
  }

  /** A sent title reads back exactly when it holds no control character
      the escape leaves raw; otherwise the request carries an invalid JSON
      string. */
  lemma RequestTitleReadBack(s: GitSettings.Settings, owner: string, repo: string, title: string,
                             body: string, headBranch: string, baseBranch: string, reply: Reply)
    requires GitSettings.IsGitHubConfigured(s)
    ensures var pr := CreatePullRequest(s, owner, repo, title, body, headBranch, baseBranch, reply).request.value;
      GitHubEscape.Unescape(pr.title).Some? <==> GitHubEscape.ChainSafe(title)
  {
    GitHubEscape.EscapeRoundTrip(title);
  }

  /** A title holding U+0001 is sent raw and does not read back. */
  lemma ControlCharTitleSentRaw(s: GitSettings.Settings, owner: string, repo: string,
                                body: string, headBranch: string, baseBranch: string, reply: Reply)
    requires GitSettings.IsGitHubConfigured(s)
    ensures var pr := CreatePullRequest(s, owner, repo, "\U{1}", body, headBranch, baseBranch, reply).request.value;
      pr.title == "\U{1}" && GitHubEscape.Unescape(pr.title) == None
  {
    GitHubEscape.ControlCharLeftRaw();
  }

  /** Each of four pieces joined by separators is held by the whole. */
  lemma FourPieces(o: string, t: string, c: string, b: string, h: string, a: string, e: string)
    ensures var d := o + t + c + b + c + h + c + a + e;
      Contains(d, t) && Contains(d, b) && Contains(d, h) && Contains(d, a)
  {
    var d := o + t + c + b + c + h + c + a + e;
    assert d == o + t + (c + b + c + h + c + a + e);
    ContainsMiddle(o, t, c + b + c + h + c + a + e);
    assert d == (o + t + c) + b + (c + h + c + a + e);
    ContainsMiddle(o + t + c, b, c + h + c + a + e);
    assert d == (o + t + c + b + c) + h + (c + a + e);
    ContainsMiddle(o + t + c + b + c, h, c + a + e);
    ContainsMiddle(o + t + c + b + c + h + c, a, e);
  }

  /** The three failure messages cannot be confused: the HTTP one starts
      with `HTTP `, the exception one with `Exception: `. */
  lemma ErrorsDistinct(reply: Reply)
    ensures ResultOf(reply).error == Some(AlreadyExists) <==> reply.Reply? && reply.code == 422
    ensures reply.Thrown? ==> StartsWith(ResultOf(reply).error.value, "Exception: ")
    ensures reply.Reply? && reply.code != 201 && reply.code != 422 ==>
      StartsWith(ResultOf(reply).error.value, "HTTP ")
  {
    match reply
    case Thrown(m) =>
      var e := "Exception: " + m;
      OccursAtPointwise(e, "Exception: ", 0);
      assert e[0] == 'E' && AlreadyExists[0] == 'P';
    case Reply(code, body) =>
      if code != 201 && code != 422 {
        var e := "HTTP " + IntToString(code) + ": " + body;
        OccursAtPointwise(e, "HTTP ", 0);
        assert e[0] == 'H' && AlreadyExists[0] == 'P';
      }
  }
}

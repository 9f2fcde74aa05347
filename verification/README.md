# PluginGitFormat, modelled in Dafny

PluginGitFormat is an IntelliJ plugin that formats commit messages and
opens GitHub pull requests whose body is rendered from a Markdown template.
It also comments on, and logs work against, the Jira ticket named in the
pull request. This project models the plugin's text processing as pure
Dafny functions and proves properties about them. The IDE, the file system,
the password safe and the HTTP client are not modelled: what they would
return is passed in as a parameter.

The modules follow the source files:

- `TimeParser` reads durations such as `30`, `90m`, `1h`, `1.5h` and
  `2,5h` as minutes, and writes minutes back as `Nm`, `Hh` or `HhMm`.
- `JiraService` covers two things:
  - the key extractor `[A-Z]+-\d+`;
  - the URL, payload and status handling of the comment, work-log and
    lookup calls.
- `GitHubService` covers remote-URL parsing, the `html_url` lookup and the
  status mapping of `createPullRequest`.
- `GitHubEscape` covers the JSON string escape.
- `PullRequestTemplateService` covers the template catalog:
  - display names, ticket patterns and sorting;
  - reading a template, with its fallbacks.
- `ProjectPrefixService` reads the commit prefix out of the templates.
- `TemplateSetupDialog` covers the project code and the template files it
  writes.
- `PullRequestDialog` and `PullRequestTimes` cover the pull-request body
  renderer:
  - placeholder substitution;
  - the ticket rewrite with the four-pattern key extractor;
  - filling and inserting the estimate and actual-time lines;
  - the fixed default body;
  - the Jira follow-up decision.
- `CommitMessage`, `StringUtils`, `GitBranchService`, `GitSettings` and
  `GitSettingsState` cover the smaller services.
- `Text`, `Patterns`, `RegexReplace`, `Sorting` and `Wrappers` model the
  library behaviour the plugin relies on:
  - Kotlin string functions;
  - leftmost-longest matching of the plugin's fixed regular expressions;
  - `Regex.replace` with Java replacement-string syntax, including the
    cases that throw;
  - the stable `sortedBy`;
  - nullable values.

Three behaviours one might expect that the code does not have:

- A formatted mixed duration does not read back. `1h30m` parses as 1
  minute, through the digit-run fallback (`TimeParser.ParseFormattedMixed`).
  So the round trip `parse(format(m)) == m` holds only below an hour or for
  whole hours.
- Heading fills and inserts are only partly case-insensitive. The test for
  a heading ignores case, but the regex that rewrites it does not, and it
  matches anywhere in a line, not only at its start
  (`PullRequestTimes.EstimateLostBeforeOtherCase`).
- Rendering an already rendered body again is not a no-op. No time line is
  added (`PullRequestTimes.ReRenderAddsNoLine`), but the key's number is
  appended once more to a Jira link (`PullRequestDialog.ReRenderRepeatsNumber`).

## Model

| member | source | states |
|---|---|---|
| CommitMessage.Fresh | src/main/kotlin/com/thanhnguyen/git/format/domain/CommitMessage.kt:3-7 | a new message has an empty issue number and description and the project prefix `AIP` |
| CommitMessage.Format | src/main/kotlin/com/thanhnguyen/git/format/domain/CommitMessage.kt:8-13 | the header always opens with `[`, the prefix and `-` |
| CommitMessage.DescriptionReadBack | src/main/kotlin/com/thanhnguyen/git/format/domain/CommitMessage.kt:8-13 | the text after the first `] ` of the header is the description, or `{description}` when it is blank, provided prefix and issue hold no `]` |
| CommitMessage.IssueReadBack | src/main/kotlin/com/thanhnguyen/git/format/domain/CommitMessage.kt:8-13 | the text before the first `] ` of the header is `[`, the prefix, `-` and the issue number, or `{issue_number}` when it is blank, provided prefix and issue hold no `]` |
| CommitMessage.IsValid | src/main/kotlin/com/thanhnguyen/git/format/domain/CommitMessage.kt:15-17 | a message is valid exactly when neither field would be shown as its placeholder |
| CommitMessage.ValidShowsFields | src/main/kotlin/com/thanhnguyen/git/format/domain/CommitMessage.kt:8-17 | a valid message shows issue and description verbatim, with no placeholder |
| CommitMessage.FreshShowsPlaceholders | src/main/kotlin/com/thanhnguyen/git/format/domain/CommitMessage.kt:3-17 | a new message is not valid and renders as `[AIP-{issue_number}] {description}` |
| CommitMessage.FormatHasTicketKey | src/main/kotlin/com/thanhnguyen/git/format/domain/CommitMessage.kt:8-13 | Jira's key extraction reads `PREFIX-ISSUE` back from the header of an upper-case prefix and a numeric issue |
| GitSettingsState.Fresh | src/main/kotlin/com/thanhnguyen/git/format/settings/GitSettingsState.kt:8-30 | a new state has version 3, empty credentials and base branch `develop` |
| GitSettingsState.ResetToDefaults | src/main/kotlin/com/thanhnguyen/git/format/settings/GitSettingsState.kt:35-42 | after a reset every field holds its default |
| GitSettingsState.DefaultIsUnique | src/main/kotlin/com/thanhnguyen/git/format/settings/GitSettingsState.kt:8-29 | exactly one state has every field at its default |
| GitSettingsState.ResetIsFresh | src/main/kotlin/com/thanhnguyen/git/format/settings/GitSettingsState.kt:35-42 | a reset state equals a new one, and resetting is idempotent |
| GitSettings.SetSecret | src/main/kotlin/com/thanhnguyen/git/format/settings/GitSettings.kt:41-49 | a blank value removes the entry, any other is stored as given; nothing else changes |
| GitSettings.GitHubToken | src/main/kotlin/com/thanhnguyen/git/format/settings/GitSettings.kt:41-42 | the token getter reads the stored token, or `""` when none is stored |
| GitSettings.JiraEmail | src/main/kotlin/com/thanhnguyen/git/format/settings/GitSettings.kt:61-62 | the e-mail getter reads the stored e-mail, or `""` when none is stored |
| GitSettings.JiraApiToken | src/main/kotlin/com/thanhnguyen/git/format/settings/GitSettings.kt:71-72 | the API-token getter reads the stored token, or `""` when none is stored |
| GitSettings.IsGitHubConfigured | src/main/kotlin/com/thanhnguyen/git/format/settings/GitSettings.kt:87-89 | GitHub counts as configured exactly when a non-blank token is stored |
| GitSettings.JiraUrl | src/main/kotlin/com/thanhnguyen/git/format/settings/GitSettings.kt:51-55 | the Jira URL is never blank: a stored non-blank URL, else `https://apero.atlassian.net/` |
| GitSettings.SetJiraUrl | src/main/kotlin/com/thanhnguyen/git/format/settings/GitSettings.kt:56-59 | the setter stores the value, or the default URL for a blank value, and touches no other entry |
| GitSettings.SetDefaultBaseBranch | src/main/kotlin/com/thanhnguyen/git/format/settings/GitSettings.kt:81-85 | the base branch reads back as set and no credential changes |
| GitSettings.LoadState | src/main/kotlin/com/thanhnguyen/git/format/settings/GitSettings.kt:36-39 | loading takes only the base branch from the loaded record |
| GitSettings.ResetToDefaults | src/main/kotlin/com/thanhnguyen/git/format/settings/GitSettings.kt:95-103 | a reset leaves the record at its defaults and all four entries cleared |
| GitSettings.SetThenGet | src/main/kotlin/com/thanhnguyen/git/format/settings/GitSettings.kt:41-79 | reading a token or e-mail after setting it gives the value (or `""` if blank); other entries and the URL read as before |
| GitSettings.SetJiraUrlThenGet | src/main/kotlin/com/thanhnguyen/git/format/settings/GitSettings.kt:51-59 | reading the URL after setting it gives the value, or the default for a blank one; other entries are unchanged |
| GitSettings.IsJiraConfigured | src/main/kotlin/com/thanhnguyen/git/format/settings/GitSettings.kt:91-93 | Jira counts as configured exactly when e-mail and API token are non-blank, since the URL never is |
| GitSettings.ResetUnconfigures | src/main/kotlin/com/thanhnguyen/git/format/settings/GitSettings.kt:87-103 | after a reset neither GitHub nor Jira is configured, the URL reads as the default and the base branch is `develop` |
| GitSettings.LoadKeepsCredentials | src/main/kotlin/com/thanhnguyen/git/format/settings/GitSettings.kt:36-39 | loading a record changes no credential and neither configuration check |
| StringUtils.FormatClosedIssue | src/main/kotlin/com/thanhnguyen/git/format/util/StringUtils.kt:14-30 | a normalised reference is `#` followed by one or more digits; anything else gives no reference |
| StringUtils.IsNumeric | src/main/kotlin/com/thanhnguyen/git/format/util/StringUtils.kt:24-30 | a numeric string is never null, empty or blank; the empty string is not numeric |
| StringUtils.IsBlankOrNull | src/main/kotlin/com/thanhnguyen/git/format/util/StringUtils.kt:32-38 | blank exactly when null or empty once trimmed |
| StringUtils.HashTrim | src/main/kotlin/com/thanhnguyen/git/format/util/StringUtils.kt:16 | stripping `#` from both ends of `#…#` digits `#…#` leaves the digits |
| StringUtils.FormatDigits | src/main/kotlin/com/thanhnguyen/git/format/util/StringUtils.kt:14-22 | bare digits gain a `#` |
| StringUtils.FormatHashes | src/main/kotlin/com/thanhnguyen/git/format/util/StringUtils.kt:14-22 | any number of `#` before and after a number is reduced to one leading `#` |
| StringUtils.FormatPadded | src/main/kotlin/com/thanhnguyen/git/format/util/StringUtils.kt:14-22 | blanks around `#` and a number are dropped |
| StringUtils.FormatIdempotent | src/main/kotlin/com/thanhnguyen/git/format/util/StringUtils.kt:14-22 | `#` and digits is a fixed point of the normaliser |
| StringUtils.FormatTwice | src/main/kotlin/com/thanhnguyen/git/format/util/StringUtils.kt:14-22 | normalising a normalised reference changes nothing |
| ProjectPrefixService.ExtractPrefix | src/main/kotlin/com/thanhnguyen/git/format/services/ProjectPrefixService.kt:35-40 | a code found is upper-case letters then digits, and the content holds it as `[CODE-]` |
| ProjectPrefixService.PrefixInBrackets | src/main/kotlin/com/thanhnguyen/git/format/services/ProjectPrefixService.kt:35-40 | the first `[CODE-]` token gives its code, whatever follows |
| ProjectPrefixService.FindPrefixAt | src/main/kotlin/com/thanhnguyen/git/format/services/ProjectPrefixService.kt:35-40 | the regex's first match is at the first `[` that opens a `[CODE-]` token when no `[` comes before it |
| ProjectPrefixService.GetProjectPrefix | src/main/kotlin/com/thanhnguyen/git/format/services/ProjectPrefixService.kt:11-33 | the prefix is never empty: the fallback `AIP`, or a code that one of the two template files holds as `[CODE-]` |
| ProjectPrefixService.BugFixFirst | src/main/kotlin/com/thanhnguyen/git/format/services/ProjectPrefixService.kt:16-20 | a code in `bug_fix.md` wins over `feature_request.md` |
| ProjectPrefixService.FeatureRequestSecond | src/main/kotlin/com/thanhnguyen/git/format/services/ProjectPrefixService.kt:22-27 | `feature_request.md` decides when `bug_fix.md` is missing or names no code |
| ProjectPrefixService.FallbackCases | src/main/kotlin/com/thanhnguyen/git/format/services/ProjectPrefixService.kt:13-32 | no base path, a failed read of `bug_fix.md`, or no code in either file gives `AIP` |
| TimeParser.ToInt | src/main/kotlin/com/thanhnguyen/git/format/util/TimeParser.kt:30 | `toInt` of a digit string gives its value exactly when it fits in an `Int`, and fails otherwise |
| TimeParser.Wrap32 | src/main/kotlin/com/thanhnguyen/git/format/util/TimeParser.kt:45 | `hours * 60` gives an `Int` congruent to the exact product modulo 2^32, equal to it when it fits |
| TimeParser.SaturatingFloor | src/main/kotlin/com/thanhnguyen/git/format/util/TimeParser.kt:49-55 | `Double.toInt` of a non-negative value rounds down and saturates at `Int.MAX_VALUE` |
| TimeParser.FirstDigit | src/main/kotlin/com/thanhnguyen/git/format/util/TimeParser.kt:33 | the search for `\d+` stops at the first digit, and none comes before it |
| TimeParser.FirstRun | src/main/kotlin/com/thanhnguyen/git/format/util/TimeParser.kt:33-34 | the first group of `(\d+)` is a non-empty digit string |
| TimeParser.FirstNumber | src/main/kotlin/com/thanhnguyen/git/format/util/TimeParser.kt:33-34 | the fallback reading is a non-negative `Int` |
| TimeParser.DecimalParts | src/main/kotlin/com/thanhnguyen/git/format/util/TimeParser.kt:48-56 | `^\d+<sep>\d+$` splits the text into its whole and fractional digits, which rebuild it |
| TimeParser.DecimalMinutes | src/main/kotlin/com/thanhnguyen/git/format/util/TimeParser.kt:49-55 | fractional hours give a non-negative `Int` of minutes |
| TimeParser.HoursBranch | src/main/kotlin/com/thanhnguyen/git/format/util/TimeParser.kt:39-62 | the `h` branch gives an `Int` or nothing |
| TimeParser.ParseClean | src/main/kotlin/com/thanhnguyen/git/format/util/TimeParser.kt:24-84 | every branch gives an `Int` or nothing |
| TimeParser.ParseToMinutes | src/main/kotlin/com/thanhnguyen/git/format/util/TimeParser.kt:19-85 | blank input gives no duration; any duration is an `Int` |
| TimeParser.FormatMinutes | src/main/kotlin/com/thanhnguyen/git/format/util/TimeParser.kt:92-102 | the text ends in `m` or `h`, and in `h` exactly for whole hours of at least 60 minutes |
| TimeParser.ValidateAndFormat | src/main/kotlin/com/thanhnguyen/git/format/util/TimeParser.kt:109-114 | a formatted duration exactly when the parse is positive, and then it is that parse formatted |
| TimeParser.ReadDuration | src/main/kotlin/com/thanhnguyen/git/format/util/TimeParser.kt:92-102 | an independent reader of `Nm`, `Hh` and `HhMm` accepts only text ending in `m` or `h` |
| TimeParser.FirstRunIsRegexGroup | src/main/kotlin/com/thanhnguyen/git/format/util/TimeParser.kt:33-34 | the first digit run is the group the regex `(\d+)` reports |
| TimeParser.FirstRunOf | src/main/kotlin/com/thanhnguyen/git/format/util/TimeParser.kt:33-34 | the first run of `pre + d + post` is `d` when `pre` has no digit and `post` does not start with one |
| TimeParser.ParseNormalized | src/main/kotlin/com/thanhnguyen/git/format/util/TimeParser.kt:22 | only the trimmed, lower-cased input matters |
| TimeParser.ParseCleanInput | src/main/kotlin/com/thanhnguyen/git/format/util/TimeParser.kt:20-22 | an input already trimmed and without upper case is parsed as it is |
| TimeParser.ParseDigits | src/main/kotlin/com/thanhnguyen/git/format/util/TimeParser.kt:65-68 | digits alone are that many minutes, and nothing when they overflow an `Int` |
| TimeParser.ParseMinutesSuffix | src/main/kotlin/com/thanhnguyen/git/format/util/TimeParser.kt:27-30 | `Nm` is N minutes |
| TimeParser.ParseHoursSuffix | src/main/kotlin/com/thanhnguyen/git/format/util/TimeParser.kt:43-46 | `Nh` is 60·N minutes wrapped to 32 bits; an N beyond `Int` falls back to the first number |
| TimeParser.DecimalPartsOf | src/main/kotlin/com/thanhnguyen/git/format/util/TimeParser.kt:48-56 | `W.F` splits at the dot and not at a comma, and the other way round |
| TimeParser.ParseDecimalHours | src/main/kotlin/com/thanhnguyen/git/format/util/TimeParser.kt:47-56 | `W.Fh` and `W,Fh` are fractional hours, rounded down to whole minutes |
| TimeParser.ParseFallback | src/main/kotlin/com/thanhnguyen/git/format/util/TimeParser.kt:70-74 | text of no exact form is read through its first run of digits |
| TimeParser.ParseCleanNeedsDigit | src/main/kotlin/com/thanhnguyen/git/format/util/TimeParser.kt:24-84 | a normalised input without a digit gives nothing |
| TimeParser.ParseNeedsDigit | src/main/kotlin/com/thanhnguyen/git/format/util/TimeParser.kt:19-85 | an input without a digit gives nothing |
| TimeParser.Example30 | src/main/kotlin/com/thanhnguyen/git/format/util/TimeParser.kt:6 | `30` is 30 minutes |
| TimeParser.Example90m | src/main/kotlin/com/thanhnguyen/git/format/util/TimeParser.kt:7 | `90m` is 90 minutes |
| TimeParser.Example1h | src/main/kotlin/com/thanhnguyen/git/format/util/TimeParser.kt:8 | `1h` is 60 minutes |
| TimeParser.Example15h | src/main/kotlin/com/thanhnguyen/git/format/util/TimeParser.kt:9 | `1.5h` is 90 minutes |
| TimeParser.ExampleDigits | src/main/kotlin/com/thanhnguyen/git/format/util/TimeParser.kt:65-68 | the decimal text of any N up to `Int.MAX_VALUE` is N minutes |
| TimeParser.ExampleMinutes | src/main/kotlin/com/thanhnguyen/git/format/util/TimeParser.kt:27-30 | `Nm` is N minutes for every N up to `Int.MAX_VALUE` |
| TimeParser.ExampleHours | src/main/kotlin/com/thanhnguyen/git/format/util/TimeParser.kt:43-46 | `Nh` is 60·N minutes when that fits in an `Int` |
| TimeParser.ExampleDecimal | src/main/kotlin/com/thanhnguyen/git/format/util/TimeParser.kt:47-56 | `W.Fh` and `W,Fh` give the floor of 60·W.F |
| TimeParser.ExampleNoDigits | src/main/kotlin/com/thanhnguyen/git/format/util/TimeParser.kt:27-74 | `h`, `m` and `abc` give nothing |
| TimeParser.ExampleEmbedded | src/main/kotlin/com/thanhnguyen/git/format/util/TimeParser.kt:70-74 | `abc5def` is 5 minutes |
| TimeParser.ExampleDecimalMinutes | src/main/kotlin/com/thanhnguyen/git/format/util/TimeParser.kt:27-35 | `1.5m` is 1 minute: only hours take a fraction |
| TimeParser.FallbackExample | src/main/kotlin/com/thanhnguyen/git/format/util/TimeParser.kt:70-74 | a number inside other text is read as minutes |
| TimeParser.ParseEmbedded | src/main/kotlin/com/thanhnguyen/git/format/util/TimeParser.kt:70-74 | the first run of digits of text of no exact form is the duration |
| TimeParser.FormatMixedShape | src/main/kotlin/com/thanhnguyen/git/format/util/TimeParser.kt:96-100 | a duration of hours and minutes is written `HhMm` |
| TimeParser.FormatReadBack | src/main/kotlin/com/thanhnguyen/git/format/util/TimeParser.kt:92-102 | the independent reader gives back every non-negative duration from its formatted text |
| TimeParser.FormatInjective | src/main/kotlin/com/thanhnguyen/git/format/util/TimeParser.kt:92-102 | distinct non-negative durations are written differently |
| TimeParser.ParseFormattedMinutes | src/main/kotlin/com/thanhnguyen/git/format/util/TimeParser.kt:92-94 | the parser reads back a formatted duration under an hour |
| TimeParser.ParseFormattedHours | src/main/kotlin/com/thanhnguyen/git/format/util/TimeParser.kt:92-95 | the parser reads back a formatted whole number of hours |
| TimeParser.ParseFormattedMixed | src/main/kotlin/com/thanhnguyen/git/format/util/TimeParser.kt:10 | the parser reads `HhMm` (`1h30m` for 90) back as the hours alone |
| TimeParser.ParseFormattedNegative | src/main/kotlin/com/thanhnguyen/git/format/util/TimeParser.kt:92-94 | a negative duration is written `-Nm` and read back as N |
| TimeParser.ParseFormatted | src/main/kotlin/com/thanhnguyen/git/format/util/TimeParser.kt:19-102 | formatting then parsing gives the duration back exactly when it is non-negative and under an hour or a whole number of hours |
| JiraService.ExtractTicketKey | src/main/kotlin/com/thanhnguyen/git/format/service/JiraService.kt:240-244 | a key found is upper-case letters, `-` and digits, and occurs in the text |
| JiraService.ExtractSpec | src/main/kotlin/com/thanhnguyen/git/format/service/JiraService.kt:240-244 | no key exactly when `[A-Z]+-\d+` matches nowhere; otherwise the key is the longest match at the leftmost position that matches |
| JiraService.KeyEndDash | src/main/kotlin/com/thanhnguyen/git/format/service/JiraService.kt:242 | a match ends its run of capitals with `-` |
| JiraService.NoKeyWithoutLetterDash | src/main/kotlin/com/thanhnguyen/git/format/service/JiraService.kt:242-243 | text where no capital stands directly before a `-` has no key |
| JiraService.ExampleDigitCode | src/main/kotlin/com/thanhnguyen/git/format/service/JiraService.kt:242-243 | `AIP123-45` has no key: digits in the code break the pattern |
| JiraService.KeyInBrackets | src/main/kotlin/com/thanhnguyen/git/format/service/JiraService.kt:240-244 | `[CODE-N]` at the start gives `CODE-N`, whatever follows |
| JiraService.IssueUrl | src/main/kotlin/com/thanhnguyen/git/format/service/JiraService.kt:38 | every request URL starts with the configured Jira URL |
| JiraService.CommentOnTicket | src/main/kotlin/com/thanhnguyen/git/format/service/JiraService.kt:25-100 | no request unless Jira is configured; otherwise a POST carrying the pull-request link, which succeeds exactly on a 2xx status |
| JiraService.IsSuccessful | src/main/kotlin/com/thanhnguyen/git/format/service/JiraService.kt:89 | a call succeeds exactly on a status of the 2xx class |
| JiraService.WorkLogBody | src/main/kotlin/com/thanhnguyen/git/format/service/JiraService.kt:125-182 | seconds are the minutes times 60 in 32-bit `Int`; the link form carries the trimmed URL after `Pull Request: ` when it starts with `http`, otherwise the whole description |
| JiraService.LogWork | src/main/kotlin/com/thanhnguyen/git/format/service/JiraService.kt:105-210 | no request when Jira is not configured or the minutes are not positive; otherwise a POST of the work-log body, successful exactly on a 2xx status |
| JiraService.TicketExists | src/main/kotlin/com/thanhnguyen/git/format/service/JiraService.kt:215-235 | a GET of the issue URL when configured, successful only on status 200 |
| JiraService.Endpoints | src/main/kotlin/com/thanhnguyen/git/format/service/JiraService.kt:25-235 | comment, work log and lookup share the issue URL and add `/comment`, `/worklog` or nothing |
| JiraService.WorkLogSeconds | src/main/kotlin/com/thanhnguyen/git/format/service/JiraService.kt:125-182 | the seconds are 60 times the minutes while that fits in an `Int` |
| JiraService.WorkLogSecondsWrap | src/main/kotlin/com/thanhnguyen/git/format/service/JiraService.kt:125-182 | 35791395 minutes wrap around to -2147483596 seconds |
| JiraService.DialogWorkLogBody | src/main/kotlin/com/thanhnguyen/git/format/service/JiraService.kt:125-128 | with the dialog's description the link form is chosen exactly when the trimmed pull-request URL starts with `http`, and links that URL |
| JiraService.WorkLogBodyAfterMarker | src/main/kotlin/com/thanhnguyen/git/format/service/JiraService.kt:125-128 | after `Pull Request: ` the link form is chosen exactly when the trimmed URL starts with `http`, and links that URL; otherwise the whole description is the text |
| JiraService.WorkLogBodyNoMarker | src/main/kotlin/com/thanhnguyen/git/format/service/JiraService.kt:125-128 | without `Pull Request: ` the whole description, trimmed, is taken as the URL: the link form exactly when it starts with `http` |
| JiraService.StatusAgreement | src/main/kotlin/com/thanhnguyen/git/format/service/JiraService.kt:89-230 | a status that passes the lookup passes the comment; `201` passes the comment but not the lookup |
| GitHubService.RepoEnd | src/main/kotlin/com/thanhnguyen/git/format/service/GitHubService.kt:105-106 | the lazy repository group ends at the first position where the optional `.git`, the optional `/` and `$` match, and nowhere earlier |
| GitHubService.MatchAt | src/main/kotlin/com/thanhnguyen/git/format/service/GitHubService.kt:105-106 | a match gives a non-empty owner and repository without `/`, written after the prefix at that position |
| GitHubService.FindRepo | src/main/kotlin/com/thanhnguyen/git/format/service/GitHubService.kt:108-114 | the leftmost match gives an owner and repository the URL holds after the prefix |
| GitHubService.ParseRepositoryInfo | src/main/kotlin/com/thanhnguyen/git/format/service/GitHubService.kt:100-121 | owner and repository are non-empty, hold no `/`, and follow the HTTPS or SSH prefix in the URL; a URL with neither prefix gives nothing |
| GitHubService.TailOnlyAtEnd | src/main/kotlin/com/thanhnguyen/git/format/service/GitHubService.kt:105-106 | for a URL not ending in `/` or a line break, the tail matches only at the end or before a final `.git` |
| GitHubService.MatchRemote | src/main/kotlin/com/thanhnguyen/git/format/service/GitHubService.kt:105-106 | `prefix + owner + "/" + repo + ".git"` matches with exactly that owner and repository |
| GitHubService.ParseHttps | src/main/kotlin/com/thanhnguyen/git/format/service/GitHubService.kt:100-121 | `https://github.com/OWNER/REPO.git` gives OWNER and REPO |
| GitHubService.ParseSsh | src/main/kotlin/com/thanhnguyen/git/format/service/GitHubService.kt:100-121 | `git@github.com:OWNER/REPO.git` gives OWNER and REPO |
| GitHubService.ExtractPullRequestUrl | src/main/kotlin/com/thanhnguyen/git/format/service/GitHubService.kt:150-159 | a URL found is non-empty and holds no `"` |
| GitHubService.ExtractUrlMember | src/main/kotlin/com/thanhnguyen/git/format/service/GitHubService.kt:150-159 | a reply whose first `"` opens `"html_url":"URL"` gives URL |
| GitHubService.ResultOf | src/main/kotlin/com/thanhnguyen/git/format/service/GitHubService.kt:75-94 | success exactly on status 201, and then the URL read from the reply and no error; any failure carries an error and no URL |
| GitHubService.CreatePullRequest | src/main/kotlin/com/thanhnguyen/git/format/service/GitHubService.kt:28-95 | nothing is sent without a GitHub token, and the result is the not-configured error; otherwise a POST to `/repos/OWNER/REPO/pulls` whose fields are escaped by the chain as written and whose result follows the reply |
| GitHubService.RequestFieldsReadBack | src/main/kotlin/com/thanhnguyen/git/format/service/GitHubService.kt:43-56 | each field sent reads back, as a JSON string, as the value given, when no field holds a control character other than the five the chain escapes |
| GitHubService.Json | src/main/kotlin/com/thanhnguyen/git/format/service/GitHubService.kt:49-56 | the request document holds each of the four fields as the member of its name |
| GitHubService.RequestTitleReadBack | src/main/kotlin/com/thanhnguyen/git/format/service/GitHubService.kt:43-56 | the title sent decodes exactly when it holds no control character other than the five the chain escapes |
| GitHubService.ControlCharTitleSentRaw | src/main/kotlin/com/thanhnguyen/git/format/service/GitHubService.kt:43-56 | a title of U+0001 is sent raw and the sent text does not decode |
| GitHubService.ErrorsDistinct | src/main/kotlin/com/thanhnguyen/git/format/service/GitHubService.kt:83-93 | the existing-PR error is given exactly for 422; other statuses give `HTTP …` and exceptions `Exception: …` |
| GitHubEscape.ReplaceAllChar | src/main/kotlin/com/thanhnguyen/git/format/service/GitHubService.kt:165-172 | replacing a one-character string maps that character, everywhere it occurs |
| GitHubEscape.EscapeChar | src/main/kotlin/com/thanhnguyen/git/format/service/GitHubService.kt:165-172 | every character is written as at least one character |
| GitHubEscape.Escape | src/main/kotlin/com/thanhnguyen/git/format/service/GitHubService.kt:164-173 | the escaped text is never shorter than the input |
| GitHubEscape.EscapeChain | src/main/kotlin/com/thanhnguyen/git/format/service/GitHubService.kt:164-173 | the seven chained replacements, backslash first, equal escaping each character on its own: no escape is escaped again |
| GitHubEscape.ShortEscape | src/main/kotlin/com/thanhnguyen/git/format/service/GitHubService.kt:166-172 | exactly the eight JSON short escapes are recognised |
| GitHubEscape.UnescapeChar | src/main/kotlin/com/thanhnguyen/git/format/service/GitHubService.kt:164-173 | each character's escape reads back as that character, or fails for a raw control character |
| GitHubEscape.EscapeRoundTrip | src/main/kotlin/com/thanhnguyen/git/format/service/GitHubService.kt:164-173 | the escaped text reads back as the input exactly when the input holds no control character other than the five escaped ones |
| GitHubEscape.Unescape | src/main/kotlin/com/thanhnguyen/git/format/service/GitHubService.kt:164-173 | reading a JSON string back, the side of the escape the server runs, refuses raw quotes and control characters and never gives more characters than it reads |
| GitHubEscape.EscapeNoRawControl | src/main/kotlin/com/thanhnguyen/git/format/service/GitHubService.kt:166-172 | the output holds none of the escaped control characters raw |
| GitHubEscape.EscapeCharJson | src/main/kotlin/com/thanhnguyen/git/format/service/GitHubService.kt:164-173 | the corrected escape writes no character below U+0020 |
| GitHubEscape.EscapeJson | src/main/kotlin/com/thanhnguyen/git/format/service/GitHubService.kt:164-173 | the corrected escaped text holds no character below U+0020 |
| GitHubEscape.EscapeJsonRoundTrip | src/main/kotlin/com/thanhnguyen/git/format/service/GitHubService.kt:164-173 | the corrected escaped text always reads back as the input |
| GitHubEscape.EscapeJsonExtends | src/main/kotlin/com/thanhnguyen/git/format/service/GitHubService.kt:164-173 | the corrected escape agrees with the chain wherever the chain is already valid |
| GitHubEscape.ControlCharLeftRaw | src/main/kotlin/com/thanhnguyen/git/format/service/GitHubService.kt:164-173 | U+0001 passes through the chain raw and does not read back, while the corrected escape reads back |
| PullRequestTemplateService.Capitalize | src/main/kotlin/com/thanhnguyen/git/format/services/PullRequestTemplateService.kt:117-118 | a word keeps its length, its first character is upper-cased after lower-casing and every other character is lower-cased |
| PullRequestTemplateService.CapitalizeAll | src/main/kotlin/com/thanhnguyen/git/format/services/PullRequestTemplateService.kt:116-119 | each word of the list is capitalised in place |
| PullRequestTemplateService.FormatDisplayName | src/main/kotlin/com/thanhnguyen/git/format/services/PullRequestTemplateService.kt:115-120 | a display name never holds `_` |
| PullRequestTemplateService.CaseKeeps | src/main/kotlin/com/thanhnguyen/git/format/services/PullRequestTemplateService.kt:118 | capitalising a word never introduces a character that is not a letter |
| PullRequestTemplateService.DisplayNameWords | src/main/kotlin/com/thanhnguyen/git/format/services/PullRequestTemplateService.kt:115-120 | splitting the display name at spaces gives back the capitalised `_`-separated words, one more than the underscores |
| PullRequestTemplateService.DisplayNameExample | src/main/kotlin/com/thanhnguyen/git/format/services/PullRequestTemplateService.kt:115-120 | `bug_fix` is shown as `Bug Fix` |
| PullRequestTemplateService.TicketEnd | src/main/kotlin/com/thanhnguyen/git/format/services/PullRequestTemplateService.kt:31 | a reported end closes a word of `[A-Z]+\\d+-?` |
| PullRequestTemplateService.ScanTicket | src/main/kotlin/com/thanhnguyen/git/format/services/PullRequestTemplateService.kt:31 | a match of the ticket regex at a position is a bracketed ticket pattern there |
| PullRequestTemplateService.TicketFound | src/main/kotlin/com/thanhnguyen/git/format/services/PullRequestTemplateService.kt:122-134 | a found group is a ticket pattern and occurs in brackets in the text |
| PullRequestTemplateService.ExtractTicketPattern | src/main/kotlin/com/thanhnguyen/git/format/services/PullRequestTemplateService.kt:122-134 | the extracted pattern is a word of `[A-Z]+\\d+-?` written in brackets in the file's text |
| PullRequestTemplateService.ScanTicketAt | src/main/kotlin/com/thanhnguyen/git/format/services/PullRequestTemplateService.kt:31 | a bracketed ticket pattern at a position is what the regex matches there |
| PullRequestTemplateService.FindTicketAt | src/main/kotlin/com/thanhnguyen/git/format/services/PullRequestTemplateService.kt:125-129 | the first `[` that opens a ticket pattern gives that pattern |
| PullRequestTemplateService.TicketInBrackets | src/main/kotlin/com/thanhnguyen/git/format/services/PullRequestTemplateService.kt:128 | `[AIP698-]` after text without `[` gives `AIP698-`, and likewise for any pattern |
| PullRequestTemplateService.TicketWrittenAt | src/main/kotlin/com/thanhnguyen/git/format/services/PullRequestTemplateService.kt:125-129 | a ticket pattern written in brackets before any other `[` is the one extracted |
| PullRequestTemplateService.NoDigitNoTicket | src/main/kotlin/com/thanhnguyen/git/format/services/PullRequestTemplateService.kt:31 | text without digits has no ticket pattern |
| PullRequestTemplateService.TicketHasDigit | src/main/kotlin/com/thanhnguyen/git/format/services/PullRequestTemplateService.kt:31 | a bracketed ticket pattern puts a digit in the text |
| PullRequestTemplateService.FormatTicketNumber | src/main/kotlin/com/thanhnguyen/git/format/services/PullRequestTemplateService.kt:136-142 | the result is non-empty exactly when the template has a pattern and the number is not blank, and then it is the pattern and number in brackets |
| PullRequestDialog.FormattedTicketFound | src/main/kotlin/com/thanhnguyen/git/format/services/PullRequestTemplateService.kt:136-142 | for a pattern ending in `-` and a number of digits, the title reader finds the pattern followed by the number in the formatted ticket |
| PullRequestDialog.DashlessTicketNotFound | src/main/kotlin/com/thanhnguyen/git/format/services/PullRequestTemplateService.kt:136-142 | for a pattern without `-`, such as `AIP698`, the formatted ticket `[AIP69845]` holds no key the title reader finds |
| PullRequestDialog.NoDashNoTicket | src/main/kotlin/com/thanhnguyen/git/format/view/PullRequestDialog.kt:313-328 | every key the four patterns find holds a `-`, so a title without one yields no key |
| PullRequestTemplateService.TemplateOf | src/main/kotlin/com/thanhnguyen/git/format/services/PullRequestTemplateService.kt:48-55 | a `.md` file becomes a template named by the file without extension, shown by its display name, with no pattern when it cannot be read |
| PullRequestTemplateService.Collect | src/main/kotlin/com/thanhnguyen/git/format/services/PullRequestTemplateService.kt:48-57 | every `.md` regular file gives a template, and every template comes from one |
| PullRequestTemplateService.AvailableTemplates | src/main/kotlin/com/thanhnguyen/git/format/services/PullRequestTemplateService.kt:36-63 | the catalog is empty without a directory, sorted by display name, and a permutation of the collected templates |
| PullRequestTemplateService.DefaultTemplate | src/main/kotlin/com/thanhnguyen/git/format/services/PullRequestTemplateService.kt:147-149 | there is a default template exactly when the catalog is not empty, and it belongs to the catalog |
| PullRequestTemplateService.DefaultHasPlaceholders | src/main/kotlin/com/thanhnguyen/git/format/services/PullRequestTemplateService.kt:87-113 | the built-in body holds the title, estimate and actual placeholders |
| PullRequestTemplateService.FindEntry | src/main/kotlin/com/thanhnguyen/git/format/services/PullRequestTemplateService.kt:71-73 | a found entry is in the listing with that name, and none is found only when no entry has that name |
| PullRequestTemplateService.ReadTemplate | src/main/kotlin/com/thanhnguyen/git/format/services/PullRequestTemplateService.kt:68-85 | with no base path or no such file the built-in body is returned |
| PullRequestTemplateService.CatalogEntries | src/main/kotlin/com/thanhnguyen/git/format/services/PullRequestTemplateService.kt:36-63 | with distinct file names, the catalog has exactly one template per `.md` file and no two share a file name |
| PullRequestTemplateService.CollectDistinct | src/main/kotlin/com/thanhnguyen/git/format/services/PullRequestTemplateService.kt:48-57 | distinct file names give distinct templates |
| PullRequestTemplateService.CatalogStable | src/main/kotlin/com/thanhnguyen/git/format/services/PullRequestTemplateService.kt:62 | templates with equal display names keep their listing order |
| PullRequestTemplateService.DefaultTemplateLeast | src/main/kotlin/com/thanhnguyen/git/format/services/PullRequestTemplateService.kt:62-148 | the default template has the least display name of the catalog |
| PullRequestTemplateService.NoDirectoryNoTemplates | src/main/kotlin/com/thanhnguyen/git/format/services/PullRequestTemplateService.kt:40-149 | a missing directory gives no templates and no default |
| PullRequestTemplateService.ReadCatalogTemplate | src/main/kotlin/com/thanhnguyen/git/format/services/PullRequestTemplateService.kt:53-134 | reading a catalog template gives its file's text or the built-in body, and its pattern is the one found in that text |
| TemplateSetupDialog.NormalizeCode | src/main/kotlin/com/thanhnguyen/git/format/view/TemplateSetupDialog.kt:153 | the code is empty exactly when the typed text is blank, and never longer than it |
| TemplateSetupDialog.Validate | src/main/kotlin/com/thanhnguyen/git/format/view/TemplateSetupDialog.kt:133-145 | a blank code is refused with the blank-code message, any other code passes |
| TemplateSetupDialog.TemplateFiles | src/main/kotlin/com/thanhnguyen/git/format/view/TemplateSetupDialog.kt:166-210 | the defaults write `bug_fix.md` then `feature_request.md`, otherwise only `pull_request_template.md`; every name ends in `.md` |
| TemplateSetupDialog.OkAction | src/main/kotlin/com/thanhnguyen/git/format/view/TemplateSetupDialog.kt:147-164 | OK is refused exactly for a blank code, and succeeds exactly when there is also a base path and no write error, recording the normalised code and writing its files |
| TemplateSetupDialog.NormalizeTwice | src/main/kotlin/com/thanhnguyen/git/format/view/TemplateSetupDialog.kt:153 | normalising a normalised code changes nothing |
| TemplateSetupDialog.BugFixBody | src/main/kotlin/com/thanhnguyen/git/format/view/TemplateSetupDialog.kt:178-182 | the `bug_fix.md` body, also written as `pull_request_template.md`, holds the `[CODE-]` token and the Jira link for the code |
| TemplateSetupDialog.FeatureBody | src/main/kotlin/com/thanhnguyen/git/format/view/TemplateSetupDialog.kt:188-194 | the `feature_request.md` body holds the `[CODE-]` token and the Jira link for the code |
| TemplateSetupDialog.BodiesGivePrefix | src/main/kotlin/com/thanhnguyen/git/format/view/TemplateSetupDialog.kt:178-205 | a code of letters then digits is what the prefix reader finds in each generated body |
| TemplateSetupDialog.SetupThenPrefix | src/main/kotlin/com/thanhnguyen/git/format/view/TemplateSetupDialog.kt:176-197 | after the default templates are written, the commit prefix is the normalised code |
| TemplateSetupDialog.BasicSetupPrefixFallback | src/main/kotlin/com/thanhnguyen/git/format/view/TemplateSetupDialog.kt:199-209 | the basic setup writes neither file the prefix is read from, so the prefix falls back to `AIP` |
| TemplateSetupDialog.LettersOnlyCodeNoTicketPattern | src/main/kotlin/com/thanhnguyen/git/format/view/TemplateSetupDialog.kt:178-205 | a code without digits gives bodies in which the catalog finds no ticket pattern |
| GitBranchService.MergeBranches | src/main/kotlin/com/thanhnguyen/git/format/service/GitBranchService.kt:54-67 | the local branches come first in order, and each name occurs as often as locally, once if only remote, never otherwise |
| GitBranchService.AllBranchesFromRepo | src/main/kotlin/com/thanhnguyen/git/format/service/GitBranchService.kt:53-70 | the merged names, sorted, with the same counts |
| GitBranchService.RemoteBranchesFromRepo | src/main/kotlin/com/thanhnguyen/git/format/service/GitBranchService.kt:72-76 | the remote names sorted, as a permutation that keeps duplicates |
| GitBranchService.AllBranches | src/main/kotlin/com/thanhnguyen/git/format/service/GitBranchService.kt:11-23 | empty when there is no repository or the manager throws, otherwise the first repository's merged names, sorted |
| GitBranchService.RemoteBranches | src/main/kotlin/com/thanhnguyen/git/format/service/GitBranchService.kt:25-37 | empty when there is no repository or the manager throws, otherwise a sorted permutation of the first repository's remote names |
| GitBranchService.CurrentBranch | src/main/kotlin/com/thanhnguyen/git/format/service/GitBranchService.kt:39-51 | a non-empty result is the first repository's current branch, and that branch is returned whenever there is one |
| GitBranchService.AllBranchesOnce | src/main/kotlin/com/thanhnguyen/git/format/service/GitBranchService.kt:53-70 | with distinct local names, every local or remote name occurs exactly once in the list |
| GitBranchService.MergeAddsRemotes | src/main/kotlin/com/thanhnguyen/git/format/service/GitBranchService.kt:61-67 | after the locals, the merged list adds only remote names that are not local |
| PullRequestTimes.TimeText | src/main/kotlin/com/thanhnguyen/git/format/view/PullRequestDialog.kt:344-350 | the text is blank exactly when the field is |
| PullRequestTimes.TimeTextCases | src/main/kotlin/com/thanhnguyen/git/format/view/PullRequestDialog.kt:344-350 | a filled-in field gives the validated duration, or the field with `m` appended when it does not validate |
| PullRequestTimes.TimeTextKeeps | src/main/kotlin/com/thanhnguyen/git/format/view/PullRequestDialog.kt:344-350 | the time text adds no line break, `$`, backslash or `#` that the field does not hold |
| PullRequestTimes.FillSection | src/main/kotlin/com/thanhnguyen/git/format/view/PullRequestDialog.kt:353-366 | a blank duration, or a template without the heading in any case, is left unchanged |
| PullRequestTimes.InsertEstimate | src/main/kotlin/com/thanhnguyen/git/format/view/PullRequestDialog.kt:369-381 | a template that already mentions the estimate heading, or a blank estimate, is left unchanged |
| PullRequestTimes.InsertActual | src/main/kotlin/com/thanhnguyen/git/format/view/PullRequestDialog.kt:383-392 | a template that already mentions the actual-time heading, or a blank actual time, is left unchanged |
| PullRequestTimes.EnhanceTimes | src/main/kotlin/com/thanhnguyen/git/format/view/PullRequestDialog.kt:343-394 | two blank fields leave the template unchanged |
| PullRequestTimes.SectionsFilled | src/main/kotlin/com/thanhnguyen/git/format/view/PullRequestDialog.kt:352-366 | in a template with one estimate and one actual-time heading line, exactly those two lines are rewritten and no line is added |
| PullRequestTimes.SectionsBeforeCheckList | src/main/kotlin/com/thanhnguyen/git/format/view/PullRequestDialog.kt:368-392 | without time headings, the estimate line and then the actual-time line are inserted just before the check-list line |
| PullRequestTimes.SectionsAppended | src/main/kotlin/com/thanhnguyen/git/format/view/PullRequestDialog.kt:377-391 | without time headings or check list, the estimate line and then the actual-time line are appended at the end |
| PullRequestTimes.DollarInEstimateThrows | src/main/kotlin/com/thanhnguyen/git/format/view/PullRequestDialog.kt:344-358 | an estimate without a digit is written as typed with `m` appended, and a `$` in it then makes the fill throw |
| PullRequestTimes.DollarInEstimateThrowsIn | src/main/kotlin/com/thanhnguyen/git/format/view/PullRequestDialog.kt:353-358 | a `$` not followed by a digit in the estimate text makes the fill throw, for any headings that start with `#` |
| PullRequestTimes.NoDigitKeptWithUnit | src/main/kotlin/com/thanhnguyen/git/format/view/PullRequestDialog.kt:344-346 | a filled-in field without a digit does not validate and is written with `m` appended |
| PullRequestTimes.FillTimes | src/main/kotlin/com/thanhnguyen/git/format/view/PullRequestDialog.kt:352-394 | blank time texts leave the template unchanged |
| PullRequestTimes.SectionsFilledIn | src/main/kotlin/com/thanhnguyen/git/format/view/PullRequestDialog.kt:352-366 | for any well-formed headings and clean time texts, a template with one estimate and one actual-time heading line has exactly those two lines rewritten |
| PullRequestTimes.SectionsBeforeCheckListIn | src/main/kotlin/com/thanhnguyen/git/format/view/PullRequestDialog.kt:368-392 | for any well-formed headings, without time headings the two time lines are inserted, estimate first, just before the check-list line |
| PullRequestTimes.EstimateBeforeActualIn | src/main/kotlin/com/thanhnguyen/git/format/view/PullRequestDialog.kt:360-373 | for any well-formed headings, the actual-time line is refilled and the estimate line inserted just before it |
| PullRequestTimes.SectionsAppendedIn | src/main/kotlin/com/thanhnguyen/git/format/view/PullRequestDialog.kt:377-391 | for any well-formed headings, without any of the three headings the two time lines are appended, estimate first |
| PullRequestTimes.EstimateLostBeforeOtherCase | src/main/kotlin/com/thanhnguyen/git/format/view/PullRequestDialog.kt:369-373 | when the actual-time heading is spelt in another case, the estimate is not inserted at all |
| PullRequestTimes.EstimateLineNotHeading | src/main/kotlin/com/thanhnguyen/git/format/view/PullRequestDialog.kt:355-356 | a written estimate line, `# Estimate time: …`, does not hold the case-sensitive estimate heading |
| PullRequestTimes.ReRenderAddsNoLine | src/main/kotlin/com/thanhnguyen/git/format/view/PullRequestDialog.kt:352-392 | rendering an already rendered body again adds no line: the estimate line is kept and only the actual-time line is refilled |
| PullRequestDialog.ScanTicket | src/main/kotlin/com/thanhnguyen/git/format/view/PullRequestDialog.kt:313-318 | the group patterns of the key patterns read a word of `[A-Z]+\\d*-\\d+` |
| PullRequestDialog.TicketGroup | src/main/kotlin/com/thanhnguyen/git/format/view/PullRequestDialog.kt:313-328 | each key pattern's group is a ticket taken from the text |
| PullRequestDialog.FirstMatch | src/main/kotlin/com/thanhnguyen/git/format/view/PullRequestDialog.kt:321-328 | the key is the group of some pattern that matches, and there is none exactly when no pattern matches |
| PullRequestDialog.FindTicket | src/main/kotlin/com/thanhnguyen/git/format/view/PullRequestDialog.kt:313-328 | a key read from a title is a ticket word occurring in the title |
| PullRequestDialog.BracketedTicketFirst | src/main/kotlin/com/thanhnguyen/git/format/view/PullRequestDialog.kt:313-328 | a ticket in the title's only brackets is the key, even after an unbracketed ticket |
| PullRequestDialog.TokensFrom | src/main/kotlin/com/thanhnguyen/git/format/view/PullRequestDialog.kt:332 | every token found is a project code written as `[CODE-]` in the template |
| PullRequestDialog.Distinct | src/main/kotlin/com/thanhnguyen/git/format/view/PullRequestDialog.kt:332 | `distinct()` keeps exactly the elements of the list, each once |
| PullRequestDialog.DistinctKeepsOrder | src/main/kotlin/com/thanhnguyen/git/format/view/PullRequestDialog.kt:332 | `distinct()` keeps first occurrences in the order of the input |
| PullRequestDialog.RewriteTicket | src/main/kotlin/com/thanhnguyen/git/format/view/PullRequestDialog.kt:310-341 | without a key in the title, or without a `[` or `b` in the template, the ticket step leaves the template unchanged |
| PullRequestDialog.KeyParts | src/main/kotlin/com/thanhnguyen/git/format/view/PullRequestDialog.kt:331 | a key is its project code, a dash and its number, with letters and digits before the dash and digits after it |
| PullRequestDialog.RewriteOneToken | src/main/kotlin/com/thanhnguyen/git/format/view/PullRequestDialog.kt:330-341 | a template with one `[CODE-]` token and one `browse/CODE-` link gets the whole key in both places, whatever its own code |
| PullRequestDialog.ReRenderRepeatsNumber | src/main/kotlin/com/thanhnguyen/git/format/view/PullRequestDialog.kt:339-340 | a link that already carries the key gets the key's number appended again, so `browse/AIP123-45` becomes `browse/AIP123-4545` |
| PullRequestDialog.FillsSeparable | src/main/kotlin/com/thanhnguyen/git/format/view/PullRequestDialog.kt:293-298 | the six placeholders are told apart by the first letter of their names |
| PullRequestDialog.PlaceholderFilled | src/main/kotlin/com/thanhnguyen/git/format/view/PullRequestDialog.kt:293-298 | each placeholder, in lower or upper case, is replaced by its input and the text around it is kept |
| PullRequestDialog.Substitute | src/main/kotlin/com/thanhnguyen/git/format/view/PullRequestDialog.kt:292-298 | a template without braces comes through the six replacements unchanged |
| PullRequestDialog.DefaultLines | src/main/kotlin/com/thanhnguyen/git/format/view/PullRequestDialog.kt:396-419 | the fixed body has six lines |
| PullRequestDialog.DefaultContent | src/main/kotlin/com/thanhnguyen/git/format/view/PullRequestDialog.kt:396-419 | split at line breaks, the fixed body gives back its six lines: heading, ticket link, estimate, actual time, check list and check item |
| PullRequestDialog.FormatContent | src/main/kotlin/com/thanhnguyen/git/format/view/PullRequestDialog.kt:284-308 | the fixed body is used when nothing is selected or no template is listed, and any other result is the enhanced substitution of the selected template |
| PullRequestDialog.Enhance | src/main/kotlin/com/thanhnguyen/git/format/view/PullRequestDialog.kt:310-394 | a template comes back unchanged from the ticket and time steps when both times are blank and either the title has no key or the template has no `[` or `b` |
| PullRequestDialog.DigitCodeOnlyInTemplate | src/main/kotlin/com/thanhnguyen/git/format/view/PullRequestDialog.kt:313-328 | a key whose project code holds digits is found for the template, but the fixed body's key pattern does not read it |
| PullRequestDialog.DollarFallsBack | src/main/kotlin/com/thanhnguyen/git/format/view/PullRequestDialog.kt:288-304 | an estimate without a digit but with a `$` makes rendering of a template with an estimate heading throw, so the fixed body is used |
| PullRequestDialog.JiraKey | src/main/kotlin/com/thanhnguyen/git/format/view/PullRequestDialog.kt:565-585 | the key comes from the title or else the branch, and there is none exactly when neither holds a ticket |
| PullRequestDialog.LoggedMinutes | src/main/kotlin/com/thanhnguyen/git/format/view/PullRequestDialog.kt:591-595 | the minutes logged are positive and exist exactly when the actual time is not blank and parses to a positive duration |
| PullRequestDialog.HandleJira | src/main/kotlin/com/thanhnguyen/git/format/view/PullRequestDialog.kt:553-605 | nothing happens unless Jira is configured; a comment with the link is posted exactly when there is a key, and work is logged exactly when there is also a positive duration |
| PullRequestDialog.TitleKeyWins | src/main/kotlin/com/thanhnguyen/git/format/view/PullRequestDialog.kt:567-585 | a ticket in the title's only brackets is the key, whatever the branch name holds |
| PullRequestDialog.LoggedTimeShown | src/main/kotlin/com/thanhnguyen/git/format/view/PullRequestDialog.kt:591-595 | the logged minutes are the duration the fixed body shows for the actual time |
| PullRequestDialog.WorkLogOfDialog | src/main/kotlin/com/thanhnguyen/git/format/view/PullRequestDialog.kt:595-601 | the work log carries sixty seconds per minute, and a link exactly when the trimmed URL starts with `http` |
| TemplateSetupDialog.GeneratedBodiesAppendTimes | src/main/kotlin/com/thanhnguyen/git/format/view/TemplateSetupDialog.kt:176-209 | a generated body, whose check list is spelt `# Checklist`, gets the estimate and actual-time lines appended at its end instead of before the check list |
| RegexReplace.Parse | src/main/kotlin/com/thanhnguyen/git/format/view/PullRequestDialog.kt:356-387 | every group reference a replacement string is read to holds is a group the regex has |
| RegexReplace.ExpandPlain | src/main/kotlin/com/thanhnguyen/git/format/view/PullRequestDialog.kt:356-364 | a replacement without `$` or backslash stands for itself |
| RegexReplace.ExpandInsert | src/main/kotlin/com/thanhnguyen/git/format/view/PullRequestDialog.kt:373-387 | the insertion replacement `x + "\\n$1"` writes `x`, a line break and the matched heading line |
| RegexReplace.DollarWithoutDigitThrows | src/main/kotlin/com/thanhnguyen/git/format/view/PullRequestDialog.kt:356-387 | a `$` not followed by a digit makes the replacement throw |
| RegexReplace.TrailingBackslashThrows | src/main/kotlin/com/thanhnguyen/git/format/view/PullRequestDialog.kt:356-387 | a trailing backslash makes the replacement throw |
| RegexReplace.ReplaceLinesByLines | src/main/kotlin/com/thanhnguyen/git/format/view/PullRequestDialog.kt:356-387 | a `lit.*` replacement changes nothing when `lit` does not occur, throws exactly when the replacement string is malformed, and otherwise rewrites line by line |
| RegexReplace.ReplaceLinesJoin | src/main/kotlin/com/thanhnguyen/git/format/view/PullRequestDialog.kt:356-387 | on lines joined by `\\n`, the replacement rewrites exactly the lines that contain the heading |
| Sorting.SortBySorted | src/main/kotlin/com/thanhnguyen/git/format/services/PullRequestTemplateService.kt:62 | `sortedBy` gives its input in key order, as a permutation |
| Sorting.SortByStable | src/main/kotlin/com/thanhnguyen/git/format/services/PullRequestTemplateService.kt:62 | `sortedBy` keeps the order of elements whose keys are equal |
| Sorting.SortByDistinct | src/main/kotlin/com/thanhnguyen/git/format/service/GitBranchService.kt:69 | sorting keeps distinct elements distinct |
| Text.JoinSplit | src/main/kotlin/com/thanhnguyen/git/format/services/PullRequestTemplateService.kt:116-119 | joining the pieces of a split with the separator gives back the text |
| Text.SplitJoin | src/main/kotlin/com/thanhnguyen/git/format/services/PullRequestTemplateService.kt:116-119 | splitting pieces joined by a separator they do not hold gives back the pieces |
| Text.SplitCount | src/main/kotlin/com/thanhnguyen/git/format/services/PullRequestTemplateService.kt:116 | a split gives one piece more than there are separators |
| TimeParser.Example25h | src/main/kotlin/com/thanhnguyen/git/format/util/TimeParser.kt:9 | `2,5h` is 150 minutes |
| TimeParser.ExamplesDisplay | src/main/kotlin/com/thanhnguyen/git/format/util/TimeParser.kt:129-136 | each listed example shows as its stated display form, `90m` as `1h30m` and `2,5h` as `2h30m` |
| TimeParser.FormatExamples | src/main/kotlin/com/thanhnguyen/git/format/util/TimeParser.kt:92-102 | 30, 60, 90 and 150 minutes format as `30m`, `1h`, `1h30m` and `2h30m` |
| TimeParser.ZeroValidNotDisplayed | src/main/kotlin/com/thanhnguyen/git/format/util/TimeParser.kt:109-123 | `0` is a valid duration but has no display form |
| TimeParser.IsValid | src/main/kotlin/com/thanhnguyen/git/format/util/TimeParser.kt:121-123 | a valid duration holds at least one digit |
| PullRequestTimes.EstimateBeforeActual | src/main/kotlin/com/thanhnguyen/git/format/view/PullRequestDialog.kt:360-373 | with an actual-time heading line but no estimate heading, the actual-time line is refilled and the estimate line inserted just before it, and nothing else changes |

## Left out

- User interface: the Swing and IntelliJ dialog code is left out, being layout and event wiring rather than logic. This covers all of `GitSettingsConfigurable.kt` and `CommitDialog.kt`, the two actions, and the dialog plumbing of `PullRequestDialog.kt` and `TemplateSetupDialog.kt`. It includes listeners, focus handling, validation banners, the clipboard, URL opening and the live preview text of `updatePreview`.
- Network: every `HttpClient` call is replaced by the response it would give, passed in as a parameter. The Jira JSON bodies interpolate the URL and description unescaped, so the model claims nothing about their well-formedness.
- File system and processes: directory listings and file contents are parameters. Creating directories, writing files and the `git log` subprocess of the pull-request action are not modelled.
- Concurrency: background tasks, `invokeLater` and the timer refresh chains are left out; the model is sequential.
- Logging and notifications are left out, because they change no result.
- Decimal hours: the model uses an exact rational floor in place of a `Double` multiplied by 60 and truncated. An input such as `2.05h` can therefore come out one minute above what the plugin computes.
- Unicode: digits and case are ASCII only. `trim` and `isBlank` use Kotlin's Unicode `isWhitespace`, and `\s` in the regular expressions is Java's ASCII class. `String.compareTo` compares code units, and the model compares characters.
- `HeaderTest.kt` and `GitConstant` are not part of this model: the header pattern it tests is defined in neither.
- Credential storage: `PasswordSafe` is a finite map from key to secret.
- The example strings returned by `getExamples` are modelled only for the two parsing claims made about them, not as text shown to the user.
- The sequencing of `createPullRequestWithJiraIntegration` (`PullRequestDialog.kt:492-550`) is reduced to its decisions: the body is rendered, the request is sent, and on success the Jira follow-up runs. Repository lookup, the preview and the notifications are left out.
- GitHubEscape.Unescape: refuses a `\u` escape naming a surrogate, because surrogate pairs are not modelled.
- Branches are reduced to their names, which is all the plugin reads from them.
- `checkRepositoryAccess` (`GitHubService.kt:126-148`) has no caller in the plugin and is not modelled.
- PullRequestDialog.PlaceholderFilled: states the substitution for one placeholder occurrence between brace-free text, not for a template with many placeholders at once.
- PullRequestDialog.RewriteOneToken: covers a template with one `[X-]` token and one `browse/X-` link stem, not the general claim that no `[X-]` token survives the rewrite.
- PullRequestTimes.EstimateBeforeActual: covers a body with a single actual-time line; `Regex.replace` would insert an estimate line before every one.
- PullRequestTimes.SectionsAppended: requires an estimate field free of `#`. PullRequestTimes.SectionsFilled, PullRequestTimes.SectionsBeforeCheckList, PullRequestTimes.EstimateBeforeActual and PullRequestTimes.ReRenderAddsNoLine also require fields free of `$`, `\` and line breaks. The time text then has none of these either (PullRequestTimes.TimeTextKeeps). Fields that hold them but normalise to a clean duration are not covered. The lemmas ending in `In` state the same for any time texts free of these characters.
- PullRequestTimes.DollarInEstimateThrows: covers estimates without a digit. An estimate with a digit is read by its first number, and its `$` is dropped. PullRequestTimes.DollarInEstimateThrowsIn states the throw for any estimate text.
- PullRequestDialog.DollarFallsBack: covers estimates without a digit, for the same reason.

## Findings

| source | as written | input that shows it | evidently intended | confidence | as-written member | corrected member |
|---|---|---|---|---|---|---|
| src/main/kotlin/com/thanhnguyen/git/format/service/GitHubService.kt:164-173 | `escapeJsonString` escapes only `\`, `"`, backspace, tab, newline, form feed and carriage return, and leaves the other control characters U+0000 to U+001F raw. Section 7 of RFC 8259 forbids them raw in a JSON string. | a pull-request body holding U+0001 | every control character written as a `\u00XX` escape, so that decoding the escaped text gives back the input | not executed | GitHubEscape.ControlCharLeftRaw | GitHubEscape.EscapeJsonRoundTrip |

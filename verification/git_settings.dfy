/** `GitSettings`: the plugin's settings service.  The persisted record
    holds only the default base branch; the GitHub token and the Jira URL,
    e-mail and API token live in the IDE's password safe, which is modelled
    here as a finite map from credential to stored text (an absent key is
    `getPassword` returning `null`). */
module GitSettings {
  import opened Text
  import GitSettingsState

  /** The four password-safe entries the settings use. */
  datatype Credential = GitHubTokenEntry | JiraTokenEntry | JiraUrlEntry | JiraEmailEntry

  type Store = map<Credential, string>

  datatype Settings = Settings(state: GitSettingsState.State, store: Store)

  /** The Jira site used when none is stored. */
  const DefaultJiraUrl: string := "https://apero.atlassian.net/"

  /** The entries a blank value removes: every one except the Jira URL. */
  predicate Removable(c: Credential) {
    c != JiraUrlEntry
  }

  /** The other entries of two stores agree. */
  predicate SameExcept(a: Store, b: Store, c: Credential) {
    forall d :: d != c ==> (d in a <==> d in b) && (d in a ==> a[d] == b[d])
  }

  // ---------------------------------------------------------------------
  // Credentials

  /** `getPassword(...) ?: ""` */
  function Secret(s: Settings, c: Credential): (r: string)
    ensures c in s.store ==> r == s.store[c]
    ensures c !in s.store ==> r == ""
  {
    if c in s.store then s.store[c] else ""
  }

  /** The setter of a removable entry: a blank value clears it
      (`setPassword(..., null)`), any other value is stored as it is. */
  function SetSecret(s: Settings, c: Credential, v: string): (r: Settings)
    requires Removable(c)
    ensures r.state == s.state
    ensures IsBlank(v) ==> c !in r.store
    ensures !IsBlank(v) ==> c in r.store && r.store[c] == v
    ensures SameExcept(r.store, s.store, c)
  {
    if IsBlank(v) then s.(store := s.store - {c}) else s.(store := s.store[c := v])
  }

  /** The token getter: the stored value, the empty string when none is
      stored. */
  function GitHubToken(s: Settings): (r: string)
    ensures GitHubTokenEntry in s.store ==> r == s.store[GitHubTokenEntry]
    ensures GitHubTokenEntry !in s.store ==> r == ""
  {
    Secret(s, GitHubTokenEntry)
  }

  function JiraEmail(s: Settings): (r: string)
    ensures JiraEmailEntry in s.store ==> r == s.store[JiraEmailEntry]
    ensures JiraEmailEntry !in s.store ==> r == ""
  {
    Secret(s, JiraEmailEntry)
  }

  function JiraApiToken(s: Settings): (r: string)
    ensures JiraTokenEntry in s.store ==> r == s.store[JiraTokenEntry]
    ensures JiraTokenEntry !in s.store ==> r == ""
  {
    Secret(s, JiraTokenEntry)
  }

  /** The `jiraUrl` getter: the default replaces an absent or blank entry. */
  function JiraUrl(s: Settings): (r: string)
    ensures !IsBlank(r)
    ensures JiraUrlEntry in s.store && !IsBlank(s.store[JiraUrlEntry]) ==> r == s.store[JiraUrlEntry]
    ensures JiraUrlEntry !in s.store || IsBlank(s.store[JiraUrlEntry]) ==> r == DefaultJiraUrl
  {
    assert DefaultJiraUrl[0] == 'h';
    if JiraUrlEntry in s.store && !IsBlank(s.store[JiraUrlEntry]) then s.store[JiraUrlEntry]
    else DefaultJiraUrl
  }

  /** The `jiraUrl` setter: a blank value stores the default instead. */
  function SetJiraUrl(s: Settings, v: string): (r: Settings)
    ensures r.state == s.state
    ensures JiraUrlEntry in r.store && !IsBlank(r.store[JiraUrlEntry])
    ensures r.store[JiraUrlEntry] == if IsBlank(v) then DefaultJiraUrl else v
    ensures SameExcept(r.store, s.store, JiraUrlEntry)
  {
    assert DefaultJiraUrl[0] == 'h';
    s.(store := s.store[JiraUrlEntry := if IsBlank(v) then DefaultJiraUrl else v])
  }

  function DefaultBaseBranch(s: Settings): string {
    s.state.defaultBaseBranch
  }

  function SetDefaultBaseBranch(s: Settings, v: string): (r: Settings)
    ensures r.store == s.store
    ensures DefaultBaseBranch(r) == v
  {
    s.(state := s.state.(defaultBaseBranch := v))
  }

  // ---------------------------------------------------------------------
  // Configuration checks

  /** GitHub is configured once a non-blank token is stored. */
  predicate IsGitHubConfigured(s: Settings)
    ensures IsGitHubConfigured(s) <==> GitHubTokenEntry in s.store && !IsBlank(s.store[GitHubTokenEntry])
  {
    !IsBlank(GitHubToken(s))
  }

  /** Jira is configured exactly when e-mail and API token are non-blank:
      the URL never is. */
  predicate IsJiraConfigured(s: Settings)
    ensures IsJiraConfigured(s) <==> !IsBlank(JiraEmail(s)) && !IsBlank(JiraApiToken(s))
  {
    !IsBlank(JiraUrl(s)) && !IsBlank(JiraEmail(s)) && !IsBlank(JiraApiToken(s))
  }

  // ---------------------------------------------------------------------
  // Persistence

  /** `loadState`: only the default base branch is taken from the loaded
      record. */
  function LoadState(s: Settings, loaded: GitSettingsState.State): (r: Settings)
    ensures r.store == s.store
    ensures DefaultBaseBranch(r) == loaded.defaultBaseBranch
    ensures r.state == s.state.(defaultBaseBranch := loaded.defaultBaseBranch)
  {
    s.(state := s.state.(defaultBaseBranch := loaded.defaultBaseBranch))
  }

  /** `resetToDefaults`: the record is reset and all four entries cleared. */
  function ResetToDefaults(s: Settings): (r: Settings)
    ensures r.state.IsDefault()
    ensures forall c :: c !in r.store
  {
    Settings(GitSettingsState.ResetToDefaults(s.state), map[])
  }

  // ---------------------------------------------------------------------
  // Properties

  /** Reading a removable entry after setting it gives the value back, or
      `""` for a blank value; the other entries read as before. */
  lemma SetThenGet(s: Settings, c: Credential, v: string, d: Credential)
    requires Removable(c)
    ensures Secret(SetSecret(s, c, v), c) == if IsBlank(v) then "" else v
    ensures d != c ==> Secret(SetSecret(s, c, v), d) == Secret(s, d)
    ensures JiraUrl(SetSecret(s, c, v)) == JiraUrl(s)
  {
  }

  /** Reading the Jira URL after setting it gives the value back, or the
      default for a blank value; it is never blank. */
  lemma SetJiraUrlThenGet(s: Settings, v: string)
    ensures JiraUrl(SetJiraUrl(s, v)) == if IsBlank(v) then DefaultJiraUrl else v
    ensures forall c :: c != JiraUrlEntry ==> Secret(SetJiraUrl(s, v), c) == Secret(s, c)
  {
  }

  /** After a reset nothing is configured, the URL reads as the default and
      the base branch is `develop`. */
  lemma ResetUnconfigures(s: Settings)
    ensures !IsGitHubConfigured(ResetToDefaults(s))
    ensures !IsJiraConfigured(ResetToDefaults(s))
    ensures JiraUrl(ResetToDefaults(s)) == DefaultJiraUrl
    ensures DefaultBaseBranch(ResetToDefaults(s)) == GitSettingsState.DefaultBranch
  {
    var r := ResetToDefaults(s);
    assert GitHubToken(r) == "" && JiraEmail(r) == "";
  }

  /** Loading a persisted record changes no credential. */
  lemma LoadKeepsCredentials(s: Settings, loaded: GitSettingsState.State, c: Credential)
    ensures Secret(LoadState(s, loaded), c) == Secret(s, c)
    ensures JiraUrl(LoadState(s, loaded)) == JiraUrl(s)
    ensures IsGitHubConfigured(LoadState(s, loaded)) == IsGitHubConfigured(s)
    ensures IsJiraConfigured(LoadState(s, loaded)) == IsJiraConfigured(s)
  {
  }
}

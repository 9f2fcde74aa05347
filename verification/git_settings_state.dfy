/** `GitSettingsState`: the persisted settings record, with its defaults. */
module GitSettingsState {

  /** The settings-format version a fresh state carries. */
  const CurrentVersion: int := 3

  /** The branch pull requests target by default. */
  const DefaultBranch: string := "develop"

  datatype State = State(
    settingsVersion: int,
    githubToken: string,
    jiraUrl: string,
    jiraEmail: string,
    jiraApiToken: string,
    defaultBaseBranch: string)
  {
    /** Every field holds its default value. */
    predicate IsDefault() {
      && settingsVersion == CurrentVersion
      && githubToken == "" && jiraUrl == "" && jiraEmail == "" && jiraApiToken == ""
      && defaultBaseBranch == DefaultBranch
    }
  }

  /** `GitSettingsState()`: the field initialisers. */
  function Fresh(): (s: State)
    ensures s.IsDefault()
  {
    State(CurrentVersion, "", "", "", "", DefaultBranch)
  }

  /** `resetToDefaults`: assigns every field its default. */
  function ResetToDefaults(s: State): (r: State)
    ensures r.IsDefault()
  {
    s.(githubToken := "", jiraUrl := "", jiraEmail := "", jiraApiToken := "",
       defaultBaseBranch := DefaultBranch, settingsVersion := CurrentVersion)
  }

  /** Only one state has every field at its default. */
  lemma DefaultIsUnique(a: State, b: State)
    requires a.IsDefault() && b.IsDefault()
    ensures a == b
  {
  }

  /** A reset state is a fresh one, and resetting twice is resetting once. */
  lemma ResetIsFresh(s: State)
    ensures ResetToDefaults(s) == Fresh()
    ensures ResetToDefaults(ResetToDefaults(s)) == ResetToDefaults(s)
  {
    DefaultIsUnique(ResetToDefaults(s), Fresh());
    DefaultIsUnique(ResetToDefaults(ResetToDefaults(s)), Fresh());
  }
}

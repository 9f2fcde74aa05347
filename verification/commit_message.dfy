/** `CommitMessage`: the commit-message record and its one-line header. */
module CommitMessage {
  import opened Wrappers
  import opened Text
  import JiraService

  /** The project code a fresh message carries. */
  const DefaultPrefix: string := "AIP"

  /** The placeholders a blank field shows as. */
  const IssuePlaceholder: string := "{issue_number}"
  const DescriptionPlaceholder: string := "{description}"

  datatype Message = Message(issueNumber: string, description: string, projectPrefix: string)

  /** `CommitMessage()`: both fields empty, the default prefix. */
  function Fresh(): (m: Message)
    ensures m.issueNumber == "" && m.description == "" && m.projectPrefix == DefaultPrefix
  {
    Message("", "", DefaultPrefix)
  }

  /** A blank field is shown as its placeholder, any other value verbatim. */
  function OrPlaceholder(v: string, placeholder: string): (r: string)
    ensures IsBlank(v) ==> r == placeholder
    ensures !IsBlank(v) ==> r == v
  {
    if IsBlank(v) then placeholder else v
  }

  /** `formatCommitMessage`: `[PREFIX-ISSUE] DESCRIPTION`. */
  function Format(m: Message): (r: string)
    ensures StartsWith(r, "[" + m.projectPrefix + "-")
  {
    var head := "[" + m.projectPrefix + "-";
    var r := head + OrPlaceholder(m.issueNumber, IssuePlaceholder) + "] "
             + OrPlaceholder(m.description, DescriptionPlaceholder);
    OccursAtPointwise(r, head, 0);
    r
  }

  /** `isValid`: both the issue number and the description are filled in. */
  predicate IsValid(m: Message)
    ensures IsValid(m) <==> OrPlaceholder(m.issueNumber, IssuePlaceholder) == m.issueNumber
                            && OrPlaceholder(m.description, DescriptionPlaceholder) == m.description
  {
    assert !IsBlank(IssuePlaceholder) && !IsBlank(DescriptionPlaceholder) by {
      assert !IsWhitespace(IssuePlaceholder[0]) && !IsWhitespace(DescriptionPlaceholder[0]);
    }
    !IsBlank(m.issueNumber) && !IsBlank(m.description)
  }

  // ---------------------------------------------------------------------
  // Properties

  /** The description can be read back from the header as the text after
      the first `"] "`, when neither the prefix nor the issue holds a `]`. */
  lemma DescriptionReadBack(m: Message)
    requires forall t :: 0 <= t < |m.projectPrefix| ==> m.projectPrefix[t] != ']'
    requires forall t :: 0 <= t < |m.issueNumber| ==> m.issueNumber[t] != ']'
    ensures SubstringAfter(Format(m), "] ") == OrPlaceholder(m.description, DescriptionPlaceholder)
  {
    var pre := HeaderParts(m);
    SubstringAfterFirst(pre, "] ", OrPlaceholder(m.description, DescriptionPlaceholder));
  }

  /** Under the same condition the text before the first `"] "` is the
      prefix and the issue, or its placeholder when blank. */
  lemma IssueReadBack(m: Message)
    requires forall t :: 0 <= t < |m.projectPrefix| ==> m.projectPrefix[t] != ']'
    requires forall t :: 0 <= t < |m.issueNumber| ==> m.issueNumber[t] != ']'
    ensures SubstringBefore(Format(m), "] ") == "[" + m.projectPrefix + "-" + OrPlaceholder(m.issueNumber, IssuePlaceholder)
  {
    var pre := HeaderParts(m);
    SubstringBeforeFirst(pre, "] ", OrPlaceholder(m.description, DescriptionPlaceholder));
  }

  /** The header up to its first `]`, which it holds no `]` before. */
  lemma HeaderParts(m: Message) returns (pre: string)
    requires forall t :: 0 <= t < |m.projectPrefix| ==> m.projectPrefix[t] != ']'
    requires forall t :: 0 <= t < |m.issueNumber| ==> m.issueNumber[t] != ']'
    ensures pre == "[" + m.projectPrefix + "-" + OrPlaceholder(m.issueNumber, IssuePlaceholder)
    ensures Format(m) == pre + "] " + OrPlaceholder(m.description, DescriptionPlaceholder)
    ensures forall t :: 0 <= t < |pre| ==> pre[t] != ']'
  {
    var issue := OrPlaceholder(m.issueNumber, IssuePlaceholder);
    pre := "[" + m.projectPrefix + "-" + issue;
    assert forall t :: 0 <= t < |IssuePlaceholder| ==> IssuePlaceholder[t] != ']';
    forall t | 0 <= t < |pre| ensures pre[t] != ']' {
      if t == 0 {
      } else if t <= |m.projectPrefix| {
        assert pre[t] == m.projectPrefix[t - 1];
      } else if t == |m.projectPrefix| + 1 {
      } else {
        assert pre[t] == issue[t - |m.projectPrefix| - 2];
      }
    }
  }

  /** A valid message shows both its fields verbatim and no placeholder. */
  lemma ValidShowsFields(m: Message)
    requires IsValid(m)
    ensures Format(m) == "[" + m.projectPrefix + "-" + m.issueNumber + "] " + m.description
  {
  }

  /** A fresh message is not valid and shows both placeholders. */
  lemma FreshShowsPlaceholders()
    ensures !IsValid(Fresh())
    ensures Format(Fresh()) == "[AIP-{issue_number}] {description}"
  {
    assert IsBlank("");
  }

  /** The Jira service finds `PREFIX-ISSUE` in the header of a message whose
      prefix is upper-case letters and whose issue is digits. */
  lemma FormatHasTicketKey(m: Message)
    requires |m.projectPrefix| > 0 && forall t :: 0 <= t < |m.projectPrefix| ==> IsUpper(m.projectPrefix[t])
    requires IsDigitString(m.issueNumber)
    ensures JiraService.ExtractTicketKey(Format(m)) == Some(m.projectPrefix + "-" + m.issueNumber)
  {
    assert !IsBlank(m.issueNumber) by { assert !IsWhitespace(m.issueNumber[0]); }
    var rest := " " + OrPlaceholder(m.description, DescriptionPlaceholder);
    var lhs := "[" + m.projectPrefix + "-" + m.issueNumber + "]";
    assert Format(m) == lhs + rest;
    JiraService.KeyInBrackets(m.projectPrefix, m.issueNumber, rest);
  }
}

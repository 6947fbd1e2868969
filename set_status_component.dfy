/**
  The Web SetStatusComponent: the statuses it loads, and completing a status change on the issue
  it edits. The selection is one of four lower-case tokens, compared exactly; the chosen status
  is the first one whose name equals the token ignoring case (ASCII case only).
*/
module SetStatusComponents {
  import opened Wrappers
  import opened Store
  import opened Models
  import opened Helpers
  import opened IssueServices
  import opened StatusServices

  /** The selections the switch recognises, exactly as spelled. */
  const StatusTokens: seq<string> := ["answered", "inwork", "watching", "dismissed"]

  /** `string.Equals(a, b, StringComparison.CurrentCultureIgnoreCase)`, on ASCII letters. */
  predicate EqualsIgnoreCase(a: string, b: string)
  {
    Lower(a) == Lower(b)
  }

  function NamedLike(token: string): Status -> bool { (s: Status) => EqualsIgnoreCase(s.statusName, token) }

  /** The status the switch assigns: for a recognised token the first status named like it, or
      `InvalidOperationException` from `First` when there is none; otherwise the current status. */
  function SelectedStatus(setting: Option<string>, statuses: seq<Status>, current: StatusDto): (r: Try<StatusDto>)
    ensures r.Raised? <==> setting.Some? && setting.value in StatusTokens
                           && forall k :: 0 <= k < |statuses| ==> !EqualsIgnoreCase(statuses[k].statusName, setting.value)
    ensures r.Raised? ==> r.ex == InvalidOperation
    ensures (setting.Null? || setting.value !in StatusTokens) ==> r == Returned(current)
  {
    if setting.Some? && setting.value in StatusTokens then
      match FindFirst(statuses, NamedLike(setting.value))
      case Null => Raised(InvalidOperation)
      case Some(s) => Returned(StatusDtoOf(s))
    else Returned(current)
  }

  class SetStatusComponent {
    const issueService: IssueService
    const statusService: StatusService
    var settingStatus: Option<string>
    var statuses: seq<Status>
    var issue: Issue

    ghost predicate Valid()
      reads this, issueService, issueService.repository, statusService
    {
      issueService.Valid() && statusService.Valid()
    }

    constructor (issueService: IssueService, statusService: StatusService, issue: Issue)
      requires issueService.Valid() && statusService.Valid()
      ensures Valid() && this.issueService == issueService && this.statusService == statusService
      ensures this.issue == issue && settingStatus.Null? && statuses == []
    {
      this.issueService := issueService;
      this.statusService := statusService;
      this.issue := issue;
      settingStatus := Null;
      statuses := [];
    }

    /** OnInitializedAsync: the statuses come from the status service's cached read. */
    method OnInitializedAsync()
      requires Valid()
      modifies this, statusService
      ensures Valid() && issue == old(issue) && settingStatus == old(settingStatus)
      ensures statusService.statuses == old(statusService.statuses)
      ensures (statuses, statusService.cache) == GetStatusesStep(old(statusService.cache), statusService.statuses)
    {
      statuses := statusService.GetStatuses();
    }

    /** CompleteSetStatus: assigns the selected status, resets the selection and saves the issue.
        When `First` throws, nothing is assigned, reset or saved. The save's own outcome is not
        reported to the caller. */
    method CompleteSetStatus() returns (o: Outcome)
      requires Valid()
      modifies this, issueService, issueService.repository
      ensures Valid() && statuses == old(statuses)
      ensures var sel := SelectedStatus(old(settingStatus), old(statuses), old(issue).issueStatus);
        && (sel.Raised? ==>
              && o == Threw(sel.ex) && issue == old(issue) && settingStatus == old(settingStatus)
              && issueService.cache == old(issueService.cache)
              && issueService.repository.issues == old(issueService.repository.issues))
        && (sel.Returned? ==>
              && o == Completed && issue == old(issue).(issueStatus := sel.value) && settingStatus.Null?
              && var (saved, cache', _) := UpdateIssueStep(old(issueService.cache), old(issueService.repository.issues), Some(issue));
                 issueService.repository.issues == saved && issueService.cache == cache')
    {
      var sel := SelectedStatus(settingStatus, statuses, issue.issueStatus);
      if sel.Raised? {
        o := Threw(sel.ex);
        return;
      }
      issue := issue.(issueStatus := sel.value);
      settingStatus := Null;
      var saved := issueService.UpdateIssue(Some(issue));
      o := Completed;
    }
  }

  /** For a recognised token with a status named like it, the issue takes the first such status,
      whose name lower-cases to the token. */
  lemma RecognisedTokenTakesFirstMatch(token: string, statuses: seq<Status>, current: StatusDto, k: nat)
    requires token in StatusTokens
    requires k < |statuses| && EqualsIgnoreCase(statuses[k].statusName, token)
    ensures var r := SelectedStatus(Some(token), statuses, current);
      var i := IndexWhere(statuses, NamedLike(token));
      && 0 <= i <= k && r == Returned(StatusDtoOf(statuses[i]))
      && Lower(statuses[i].statusName) == token
      && forall j :: 0 <= j < i ==> Lower(statuses[j].statusName) != token
  {
    assert NamedLike(token)(statuses[k]);
    var i := IndexWhere(statuses, NamedLike(token));
    assert Lower(token) == token by {
      LowerOfLowercase(token);
    }
    forall j | 0 <= j < i ensures Lower(statuses[j].statusName) != token {
      assert !NamedLike(token)(statuses[j]);
    }
  }

  /** The four tokens are already lower case. */
  lemma LowerOfLowercase(token: string)
    requires token in StatusTokens
    ensures Lower(token) == token
  {
    forall i | 0 <= i < |token| ensures ToLower(token[i]) == token[i] {
      assert 'a' <= token[i] <= 'z';
    }
  }

  /** The switch is case-sensitive: a capitalised token leaves the issue's status as it was, even
      when a status of that name exists. */
  lemma CapitalisedTokenIsIgnored(statuses: seq<Status>, current: StatusDto)
    ensures SelectedStatus(Some("Answered"), statuses, current) == Returned(current)
    ensures SelectedStatus(Some("InWork"), statuses, current) == Returned(current)
    ensures SelectedStatus(Null, statuses, current) == Returned(current)
  {
  }
}

/**
  The Web IssueComponent: the CSS classes an issue entry takes from its category and status,
  and archiving the issue pending archive.
*/
module IssueComponents {
  import opened Wrappers
  import opened Store
  import opened Models
  import opened Helpers
  import opened IssueServices

  /** The category names that have a class of their own. */
  const StyledCategories: seq<string> := ["Design", "Documentation", "Implementation", "Clarification", "Miscellaneous"]

  /** The status names that have a class of their own. */
  const StyledStatuses: seq<string> := ["Answered", "InWork", "Watching", "Dismissed"]

  /** GetIssueCategoryCssClass; the names are matched exactly, case included. */
  function IssueCategoryCssClass(issue: Issue): (c: string)
    ensures c == "issue-entry-category-none" <==> issue.category.categoryName !in StyledCategories
  {
    match issue.category.categoryName
    case "Design" => "issue-entry-category-design"
    case "Documentation" => "issue-entry-category-documentation"
    case "Implementation" => "issue-entry-category-implementation"
    case "Clarification" => "issue-entry-category-clarification"
    case "Miscellaneous" => "issue-entry-category-miscellaneous"
    case _ => "issue-entry-category-none"
  }

  /** GetIssueStatusCssClass; the names are matched exactly, case included. */
  function IssueStatusCssClass(issue: Issue): (c: string)
    ensures c == "issue-entry-status-none" <==> issue.issueStatus.statusName !in StyledStatuses
  {
    match issue.issueStatus.statusName
    case "Answered" => "issue-entry-status-answered"
    case "InWork" => "issue-entry-status-inwork"
    case "Watching" => "issue-entry-status-watching"
    case "Dismissed" => "issue-entry-status-dismissed"
    case _ => "issue-entry-status-none"
  }

  /** A styled category's class is the prefix followed by the lower-cased name. */
  lemma CategoryClassIsLoweredName(issue: Issue)
    requires issue.category.categoryName in StyledCategories
    ensures IssueCategoryCssClass(issue) == "issue-entry-category-" + Lower(issue.category.categoryName)
  {
    var name := issue.category.categoryName;
    if name == "Design" {
      DesignClass(issue);
    } else if name == "Documentation" {
      DocumentationClass(issue);
    } else if name == "Implementation" {
      ImplementationClass(issue);
    } else if name == "Clarification" {
      ClarificationClass(issue);
    } else {
      MiscellaneousClass(issue);
    }
  }

  lemma DesignClass(issue: Issue)
    requires issue.category.categoryName == "Design"
    ensures IssueCategoryCssClass(issue) == "issue-entry-category-" + Lower(issue.category.categoryName)
  {
    LowerIs("Design", "design");
  }

  lemma DocumentationClass(issue: Issue)
    requires issue.category.categoryName == "Documentation"
    ensures IssueCategoryCssClass(issue) == "issue-entry-category-" + Lower(issue.category.categoryName)
  {
    LowerIs("Documentation", "documentation");
  }

  lemma ImplementationClass(issue: Issue)
    requires issue.category.categoryName == "Implementation"
    ensures IssueCategoryCssClass(issue) == "issue-entry-category-" + Lower(issue.category.categoryName)
  {
    LowerIs("Implementation", "implementation");
  }

  lemma ClarificationClass(issue: Issue)
    requires issue.category.categoryName == "Clarification"
    ensures IssueCategoryCssClass(issue) == "issue-entry-category-" + Lower(issue.category.categoryName)
  {
    LowerIs("Clarification", "clarification");
  }

  lemma MiscellaneousClass(issue: Issue)
    requires issue.category.categoryName == "Miscellaneous"
    ensures IssueCategoryCssClass(issue) == "issue-entry-category-" + Lower(issue.category.categoryName)
  {
    LowerIs("Miscellaneous", "miscellaneous");
  }

  /** A styled status's class is the prefix followed by the lower-cased name. */
  lemma StatusClassIsLoweredName(issue: Issue)
    requires issue.issueStatus.statusName in StyledStatuses
    ensures IssueStatusCssClass(issue) == "issue-entry-status-" + Lower(issue.issueStatus.statusName)
  {
    var name := issue.issueStatus.statusName;
    if name == "Answered" {
      AnsweredClass(issue);
    } else if name == "InWork" {
      InWorkClass(issue);
    } else if name == "Watching" {
      WatchingClass(issue);
    } else {
      DismissedClass(issue);
    }
  }

  lemma AnsweredClass(issue: Issue)
    requires issue.issueStatus.statusName == "Answered"
    ensures IssueStatusCssClass(issue) == "issue-entry-status-" + Lower(issue.issueStatus.statusName)
  {
    LowerIs("Answered", "answered");
  }

  lemma InWorkClass(issue: Issue)
    requires issue.issueStatus.statusName == "InWork"
    ensures IssueStatusCssClass(issue) == "issue-entry-status-" + Lower(issue.issueStatus.statusName)
  {
    LowerIs("InWork", "inwork");
  }

  lemma WatchingClass(issue: Issue)
    requires issue.issueStatus.statusName == "Watching"
    ensures IssueStatusCssClass(issue) == "issue-entry-status-" + Lower(issue.issueStatus.statusName)
  {
    LowerIs("Watching", "watching");
  }

  lemma DismissedClass(issue: Issue)
    requires issue.issueStatus.statusName == "Dismissed"
    ensures IssueStatusCssClass(issue) == "issue-entry-status-" + Lower(issue.issueStatus.statusName)
  {
    LowerIs("Dismissed", "dismissed");
  }

  lemma LowerIs(s: string, t: string)
    requires |s| == |t| && forall i :: 0 <= i < |s| ==> ToLower(s[i]) == t[i]
    ensures Lower(s) == t
  {
  }

  class IssueComponent {
    const service: IssueService
    var item: Issue
    var loggedInUser: User
    var archivingIssue: Option<Issue>

    ghost predicate Valid()
      reads this, service, service.repository
    {
      service.Valid()
    }

    constructor (service: IssueService, item: Issue, loggedInUser: User)
      requires service.Valid()
      ensures Valid() && this.service == service && this.item == item && this.loggedInUser == loggedInUser
      ensures archivingIssue.Null?
    {
      this.service := service;
      this.item := item;
      this.loggedInUser := loggedInUser;
      archivingIssue := Null;
    }

    /** ArchiveIssue: the issue pending archive is stamped with the user and archived, then saved;
        the pending slot is cleared once the save completed. With nothing pending it throws. */
    method ArchiveIssue() returns (o: Outcome)
      requires Valid()
      modifies this, service, service.repository
      ensures Valid() && item == old(item) && loggedInUser == old(loggedInUser)
      ensures old(archivingIssue).Null? ==>
        && o == Threw(NullReference) && archivingIssue.Null?
        && service.cache == old(service.cache) && service.repository.issues == old(service.repository.issues)
      ensures old(archivingIssue).Some? ==>
        var archived := old(archivingIssue).value.(archivedBy := UserDtoOf(loggedInUser), archived := true);
        && (service.repository.issues, service.cache, o)
           == UpdateIssueStep(old(service.cache), old(service.repository.issues), Some(archived))
        && archivingIssue == if o.Completed? then Null else Some(archived)
    {
      if archivingIssue.Null? {
        o := Threw(NullReference);
        return;
      }
      archivingIssue := Some(archivingIssue.value.(archivedBy := UserDtoOf(loggedInUser)));
      archivingIssue := Some(archivingIssue.value.(archived := true));
      o := service.UpdateIssue(archivingIssue);
      if o.Threw? {
        return;
      }
      archivingIssue := Null;
    }
  }
}

/**
  The Web Admin page: the queue of issues waiting for approval, approving or rejecting one of
  them, and editing an issue's title or description in place. At most one of the two edit slots
  names an issue at a time.
*/
module AdminPages {
  import opened Wrappers
  import opened Store
  import opened Models
  import opened Issues
  import opened IssueServices

  /** The position of the first occurrence of `x`. */
  function FirstIndex(xs: seq<Issue>, x: Issue): (i: nat)
    requires x in xs
    ensures i < |xs| && xs[i] == x
    ensures forall j :: 0 <= j < i ==> xs[j] != x
  {
    if xs[0] == x then 0 else 1 + FirstIndex(xs[1..], x)
  }

  /** `List.Remove(x)`: the first element equal to `x` is taken out; without one the list stays. */
  function RemoveFirst(xs: seq<Issue>, x: Issue): (r: seq<Issue>)
    ensures x !in xs ==> r == xs
    ensures multiset(r) == multiset(xs) - multiset{x}
  {
    if xs == [] then []
    else if xs[0] == x then
      assert xs == [xs[0]] + xs[1..];
      xs[1..]
    else
      assert xs == [xs[0]] + xs[1..];
      [xs[0]] + RemoveFirst(xs[1..], x)
  }

  /** Removal cuts the list at the first occurrence. */
  lemma {:induction false} RemoveFirstCutsAtFirst(xs: seq<Issue>, x: Issue)
    requires x in xs
    ensures var i := FirstIndex(xs, x); RemoveFirst(xs, x) == xs[..i] + xs[i + 1..]
  {
    if xs[0] != x {
      RemoveFirstCutsAtFirst(xs[1..], x);
      var i := FirstIndex(xs[1..], x);
      assert xs[1..][..i] + xs[1..][i + 1..] == xs[1..i + 1] + xs[i + 2..];
      assert [xs[0]] + xs[1..i + 1] == xs[..i + 1];
    }
  }

  /** In a queue whose ids are unique, as the one the page loads, removal takes out exactly that
      issue and keeps the order of the rest. */
  lemma {:induction false} RemoveFirstOfDistinct(xs: seq<Issue>, x: Issue)
    requires UniqueKeys(xs, IssueKey)
    ensures forall y :: y in RemoveFirst(xs, x) <==> y in xs && y != x
    ensures IsSubsequence(RemoveFirst(xs, x), xs)
  {
    if xs != [] {
      var tail := xs[1..];
      assert UniqueKeys(tail, IssueKey) by {
        forall i, j | 0 <= i < j < |tail| ensures tail[i].id != tail[j].id {
          assert tail[i] == xs[i + 1] && tail[j] == xs[j + 1];
        }
      }
      RemoveFirstOfDistinct(tail, x);
      assert xs == [xs[0]] + tail;
      if xs[0] == x {
        assert x !in tail by {
          forall k | 0 <= k < |tail| ensures tail[k] != x {
            assert tail[k] == xs[k + 1];
          }
        }
        SameIsSubsequence(tail);
        SubsequenceCons(tail, tail, xs[0]);
      }
    }
  }

  lemma {:induction false} SameIsSubsequence(xs: seq<Issue>)
    ensures IsSubsequence(xs, xs)
  {
    if xs != [] {
      SameIsSubsequence(xs[1..]);
    }
  }

  /** `Where` keeps the keys of a collection unique, so the queue holds each issue once. */
  lemma {:induction false} WhereKeepsKeysUnique(docs: seq<Issue>, p: Issue -> bool)
    requires UniqueKeys(docs, IssueKey)
    ensures UniqueKeys(Where(docs, p), IssueKey)
    ensures forall y :: y in Where(docs, p) ==> y in docs
  {
    if docs != [] {
      WhereKeepsKeysUnique(docs[1..], p);
      WhereCons(docs[0], docs[1..], p);
      assert docs == [docs[0]] + docs[1..];
      var rest := Where(docs[1..], p);
      forall k | 0 <= k < |rest| ensures rest[k].id != docs[0].id {
        assert rest[k] in docs[1..];
      }
    }
  }

  /** Once an approval or rejection of a stored issue is saved, the queue read afresh no longer
      holds an issue with its id, and every other issue keeps its place in the queue. */
  lemma DecidedIssueLeavesQueue(cache: map<string, seq<Issue>>, docs: seq<Issue>, issue: Issue, decided: Issue)
    requires UniqueKeys(docs, IssueKey) && issue.id in Keys(docs, IssueKey)
    requires decided == issue.(approvedForRelease := true) || decided == issue.(rejected := true)
    ensures var (docs', _, o) := UpdateIssueStep(cache, docs, Some(decided));
      && o == Completed
      && (forall y :: y in Where(docs', Waiting()) ==> y.id != issue.id)
      && (forall y :: y in Where(docs, Waiting()) && y.id != issue.id ==> y in Where(docs', Waiting()))
  {
    ReplaceByKey(docs, IssueKey, issue.id, decided);
    var docs' := UpdateIssueStep(cache, docs, Some(decided)).0;
    WhereMembersOf(docs, Waiting());
    WhereMembersOf(docs', Waiting());
    forall y | y in docs' && y.id == issue.id ensures !IsWaiting(y) {
      var k :| 0 <= k < |docs'| && docs'[k] == y;
      assert docs[k].id == issue.id;
    }
    forall y | y in docs && y.id != issue.id ensures y in docs' {
      var k :| 0 <= k < |docs| && docs[k] == y;
      assert docs'[k] == y;
    }
  }

  lemma WhereMembersOf(xs: seq<Issue>, p: Issue -> bool)
    ensures forall x :: x in Where(xs, p) <==> x in xs && p(x)
  {
    forall x | x in xs && p(x) ensures x in Where(xs, p) {
      var k :| 0 <= k < |xs| && xs[k] == x;
    }
  }

  class AdminPage {
    const service: IssueService
    var issues: Option<seq<Issue>>
    var currentEditingTitle: string
    var currentEditingDescription: string
    var editedTitle: string
    var editedDescription: string

    /** At most one edit slot names an issue. */
    ghost predicate Valid()
      reads this, service, service.repository
    {
      service.Valid() && (currentEditingTitle == "" || currentEditingDescription == "")
    }

    constructor (service: IssueService)
      requires service.Valid()
      ensures Valid() && this.service == service && issues.Null?
      ensures currentEditingTitle == "" && currentEditingDescription == "" && editedTitle == "" && editedDescription == ""
    {
      this.service := service;
      issues := Null;
      currentEditingTitle := "";
      currentEditingDescription := "";
      editedTitle := "";
      editedDescription := "";
    }

    /** OnInitializedAsync: the queue is the waiting issues, read past the cache. */
    method OnInitializedAsync()
      requires Valid()
      modifies this
      ensures Valid()
      ensures issues == Some(Where(service.repository.issues, Waiting()))
      ensures UniqueKeys(issues.value, IssueKey)
      ensures currentEditingTitle == old(currentEditingTitle) && currentEditingDescription == old(currentEditingDescription)
      ensures editedTitle == old(editedTitle) && editedDescription == old(editedDescription)
    {
      var waiting := service.GetIssuesWaitingForApproval();
      WhereKeepsKeysUnique(service.repository.issues, Waiting());
      issues := Some(waiting);
    }

    /** ApproveIssue: the issue is marked approved, leaves the queue and is saved. */
    method ApproveIssue(issue: Issue) returns (approved: Issue, o: Outcome)
      requires Valid()
      modifies this, service, service.repository
      ensures Valid() && approved == issue.(approvedForRelease := true)
      ensures issues == if old(issues).Null? then Null else Some(RemoveFirst(old(issues).value, issue))
      ensures (service.repository.issues, service.cache, o)
        == UpdateIssueStep(old(service.cache), old(service.repository.issues), Some(approved))
      ensures currentEditingTitle == old(currentEditingTitle) && currentEditingDescription == old(currentEditingDescription)
      ensures editedTitle == old(editedTitle) && editedDescription == old(editedDescription)
    {
      approved := issue.(approvedForRelease := true);
      if issues.Some? {
        issues := Some(RemoveFirst(issues.value, issue));
      }
      o := service.UpdateIssue(Some(approved));
    }

    /** RejectIssue: the issue is marked rejected, leaves the queue and is saved. */
    method RejectIssue(issue: Issue) returns (rejected: Issue, o: Outcome)
      requires Valid()
      modifies this, service, service.repository
      ensures Valid() && rejected == issue.(rejected := true)
      ensures issues == if old(issues).Null? then Null else Some(RemoveFirst(old(issues).value, issue))
      ensures (service.repository.issues, service.cache, o)
        == UpdateIssueStep(old(service.cache), old(service.repository.issues), Some(rejected))
      ensures currentEditingTitle == old(currentEditingTitle) && currentEditingDescription == old(currentEditingDescription)
      ensures editedTitle == old(editedTitle) && editedDescription == old(editedDescription)
    {
      rejected := issue.(rejected := true);
      if issues.Some? {
        issues := Some(RemoveFirst(issues.value, issue));
      }
      o := service.UpdateIssue(Some(rejected));
    }

    /** EditTitle: the title slot takes the issue and the description slot is cleared. */
    method EditTitle(model: Issue)
      requires Valid()
      modifies this
      ensures Valid() && issues == old(issues) && editedDescription == old(editedDescription)
      ensures editedTitle == model.title && currentEditingTitle == model.id && currentEditingDescription == ""
    {
      editedTitle := model.title;
      currentEditingTitle := model.id;
      currentEditingDescription := "";
    }

    /** SaveTitle: the title slot is cleared and the issue is saved with the edited title. */
    method SaveTitle(model: Issue) returns (saved: Issue, o: Outcome)
      requires Valid()
      modifies this, service, service.repository
      ensures Valid() && issues == old(issues) && currentEditingTitle == ""
      ensures currentEditingDescription == old(currentEditingDescription)
      ensures editedTitle == old(editedTitle) && editedDescription == old(editedDescription)
      ensures saved == model.(title := old(editedTitle))
      ensures (service.repository.issues, service.cache, o)
        == UpdateIssueStep(old(service.cache), old(service.repository.issues), Some(saved))
    {
      currentEditingTitle := "";
      saved := model.(title := editedTitle);
      o := service.UpdateIssue(Some(saved));
    }

    /** EditDescription: the description slot takes the issue and the title slot is cleared. */
    method EditDescription(model: Issue)
      requires Valid()
      modifies this
      ensures Valid() && issues == old(issues) && editedTitle == old(editedTitle)
      ensures editedDescription == model.description && currentEditingDescription == model.id && currentEditingTitle == ""
    {
      editedDescription := model.description;
      currentEditingTitle := "";
      currentEditingDescription := model.id;
    }

    /** SaveDescription: the description slot is cleared and the issue is saved with the edited
        description. */
    method SaveDescription(model: Issue) returns (saved: Issue, o: Outcome)
      requires Valid()
      modifies this, service, service.repository
      ensures Valid() && issues == old(issues) && currentEditingDescription == ""
      ensures currentEditingTitle == old(currentEditingTitle)
      ensures editedTitle == old(editedTitle) && editedDescription == old(editedDescription)
      ensures saved == model.(description := old(editedDescription))
      ensures (service.repository.issues, service.cache, o)
        == UpdateIssueStep(old(service.cache), old(service.repository.issues), Some(saved))
    {
      currentEditingDescription := "";
      saved := model.(description := editedDescription);
      o := service.UpdateIssue(Some(saved));
    }
  }
}

/**
  The ApiService's IssueRepository over the "issues" collection: archive and update by
  replacement, the author query, and the two approval queries the admin and home pages use.
  Its methods take non-nullable issues and ids and guard neither.
*/
module Issues {
  import opened Wrappers
  import opened Store
  import opened Models

  function HasId(id: Id): Issue -> bool { KeyIs(IssueKey, id) }

  function ByAuthor(userId: Id): Issue -> bool { (x: Issue) => x.author.id == userId }

  /** Waiting for approval: neither approved for release nor rejected. Archived issues are not excluded. */
  predicate IsWaiting(x: Issue) { !x.approvedForRelease && !x.rejected }

  /** Approved: approved for release and not rejected. Archived issues are not excluded. */
  predicate IsApproved(x: Issue) { x.approvedForRelease && !x.rejected }

  function Waiting(): Issue -> bool { (x: Issue) => IsWaiting(x) }

  function Approved(): Issue -> bool { (x: Issue) => IsApproved(x) }

  function NotRejected(): Issue -> bool { (x: Issue) => !x.rejected }

  /** `UpdateAsync(itemId, issue)`: replace the document with that id, without upsert. */
  function UpdateStep(docs: seq<Issue>, itemId: Id, issue: Issue): Try<seq<Issue>>
  {
    ReplaceOne(docs, IssueKey, HasId(itemId), issue)
  }

  /** `ArchiveAsync(issue)`: the issue, marked archived, replaces the document with its id. */
  function ArchiveStep(docs: seq<Issue>, issue: Issue): Try<seq<Issue>>
  {
    UpdateStep(docs, issue.id, issue.(archived := true))
  }

  class IssueRepository {
    var issues: seq<Issue>

    ghost predicate Valid()
      reads this
    {
      UniqueKeys(issues, IssueKey)
    }

    constructor (initial: seq<Issue>)
      requires UniqueKeys(initial, IssueKey)
      ensures Valid() && issues == initial
    {
      issues := initial;
    }

    /** ArchiveAsync */
    method ArchiveAsync(issue: Issue) returns (o: Outcome)
      requires Valid()
      modifies this
      ensures Valid()
      ensures o == OutcomeOf(ArchiveStep(old(issues), issue))
      ensures issues == Written(old(issues), ArchiveStep(old(issues), issue))
    {
      var archived := issue.(archived := true);
      o := UpdateAsync(archived.id, archived);
    }

    /** CreateAsync */
    method CreateAsync(issue: Issue) returns (o: Outcome)
      requires Valid()
      modifies this
      ensures Valid()
      ensures o == OutcomeOf(InsertOne(old(issues), IssueKey, issue))
      ensures issues == Written(old(issues), InsertOne(old(issues), IssueKey, issue))
    {
      var r := InsertOne(issues, IssueKey, issue);
      if r.Raised? {
        o := Threw(r.ex);
        return;
      }
      InsertKeepsKeysUnique(issues, IssueKey, issue);
      issues := r.value;
      o := Completed;
    }

    /** GetAsync: the issue with the id, or null. */
    method GetAsync(itemId: Id) returns (r: Option<Issue>)
      ensures r == FindFirst(issues, HasId(itemId))
      ensures r.Null? <==> itemId !in Keys(issues, IssueKey)
      ensures r.Some? ==> r.value in issues && r.value.id == itemId
    {
      r := FindFirst(issues, HasId(itemId));
      KeyIsFound(issues, IssueKey, itemId);
    }

    /** GetAllAsync: every issue, in store order. */
    method GetAllAsync() returns (r: seq<Issue>)
      ensures r == issues
    {
      r := issues;
    }

    /** GetWaitingForApprovalAsync */
    method GetWaitingForApprovalAsync() returns (r: seq<Issue>)
      ensures r == Where(issues, Waiting())
    {
      var output := GetAllAsync();
      r := Where(output, Waiting());
    }

    /** GetApprovedAsync */
    method GetApprovedAsync() returns (r: seq<Issue>)
      ensures r == Where(issues, Approved())
    {
      var output := GetAllAsync();
      r := Where(output, Approved());
    }

    /** GetByUserAsync: the issues the user wrote, in store order. */
    method GetByUserAsync(userId: Id) returns (r: seq<Issue>)
      ensures r == Where(issues, ByAuthor(userId))
    {
      r := Where(issues, ByAuthor(userId));
    }

    /** UpdateAsync */
    method UpdateAsync(itemId: Id, issue: Issue) returns (o: Outcome)
      requires Valid()
      modifies this
      ensures Valid()
      ensures o == OutcomeOf(UpdateStep(old(issues), itemId, issue))
      ensures issues == Written(old(issues), UpdateStep(old(issues), itemId, issue))
    {
      var r := ReplaceOne(issues, IssueKey, HasId(itemId), issue);
      if r.Raised? {
        o := Threw(r.ex);
        return;
      }
      ReplaceByKey(issues, IssueKey, itemId, issue);
      issues := r.value;
      o := Completed;
    }
  }

  // ---- The approval queries ----

  /** Each query returns exactly the issues of its predicate, in store order, archived ones included. */
  lemma ApprovalQueriesAreExact(docs: seq<Issue>)
    ensures forall x :: x in Where(docs, Waiting()) <==> x in docs && !x.approvedForRelease && !x.rejected
    ensures forall x :: x in Where(docs, Approved()) <==> x in docs && x.approvedForRelease && !x.rejected
    ensures IsSubsequence(Where(docs, Waiting()), docs)
    ensures IsSubsequence(Where(docs, Approved()), docs)
  {
    WhereIsSubsequence(docs, Waiting());
    WhereIsSubsequence(docs, Approved());
    forall x | x in docs && IsWaiting(x) ensures x in Where(docs, Waiting()) {
      var k :| 0 <= k < |docs| && docs[k] == x;
      assert Waiting()(docs[k]);
    }
    forall x | x in docs && IsApproved(x) ensures x in Where(docs, Approved()) {
      var k :| 0 <= k < |docs| && docs[k] == x;
      assert Approved()(docs[k]);
    }
  }

  /** No issue is both waiting and approved, and together the two queries cover exactly the
      non-rejected issues. */
  lemma ApprovalQueriesPartitionNonRejected(docs: seq<Issue>)
    ensures forall x :: !(x in Where(docs, Waiting()) && x in Where(docs, Approved()))
    ensures forall x :: x in docs && !x.rejected <==> x in Where(docs, Waiting()) || x in Where(docs, Approved())
  {
    ApprovalQueriesAreExact(docs);
  }

  /** Counted with repetitions, the waiting and approved lists together are as long as the list
      of non-rejected issues: nothing is lost or counted twice. */
  lemma {:induction false} ApprovalQueriesCount(docs: seq<Issue>)
    ensures |Where(docs, Waiting())| + |Where(docs, Approved())| == |Where(docs, NotRejected())|
  {
    if docs != [] {
      ApprovalQueriesCount(docs[1..]);
    }
  }

  // ---- Replacement writes ----

  /** `ArchiveAsync`: the stored issue with that id becomes the given issue marked archived; an
      issue not in the store is not inserted. */
  lemma ArchiveMarksStoredIssue(docs: seq<Issue>, issue: Issue)
    requires UniqueKeys(docs, IssueKey)
    ensures var r := ArchiveStep(docs, issue);
      && (issue.id !in Keys(docs, IssueKey) ==> r == Returned(docs))
      && (issue.id in Keys(docs, IssueKey) ==>
            && r.Returned? && |r.value| == |docs|
            && forall k :: 0 <= k < |docs| ==>
                 r.value[k] == if docs[k].id == issue.id then issue.(archived := true) else docs[k])
  {
    ReplaceByKey(docs, IssueKey, issue.id, issue.(archived := true));
  }

  /** `UpdateAsync` replaces only the document with that id and never inserts. */
  lemma UpdateReplacesOnlyThatId(docs: seq<Issue>, itemId: Id, issue: Issue)
    requires UniqueKeys(docs, IssueKey)
    ensures var r := UpdateStep(docs, itemId, issue);
      && (itemId !in Keys(docs, IssueKey) ==> r == Returned(docs))
      && (itemId in Keys(docs, IssueKey) && issue.id != itemId ==> r == Raised(ImmutableIdAltered))
      && (itemId in Keys(docs, IssueKey) && issue.id == itemId ==>
            && r.Returned? && |r.value| == |docs|
            && forall k :: 0 <= k < |docs| ==> r.value[k] == if docs[k].id == itemId then issue else docs[k])
  {
    ReplaceByKey(docs, IssueKey, itemId, issue);
  }

  /** `GetByUserAsync` returns exactly the user's issues, in store order. */
  lemma ByUserIsExact(docs: seq<Issue>, userId: Id)
    ensures forall x :: x in Where(docs, ByAuthor(userId)) <==> x in docs && x.author.id == userId
    ensures IsSubsequence(Where(docs, ByAuthor(userId)), docs)
  {
    WhereIsSubsequence(docs, ByAuthor(userId));
    forall x | x in docs && x.author.id == userId ensures x in Where(docs, ByAuthor(userId)) {
      var k :| 0 <= k < |docs| && docs[k] == x;
      assert ByAuthor(userId)(docs[k]);
    }
  }
}

/**
  The Web Profile page: the signed-in user's comments and issues, the issues newest first, and
  four lists drawn from them (approved, archived, pending and rejected). The issue's creation
  time is `Entity.CreatedOn`.
*/
module ProfilePages {
  import opened Wrappers
  import opened Store
  import opened Models
  import opened Comments
  import opened CommentServices
  import opened Issues
  import opened IssueServices

  // ---- `OrderByDescending(s => s.CreatedOn)` ----

  ghost predicate NewestFirst(xs: seq<Issue>)
  {
    forall i, j :: 0 <= i < j < |xs| ==> xs[i].createdOn >= xs[j].createdOn
  }

  /** Puts `x` in front of the first issue created no later than it. */
  function InsertByCreated(x: Issue, xs: seq<Issue>): (r: seq<Issue>)
    ensures multiset(r) == multiset(xs) + multiset{x}
    ensures |r| == |xs| + 1
  {
    if xs == [] then [x]
    else if x.createdOn >= xs[0].createdOn then [x] + xs
    else
      assert xs == [xs[0]] + xs[1..];
      [xs[0]] + InsertByCreated(x, xs[1..])
  }

  /** The issues, newest first. */
  function SortByCreatedDesc(xs: seq<Issue>): (r: seq<Issue>)
    ensures multiset(r) == multiset(xs)
    ensures |r| == |xs|
  {
    if xs == [] then []
    else
      assert xs == [xs[0]] + xs[1..];
      InsertByCreated(xs[0], SortByCreatedDesc(xs[1..]))
  }

  lemma {:induction false} InsertKeepsNewestFirst(x: Issue, xs: seq<Issue>)
    requires NewestFirst(xs)
    ensures NewestFirst(InsertByCreated(x, xs))
  {
    if xs != [] && x.createdOn < xs[0].createdOn {
      InsertKeepsNewestFirst(x, xs[1..]);
      var rest := InsertByCreated(x, xs[1..]);
      forall k | 0 <= k < |rest| ensures xs[0].createdOn >= rest[k].createdOn {
        assert rest[k] in multiset(rest);
        assert rest[k] == x || rest[k] in multiset(xs[1..]);
        if rest[k] != x {
          assert rest[k] in xs[1..];
        }
      }
    }
  }

  /** The sort puts the issues newest first and keeps each issue as often as it occurs. */
  lemma {:induction false} SortIsNewestFirstPermutation(xs: seq<Issue>)
    ensures NewestFirst(SortByCreatedDesc(xs))
    ensures multiset(SortByCreatedDesc(xs)) == multiset(xs)
  {
    if xs != [] {
      SortIsNewestFirstPermutation(xs[1..]);
      InsertKeepsNewestFirst(xs[0], SortByCreatedDesc(xs[1..]));
    }
  }

  // ---- The four lists ----

  function ApprovedOnes(): Issue -> bool { (s: Issue) => s.approvedForRelease && !s.archived && !s.rejected }

  function ArchivedOnes(): Issue -> bool { (s: Issue) => s.archived && !s.rejected }

  function PendingOnes(): Issue -> bool { (s: Issue) => !s.approvedForRelease && !s.rejected }

  function RejectedOnes(): Issue -> bool { (s: Issue) => s.rejected }

  /** Membership in a `Where` list: an issue of the list that satisfies the filter. */
  lemma WhereMembers(xs: seq<Issue>, p: Issue -> bool)
    ensures forall x :: x in Where(xs, p) <==> x in xs && p(x)
  {
    forall x | x in xs && p(x) ensures x in Where(xs, p) {
      var k :| 0 <= k < |xs| && xs[k] == x;
    }
  }

  /** Every issue lands in at least one list. */
  lemma EveryIssueIsListed(sorted: seq<Issue>, x: Issue)
    requires x in sorted
    ensures x in Where(sorted, ApprovedOnes()) || x in Where(sorted, ArchivedOnes())
         || x in Where(sorted, PendingOnes()) || x in Where(sorted, RejectedOnes())
  {
    WhereMembers(sorted, ApprovedOnes());
    WhereMembers(sorted, ArchivedOnes());
    WhereMembers(sorted, PendingOnes());
    WhereMembers(sorted, RejectedOnes());
  }

  /** Approved is disjoint from each other list, and rejected from each other list; archived and
      pending share the archived issues never approved. */
  lemma ListsOverlapOnlyArchivedPending(sorted: seq<Issue>, x: Issue)
    ensures x in Where(sorted, ApprovedOnes()) ==>
      x !in Where(sorted, ArchivedOnes()) && x !in Where(sorted, PendingOnes()) && x !in Where(sorted, RejectedOnes())
    ensures x in Where(sorted, RejectedOnes()) ==>
      x !in Where(sorted, ArchivedOnes()) && x !in Where(sorted, PendingOnes()) && x !in Where(sorted, ApprovedOnes())
    ensures x in Where(sorted, ArchivedOnes()) && x in Where(sorted, PendingOnes()) <==>
      x in sorted && x.archived && !x.approvedForRelease && !x.rejected
  {
    WhereMembers(sorted, ApprovedOnes());
    WhereMembers(sorted, ArchivedOnes());
    WhereMembers(sorted, PendingOnes());
    WhereMembers(sorted, RejectedOnes());
  }

  /** Each list keeps the newest-first order: it is a subsequence of the sorted issues and is
      itself newest first. */
  lemma {:induction false} ListsKeepOrder(sorted: seq<Issue>, p: Issue -> bool)
    requires NewestFirst(sorted)
    ensures IsSubsequence(Where(sorted, p), sorted)
    ensures NewestFirst(Where(sorted, p))
  {
    WhereIsSubsequence(sorted, p);
    if sorted != [] {
      ListsKeepOrder(sorted[1..], p);
      if p(sorted[0]) {
        var rest := Where(sorted[1..], p);
        forall k | 0 <= k < |rest| ensures sorted[0].createdOn >= rest[k].createdOn {
          assert rest[k] in sorted[1..];
        }
      }
    }
  }

  class ProfilePage {
    const commentService: CommentService
    const issueService: IssueService
    var comments: Option<seq<Comment>>
    var issues: Option<seq<Issue>>
    var approved: Option<seq<Issue>>
    var archived: Option<seq<Issue>>
    var pending: Option<seq<Issue>>
    var rejected: Option<seq<Issue>>

    ghost predicate Valid()
      reads this, commentService, commentService.repository, issueService, issueService.repository
    {
      commentService.Valid() && issueService.Valid()
    }

    /** The page shows `results`: newest first, and the four lists drawn from that order. */
    ghost predicate Shows(results: seq<Issue>)
      reads this
    {
      var sorted := SortByCreatedDesc(results);
      && issues == Some(sorted)
      && approved == Some(Where(sorted, ApprovedOnes()))
      && archived == Some(Where(sorted, ArchivedOnes()))
      && pending == Some(Where(sorted, PendingOnes()))
      && rejected == Some(Where(sorted, RejectedOnes()))
    }

    constructor (commentService: CommentService, issueService: IssueService)
      requires commentService.Valid() && issueService.Valid()
      ensures Valid() && this.commentService == commentService && this.issueService == issueService
      ensures comments.Null? && issues.Null? && approved.Null? && archived.Null? && pending.Null? && rejected.Null?
    {
      this.commentService := commentService;
      this.issueService := issueService;
      comments := Null;
      issues := Null;
      approved := Null;
      archived := Null;
      pending := Null;
      rejected := Null;
    }

    /** OnInitializedAsync for the signed-in user: the comments, then the issues through the
        per-user cache; the five issue lists are assigned only when the user has issues. */
    method OnInitializedAsync(loggedInUser: User) returns (o: Outcome)
      requires Valid()
      modifies this, issueService
      ensures Valid()
      ensures IsNullOrWhiteSpace(Some(loggedInUser.id)) ==>
        && o.Threw? && issueService.cache == old(issueService.cache) && comments == old(comments) && issues == old(issues)
        && approved == old(approved) && archived == old(archived) && pending == old(pending) && rejected == old(rejected)
      ensures !IsNullOrWhiteSpace(Some(loggedInUser.id)) ==>
        var (results, cache') := GetIssuesByUserStep(old(issueService.cache), issueService.repository.issues, loggedInUser.id);
        && o == Completed && issueService.cache == cache'
        && comments == Some(Where(commentService.repository.comments, Comments.ByAuthor(loggedInUser.id)))
        && (results == [] ==> issues == old(issues) && approved == old(approved) && archived == old(archived)
                              && pending == old(pending) && rejected == old(rejected))
        && (results != [] ==> Shows(results))
    {
      var userComments := commentService.GetCommentsByUser(Some(loggedInUser.id));
      if userComments.Raised? {
        o := Threw(userComments.ex);
        return;
      }
      comments := Some(userComments.value);
      var userIssues := issueService.GetIssuesByUser(Some(loggedInUser.id));
      o := Completed;
      if |userIssues.value| != 0 {
        Show(userIssues.value);
      }
    }

    /** The assignments made once the user has issues: the sorted list and the four lists. */
    method Show(results: seq<Issue>)
      modifies this
      ensures comments == old(comments) && Shows(results)
    {
      var sorted := SortByCreatedDesc(results);
      issues := Some(sorted);
      approved := Some(Where(sorted, ApprovedOnes()));
      archived := Some(Where(sorted, ArchivedOnes()));
      pending := Some(Where(sorted, PendingOnes()));
      rejected := Some(Where(sorted, RejectedOnes()));
    }
  }
}

/**
  The IssueService: argument guards in front of the IssueRepository, a read-through cache entry
  "IssueData" holding every issue, and one read-through entry per user id holding that user's
  issues. Archive removes "IssueData" before writing, update removes it after a write that
  completed; neither touches the per-user entries, and create touches nothing.
*/
module IssueServices {
  import opened Wrappers
  import opened Store
  import opened Models
  import opened Issues

  const CacheName := "IssueData"

  /** `GetIssues` on a cache and a collection: the list it returns and the cache afterwards. */
  function GetIssuesStep(cache: map<string, seq<Issue>>, docs: seq<Issue>): (seq<Issue>, map<string, seq<Issue>>)
  {
    if CacheName in cache then (cache[CacheName], cache) else (docs, cache[CacheName := docs])
  }

  /** `GetIssuesByUser(userId)` for a non-empty id: the entry under the id itself. */
  function GetIssuesByUserStep(cache: map<string, seq<Issue>>, docs: seq<Issue>, userId: string): (seq<Issue>, map<string, seq<Issue>>)
  {
    if userId in cache then (cache[userId], cache)
    else (Where(docs, ByAuthor(userId)), cache[userId := Where(docs, ByAuthor(userId))])
  }

  /** `UpdateIssue(issue)`: the collection, the cache and the outcome afterwards. "IssueData" is
      removed only once the write completed. */
  function UpdateIssueStep(cache: map<string, seq<Issue>>, docs: seq<Issue>, issue: Option<Issue>)
    : (seq<Issue>, map<string, seq<Issue>>, Outcome)
  {
    if issue.Null? then (docs, cache, Threw(ArgumentNull("issue")))
    else
      var r := UpdateStep(docs, issue.value.id, issue.value);
      (Written(docs, r), if r.Returned? then cache - {CacheName} else cache, OutcomeOf(r))
  }

  /** Every entry is what a read of the collection would return now: all issues under "IssueData",
      the user's issues under any other key. */
  ghost predicate Coherent(cache: map<string, seq<Issue>>, docs: seq<Issue>)
  {
    && (CacheName in cache ==> cache[CacheName] == docs)
    && forall key :: key in cache && key != CacheName ==> cache[key] == Where(docs, ByAuthor(key))
  }

  class IssueService {
    const repository: IssueRepository
    var cache: map<string, seq<Issue>>

    ghost predicate Valid()
      reads this, repository
    {
      repository.Valid()
    }

    constructor (repository: IssueRepository)
      requires repository.Valid()
      ensures Valid() && this.repository == repository && cache == map[]
    {
      this.repository := repository;
      cache := map[];
    }

    /** ArchiveIssue */
    method ArchiveIssue(issue: Option<Issue>) returns (o: Outcome)
      requires Valid()
      modifies this, repository
      ensures Valid()
      ensures issue.Null? ==>
        o == Threw(ArgumentNull("issue")) && cache == old(cache) && repository.issues == old(repository.issues)
      ensures issue.Some? ==>
        && cache == old(cache) - {CacheName}
        && o == OutcomeOf(ArchiveStep(old(repository.issues), issue.value))
        && repository.issues == Written(old(repository.issues), ArchiveStep(old(repository.issues), issue.value))
    {
      o := ThrowIfNull(issue, "issue");
      if o.Threw? {
        return;
      }
      cache := cache - {CacheName};
      o := repository.ArchiveAsync(issue.value);
    }

    /** CreateIssue: the cache is not touched. */
    method CreateIssue(issue: Option<Issue>) returns (o: Outcome)
      requires Valid()
      modifies repository
      ensures Valid()
      ensures issue.Null? ==> o == Threw(ArgumentNull("issue")) && repository.issues == old(repository.issues)
      ensures issue.Some? ==>
        && o == OutcomeOf(InsertOne(old(repository.issues), IssueKey, issue.value))
        && repository.issues == Written(old(repository.issues), InsertOne(old(repository.issues), IssueKey, issue.value))
    {
      o := ThrowIfNull(issue, "issue");
      if o.Threw? {
        return;
      }
      o := repository.CreateAsync(issue.value);
    }

    /** GetIssue: a null or empty id is refused. */
    method GetIssue(issueId: Option<string>) returns (r: Try<Option<Issue>>)
      requires Valid()
      ensures IsNullOrEmpty(issueId) ==> r == Raised(if issueId.Null? then ArgumentNull("issueId") else ArgumentInvalid("issueId"))
      ensures !IsNullOrEmpty(issueId) ==> r == Returned(FindFirst(repository.issues, HasId(issueId.value)))
    {
      var guard := ThrowIfNullOrEmpty(issueId, "issueId");
      if guard.Threw? {
        r := Raised(guard.ex);
        return;
      }
      var result := repository.GetAsync(issueId.value);
      r := Returned(result);
    }

    /** GetIssues: read-through on "IssueData". */
    method GetIssues() returns (r: seq<Issue>)
      requires Valid()
      modifies this
      ensures Valid()
      ensures (r, cache) == GetIssuesStep(old(cache), repository.issues)
    {
      if CacheName in cache {
        r := cache[CacheName];
        return;
      }
      r := repository.GetAllAsync();
      cache := cache[CacheName := r];
    }

    /** GetIssuesByUser: a null or empty id is refused; otherwise read-through on the id itself. */
    method GetIssuesByUser(userId: Option<string>) returns (r: Try<seq<Issue>>)
      requires Valid()
      modifies this
      ensures Valid()
      ensures IsNullOrEmpty(userId) ==>
        r == Raised(if userId.Null? then ArgumentNull("userId") else ArgumentInvalid("userId")) && cache == old(cache)
      ensures !IsNullOrEmpty(userId) ==>
        r.Returned? && (r.value, cache) == GetIssuesByUserStep(old(cache), repository.issues, userId.value)
    {
      var guard := ThrowIfNullOrEmpty(userId, "userId");
      if guard.Threw? {
        r := Raised(guard.ex);
        return;
      }
      if userId.value in cache {
        r := Returned(cache[userId.value]);
        return;
      }
      var results := repository.GetByUserAsync(userId.value);
      cache := cache[userId.value := results];
      r := Returned(results);
    }

    /** GetIssuesWaitingForApproval: bypasses the cache. */
    method GetIssuesWaitingForApproval() returns (r: seq<Issue>)
      requires Valid()
      ensures r == Where(repository.issues, Waiting())
    {
      r := repository.GetWaitingForApprovalAsync();
    }

    /** GetApprovedIssues: bypasses the cache. */
    method GetApprovedIssues() returns (r: seq<Issue>)
      requires Valid()
      ensures r == Where(repository.issues, Approved())
    {
      r := repository.GetApprovedAsync();
    }

    /** UpdateIssue: "IssueData" is removed only once the write completed. */
    method UpdateIssue(issue: Option<Issue>) returns (o: Outcome)
      requires Valid()
      modifies this, repository
      ensures Valid()
      ensures (repository.issues, cache, o) == UpdateIssueStep(old(cache), old(repository.issues), issue)
    {
      o := ThrowIfNull(issue, "issue");
      if o.Threw? {
        return;
      }
      o := repository.UpdateAsync(issue.value.id, issue.value);
      if o.Threw? {
        return;
      }
      cache := cache - {CacheName};
    }
  }

  // ---- Properties of the cache ----

  /** Both reads keep a coherent cache coherent and then return what the collection holds now. */
  lemma CoherentReadsAreFresh(cache: map<string, seq<Issue>>, docs: seq<Issue>, userId: string)
    requires Coherent(cache, docs)
    requires userId != CacheName
    ensures GetIssuesStep(cache, docs).0 == docs && Coherent(GetIssuesStep(cache, docs).1, docs)
    ensures GetIssuesByUserStep(cache, docs, userId).0 == Where(docs, ByAuthor(userId))
    ensures Coherent(GetIssuesByUserStep(cache, docs, userId).1, docs)
  {
  }

  /** A user id spelled "IssueData" reads the all-issues entry: the two kinds of key share one map. */
  lemma UserKeyCanAliasAllIssues(cache: map<string, seq<Issue>>, docs: seq<Issue>)
    requires CacheName in cache
    ensures GetIssuesByUserStep(cache, docs, CacheName).0 == GetIssuesStep(cache, docs).0
  {
  }

  /** Archiving an issue of a user whose list is cached leaves that entry in place and stale: the
      cached list still shows the issue unarchived, and no stored issue is that value any more. */
  lemma ArchiveLeavesUserEntryStale(cache: map<string, seq<Issue>>, docs: seq<Issue>, k: nat)
    requires UniqueKeys(docs, IssueKey) && Coherent(cache, docs)
    requires k < |docs| && !docs[k].archived
    requires docs[k].author.id in cache && docs[k].author.id != CacheName
    ensures var docs' := ArchiveStep(docs, docs[k]).value;
      var cache' := cache - {CacheName};
      && ArchiveStep(docs, docs[k]).Returned?
      && docs[k].author.id in cache' && cache'[docs[k].author.id] == cache[docs[k].author.id]
      && docs[k] in cache'[docs[k].author.id] && docs[k] !in docs'
      && !Coherent(cache', docs')
  {
    var x := docs[k];
    var a := x.author.id;
    assert Keys(docs, IssueKey)[k] == x.id;
    ReplaceByKey(docs, IssueKey, x.id, x.(archived := true));
    var docs' := ArchiveStep(docs, x).value;
    assert ByAuthor(a)(docs[k]);
    assert x in cache[a];
    assert x !in docs' by {
      forall j | 0 <= j < |docs'| ensures docs'[j] != x {
        if docs[j].id != x.id {
          assert docs'[j] == docs[j];
        }
      }
    }
    assert x !in Where(docs', ByAuthor(a));
    assert (cache - {CacheName})[a] != Where(docs', ByAuthor(a));
  }

  /** A create leaves "IssueData" in place, so a cached all-issues list misses the new issue. */
  lemma CreateLeavesCacheStale(cache: map<string, seq<Issue>>, docs: seq<Issue>, issue: Issue)
    requires Coherent(cache, docs) && CacheName in cache
    requires InsertOne(docs, IssueKey, issue).Returned?
    ensures var docs' := InsertOne(docs, IssueKey, issue).value;
      && issue in docs' && issue !in GetIssuesStep(cache, docs').0
      && !Coherent(cache, docs')
  {
  }
}

/**
  The CommentService: argument guards in front of the CommentRepository, and a read-through
  cache entry "CommentData" holding the non-archived comments. Archive removes the entry
  before writing; update and up-vote remove it after a write that completed; create leaves it.
*/
module CommentServices {
  import opened Wrappers
  import opened Store
  import opened Models
  import opened Comments

  const CacheName := "CommentData"

  function NotArchived(): Comment -> bool { (c: Comment) => !c.archived }

  /** `GetComments` on a cache and a collection: the list it returns and the cache afterwards. */
  function GetCommentsStep(cache: map<string, seq<Comment>>, docs: seq<Comment>): (seq<Comment>, map<string, seq<Comment>>)
  {
    if CacheName in cache then (cache[CacheName], cache)
    else (Where(docs, NotArchived()), cache[CacheName := Where(docs, NotArchived())])
  }

  /** `UpdateComment(comment)`: the outcome, the cache and the collection afterwards. The entry is
      removed only once the write completed. */
  function UpdateCommentStep(cache: map<string, seq<Comment>>, docs: seq<Comment>, comment: Option<Comment>)
    : (seq<Comment>, map<string, seq<Comment>>, Outcome)
  {
    if comment.Null? then (docs, cache, Threw(ArgumentNull("comment")))
    else
      var r := UpdateStep(docs, comment.value.id, comment.value);
      (Written(docs, r), if r.Returned? then cache - {CacheName} else cache, OutcomeOf(r))
  }

  /** `UpVoteComment(commentId, userId)`: both ids must be non-empty; the entry is removed only
      once the write completed. */
  function UpVoteCommentStep(cache: map<string, seq<Comment>>, docs: seq<Comment>, commentId: Option<string>, userId: Option<string>)
    : (seq<Comment>, map<string, seq<Comment>>, Outcome)
  {
    if IsNullOrEmpty(commentId) then (docs, cache, ThrowIfNullOrEmpty(commentId, "commentId"))
    else if IsNullOrEmpty(userId) then (docs, cache, ThrowIfNullOrEmpty(userId, "userId"))
    else
      var r := UpVoteStep(docs, commentId.value, userId.value);
      (Written(docs, r), if r.Returned? then cache - {CacheName} else cache, OutcomeOf(r))
  }

  /** The cache entry, when there is one, is what a read of the collection would return now. */
  ghost predicate Coherent(cache: map<string, seq<Comment>>, docs: seq<Comment>)
  {
    CacheName in cache ==> cache[CacheName] == Where(docs, NotArchived())
  }

  class CommentService {
    const repository: CommentRepository
    var cache: map<string, seq<Comment>>

    ghost predicate Valid()
      reads this, repository
    {
      repository.Valid()
    }

    constructor (repository: CommentRepository)
      requires repository.Valid()
      ensures Valid() && this.repository == repository && cache == map[]
    {
      this.repository := repository;
      cache := map[];
    }

    /** ArchiveComment */
    method ArchiveComment(comment: Option<Comment>) returns (o: Outcome)
      requires Valid()
      modifies this, repository
      ensures Valid()
      ensures comment.Null? ==>
        o == Threw(ArgumentNull("comment")) && cache == old(cache) && repository.comments == old(repository.comments)
      ensures comment.Some? ==>
        && cache == old(cache) - {CacheName}
        && o == OutcomeOf(ArchiveStep(old(repository.comments), comment))
        && repository.comments == Written(old(repository.comments), ArchiveStep(old(repository.comments), comment))
    {
      o := ThrowIfNull(comment, "comment");
      if o.Threw? {
        return;
      }
      cache := cache - {CacheName};
      o := repository.ArchiveAsync(comment);
    }

    /** CreateComment: the cache is not touched. */
    method CreateComment(comment: Option<Comment>) returns (o: Outcome)
      requires Valid()
      modifies repository
      ensures Valid()
      ensures comment.Null? ==> o == Threw(ArgumentNull("comment")) && repository.comments == old(repository.comments)
      ensures comment.Some? ==>
        && o == OutcomeOf(CreateStep(old(repository.comments), comment))
        && repository.comments == Written(old(repository.comments), CreateStep(old(repository.comments), comment))
    {
      o := ThrowIfNull(comment, "comment");
      if o.Threw? {
        return;
      }
      o := repository.CreateAsync(comment);
    }

    /** GetComment: a null or empty id is refused here, a white-space one by the repository. */
    method GetComment(commentId: Option<string>) returns (r: Try<Option<Comment>>)
      requires Valid()
      ensures IsNullOrEmpty(commentId) ==> r == Raised(if commentId.Null? then ArgumentNull("commentId") else ArgumentInvalid("commentId"))
      ensures !IsNullOrEmpty(commentId) && IsNullOrWhiteSpace(commentId) ==> r == Raised(ArgumentInvalid("itemId"))
      ensures !IsNullOrWhiteSpace(commentId) ==> r == Returned(FindFirst(repository.comments, HasId(commentId.value)))
    {
      var guard := ThrowIfNullOrEmpty(commentId, "commentId");
      if guard.Threw? {
        r := Raised(guard.ex);
        return;
      }
      r := repository.GetAsync(commentId);
    }

    /** GetComments: read-through on "CommentData". */
    method GetComments() returns (r: seq<Comment>)
      requires Valid()
      modifies this
      ensures Valid()
      ensures (r, cache) == GetCommentsStep(old(cache), repository.comments)
    {
      if CacheName in cache {
        r := cache[CacheName];
        return;
      }
      var results := repository.GetAllAsync();
      r := Where(results, NotArchived());
      cache := cache[CacheName := r];
    }

    /** GetCommentsByUser: bypasses the cache. */
    method GetCommentsByUser(userId: Option<string>) returns (r: Try<seq<Comment>>)
      requires Valid()
      ensures IsNullOrEmpty(userId) ==> r == Raised(if userId.Null? then ArgumentNull("userId") else ArgumentInvalid("userId"))
      ensures !IsNullOrEmpty(userId) && IsNullOrWhiteSpace(userId) ==> r == Raised(ArgumentInvalid("userId"))
      ensures !IsNullOrWhiteSpace(userId) ==> r == Returned(Where(repository.comments, ByAuthor(userId.value)))
    {
      var guard := ThrowIfNullOrEmpty(userId, "userId");
      if guard.Threw? {
        r := Raised(guard.ex);
        return;
      }
      r := repository.GetByUserAsync(userId);
    }

    /** GetCommentsByIssue: bypasses the cache. */
    method GetCommentsByIssue(issue: Option<IssueDto>) returns (r: Try<seq<Comment>>)
      requires Valid()
      ensures issue.Null? ==> r == Raised(ArgumentNull("issue"))
      ensures issue.Some? ==> r == Returned(Where(repository.comments, OnIssue(issue.value.id)))
    {
      var guard := ThrowIfNull(issue, "issue");
      if guard.Threw? {
        r := Raised(guard.ex);
        return;
      }
      r := repository.GetByIssueAsync(issue);
    }

    /** UpdateComment: the entry is removed only once the write completed. */
    method UpdateComment(comment: Option<Comment>) returns (o: Outcome)
      requires Valid()
      modifies this, repository
      ensures Valid()
      ensures (repository.comments, cache, o) == UpdateCommentStep(old(cache), old(repository.comments), comment)
    {
      o := ThrowIfNull(comment, "comment");
      if o.Threw? {
        return;
      }
      o := repository.UpdateAsync(comment.value.id, comment.value);
      if o.Threw? {
        return;
      }
      cache := cache - {CacheName};
    }

    /** UpVoteComment: both ids must be non-empty; the entry is removed once the write completed. */
    method UpVoteComment(commentId: Option<string>, userId: Option<string>) returns (o: Outcome)
      requires Valid()
      modifies this, repository
      ensures Valid()
      ensures (repository.comments, cache, o) == UpVoteCommentStep(old(cache), old(repository.comments), commentId, userId)
    {
      o := ThrowIfNullOrEmpty(commentId, "commentId");
      if o.Threw? {
        return;
      }
      o := ThrowIfNullOrEmpty(userId, "userId");
      if o.Threw? {
        return;
      }
      o := repository.UpVoteAsync(commentId.value, userId.value);
      if o.Threw? {
        return;
      }
      cache := cache - {CacheName};
    }
  }

  // ---- Properties of the cache ----

  /** A hit returns the cached list and changes nothing; a miss returns exactly the non-archived
      comments in store order and caches them. Either way the entry is present afterwards. */
  lemma GetCommentsReadsThrough(cache: map<string, seq<Comment>>, docs: seq<Comment>)
    ensures var (r, cache') := GetCommentsStep(cache, docs);
      && CacheName in cache' && cache'[CacheName] == r
      && (CacheName in cache ==> r == cache[CacheName] && cache' == cache)
      && (CacheName !in cache ==>
            && (forall c :: c in r <==> c in docs && !c.archived)
            && IsSubsequence(r, docs)
            && forall key :: key != CacheName ==> (key in cache' <==> key in cache))
  {
    if CacheName !in cache {
      WhereIsSubsequence(docs, NotArchived());
      forall c | c in docs && !c.archived ensures c in Where(docs, NotArchived()) {
        var k :| 0 <= k < |docs| && docs[k] == c;
        assert NotArchived()(docs[k]);
      }
    }
  }

  /** On a coherent cache a read returns what the collection holds now, and the cache stays coherent. */
  lemma CoherentReadIsFresh(cache: map<string, seq<Comment>>, docs: seq<Comment>)
    requires Coherent(cache, docs)
    ensures GetCommentsStep(cache, docs).0 == Where(docs, NotArchived())
    ensures Coherent(GetCommentsStep(cache, docs).1, docs)
  {
  }

  /** Removing the entry makes the cache coherent with any collection: after an archive the next
      read goes to the repository. */
  lemma InvalidationRestoresCoherence(cache: map<string, seq<Comment>>, docs: seq<Comment>)
    ensures Coherent(cache - {CacheName}, docs)
    ensures GetCommentsStep(cache - {CacheName}, docs).0 == Where(docs, NotArchived())
  {
  }

  /** An update or up-vote keeps a coherent cache coherent: a write that completed removes the
      entry, and one refused by a guard or by the store writes nothing. Without a completed write
      the entry is left as it was. */
  lemma WritesKeepCoherence(cache: map<string, seq<Comment>>, docs: seq<Comment>, comment: Option<Comment>,
                            commentId: Option<string>, userId: Option<string>)
    requires Coherent(cache, docs)
    ensures var (docs', cache', o) := UpdateCommentStep(cache, docs, comment);
      Coherent(cache', docs') && (o.Threw? ==> cache' == cache && docs' == docs)
    ensures var (docs', cache', o) := UpVoteCommentStep(cache, docs, commentId, userId);
      Coherent(cache', docs') && (o.Threw? ==> cache' == cache && docs' == docs)
      && (o.Completed? ==> CacheName !in cache')
  {
  }

  /** A create leaves the entry in place, so after creating a non-archived comment a cached list
      no longer shows every non-archived comment: the new one is missing from it. */
  lemma CreateLeavesCacheStale(cache: map<string, seq<Comment>>, docs: seq<Comment>, comment: Comment)
    requires Coherent(cache, docs) && CacheName in cache
    requires CreateStep(docs, Some(comment)).Returned? && !comment.archived
    ensures var docs' := CreateStep(docs, Some(comment)).value;
      && comment in docs' && comment !in GetCommentsStep(cache, docs').0
      && !Coherent(cache, docs')
  {
    var docs' := CreateStep(docs, Some(comment)).value;
    assert docs' == docs + [comment];
    WhereSnoc(docs, comment, NotArchived());
    assert comment in Where(docs', NotArchived());
  }
}

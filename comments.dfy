/**
  The ApiService's CommentRepository over the "comments" collection: argument guards, the
  archive and update by replacement, the issue and author queries, and the up-vote toggle.
*/
module Comments {
  import opened Wrappers
  import opened Store
  import opened Models

  function HasId(id: Id): Comment -> bool { KeyIs(CommentKey, id) }

  function OnIssue(issueId: Id): Comment -> bool { (c: Comment) => c.issue.id == issueId }

  function ByAuthor(userId: Id): Comment -> bool { (c: Comment) => c.author.id == userId }

  /** `UserVotes.Add(userId)`, followed by `Remove(userId)` when `Add` found it already there. */
  function Toggle(votes: set<string>, userId: string): (r: set<string>)
    ensures userId in r <==> userId !in votes
    ensures forall u :: u != userId ==> (u in r <==> u in votes)
  {
    if userId in votes then votes - {userId} else votes + {userId}
  }

  /** The comment after one up-vote by `userId`: only its vote set changes. */
  function UpVoted(c: Comment, userId: string): (r: Comment)
    ensures r.userVotes == Toggle(c.userVotes, userId)
    ensures r.(userVotes := c.userVotes) == c
  {
    c.(userVotes := Toggle(c.userVotes, userId))
  }

  /** `UpdateAsync(itemId, comment)`: replace the document with that id, without upsert. */
  function UpdateStep(docs: seq<Comment>, itemId: Id, comment: Comment): Try<seq<Comment>>
  {
    ReplaceOne(docs, CommentKey, HasId(itemId), comment)
  }

  /** `ArchiveAsync(comment)`: the comment, marked archived, replaces the document with its id. */
  function ArchiveStep(docs: seq<Comment>, comment: Option<Comment>): Try<seq<Comment>>
  {
    if comment.Null? then Raised(ArgumentNull("comment"))
    else UpdateStep(docs, comment.value.id, comment.value.(archived := true))
  }

  /** `CreateAsync(comment)` */
  function CreateStep(docs: seq<Comment>, comment: Option<Comment>): Try<seq<Comment>>
  {
    if comment.Null? then Raised(ArgumentNull("comment")) else InsertOne(docs, CommentKey, comment.value)
  }

  /** `UpVoteAsync(itemId, userId)`: read the comment, toggle the vote, write it back; a missing
      comment is dereferenced as null. */
  function UpVoteStep(docs: seq<Comment>, itemId: Id, userId: string): Try<seq<Comment>>
  {
    match FindFirst(docs, HasId(itemId))
    case Null => Raised(NullReference)
    case Some(comment) => ReplaceOne(docs, CommentKey, HasId(itemId), UpVoted(comment, userId))
  }

  class CommentRepository {
    var comments: seq<Comment>

    ghost predicate Valid()
      reads this
    {
      UniqueKeys(comments, CommentKey)
    }

    constructor (initial: seq<Comment>)
      requires UniqueKeys(initial, CommentKey)
      ensures Valid() && comments == initial
    {
      comments := initial;
    }

    /** ArchiveAsync */
    method ArchiveAsync(comment: Option<Comment>) returns (o: Outcome)
      requires Valid()
      modifies this
      ensures Valid()
      ensures o == OutcomeOf(ArchiveStep(old(comments), comment))
      ensures comments == Written(old(comments), ArchiveStep(old(comments), comment))
    {
      o := ThrowIfNull(comment, "comment");
      if o.Threw? {
        return;
      }
      var archived := comment.value.(archived := true);
      o := UpdateAsync(archived.id, archived);
    }

    /** CreateAsync */
    method CreateAsync(comment: Option<Comment>) returns (o: Outcome)
      requires Valid()
      modifies this
      ensures Valid()
      ensures o == OutcomeOf(CreateStep(old(comments), comment))
      ensures comments == Written(old(comments), CreateStep(old(comments), comment))
    {
      o := ThrowIfNull(comment, "comment");
      if o.Threw? {
        return;
      }
      var r := InsertOne(comments, CommentKey, comment.value);
      if r.Raised? {
        o := Threw(r.ex);
        return;
      }
      InsertKeepsKeysUnique(comments, CommentKey, comment.value);
      comments := r.value;
    }

    /** GetAsync: a null or white-space id is refused; otherwise the comment with the id, or null. */
    method GetAsync(itemId: Option<string>) returns (r: Try<Option<Comment>>)
      ensures r.Raised? <==> IsNullOrWhiteSpace(itemId)
      ensures r.Raised? ==> r.ex == (if itemId.Null? then ArgumentNull("itemId") else ArgumentInvalid("itemId"))
      ensures r.Returned? ==> r.value == FindFirst(comments, HasId(itemId.value))
      ensures r.Returned? ==> (r.value.Null? <==> itemId.value !in Keys(comments, CommentKey))
    {
      var guard := ThrowIfNullOrWhiteSpace(itemId, "itemId");
      if guard.Threw? {
        r := Raised(guard.ex);
        return;
      }
      var result := FindFirst(comments, HasId(itemId.value));
      KeyIsFound(comments, CommentKey, itemId.value);
      r := Returned(result);
    }

    /** GetAllAsync: every comment, in store order. */
    method GetAllAsync() returns (r: seq<Comment>)
      ensures r == comments
    {
      r := comments;
    }

    /** GetByIssueAsync: a null issue is refused; otherwise the comments on that issue, in store order. */
    method GetByIssueAsync(issue: Option<IssueDto>) returns (r: Try<seq<Comment>>)
      ensures r.Raised? <==> issue.Null?
      ensures r.Raised? ==> r.ex == ArgumentNull("issue")
      ensures r.Returned? ==> r.value == Where(comments, OnIssue(issue.value.id))
    {
      var guard := ThrowIfNull(issue, "issue");
      if guard.Threw? {
        r := Raised(guard.ex);
        return;
      }
      r := Returned(Where(comments, OnIssue(issue.value.id)));
    }

    /** GetByUserAsync: a null or white-space id is refused; otherwise the user's comments, in store order. */
    method GetByUserAsync(userId: Option<string>) returns (r: Try<seq<Comment>>)
      ensures r.Raised? <==> IsNullOrWhiteSpace(userId)
      ensures r.Raised? ==> r.ex == (if userId.Null? then ArgumentNull("userId") else ArgumentInvalid("userId"))
      ensures r.Returned? ==> r.value == Where(comments, ByAuthor(userId.value))
    {
      var guard := ThrowIfNullOrWhiteSpace(userId, "userId");
      if guard.Threw? {
        r := Raised(guard.ex);
        return;
      }
      r := Returned(Where(comments, ByAuthor(userId.value)));
    }

    /** UpdateAsync */
    method UpdateAsync(itemId: Id, comment: Comment) returns (o: Outcome)
      requires Valid()
      modifies this
      ensures Valid()
      ensures o == OutcomeOf(UpdateStep(old(comments), itemId, comment))
      ensures comments == Written(old(comments), UpdateStep(old(comments), itemId, comment))
    {
      var r := ReplaceOne(comments, CommentKey, HasId(itemId), comment);
      if r.Raised? {
        o := Threw(r.ex);
        return;
      }
      var i := IndexWhere(comments, HasId(itemId));
      if 0 <= i {
        ReplaceKeepsKeys(comments, CommentKey, i, comment);
      }
      comments := r.value;
      o := Completed;
    }

    /** UpVoteAsync */
    method UpVoteAsync(itemId: Id, userId: string) returns (o: Outcome)
      requires Valid()
      modifies this
      ensures Valid()
      ensures o == OutcomeOf(UpVoteStep(old(comments), itemId, userId))
      ensures comments == Written(old(comments), UpVoteStep(old(comments), itemId, userId))
    {
      var comment := FindFirst(comments, HasId(itemId));
      if comment.Null? {
        o := Threw(NullReference);
        return;
      }
      var votes := comment.value.userVotes;
      var isUpVote := userId !in votes;
      votes := votes + {userId};
      if !isUpVote {
        votes := votes - {userId};
      }
      var updated := comment.value.(userVotes := votes);
      assert updated == UpVoted(comment.value, userId);
      var i := IndexWhere(comments, HasId(itemId));
      ReplaceKeepsKeys(comments, CommentKey, i, updated);
      comments := ReplaceOne(comments, CommentKey, HasId(itemId), updated).value;
      o := Completed;
    }
  }

  // ---- Up-votes ----

  /** Toggling the same user twice restores the vote set. */
  lemma ToggleTwice(votes: set<string>, userId: string)
    ensures Toggle(Toggle(votes, userId), userId) == votes
  {
  }

  /** One up-vote: with no comment of that id it throws and nothing is written; otherwise exactly
      that comment's vote set changes, and only in `userId`'s membership. */
  lemma UpVoteChangesOnlyThatVote(docs: seq<Comment>, itemId: Id, userId: string)
    requires UniqueKeys(docs, CommentKey)
    ensures var r := UpVoteStep(docs, itemId, userId);
      && (r.Raised? <==> itemId !in Keys(docs, CommentKey))
      && (r.Raised? ==> r.ex == NullReference)
      && (r.Returned? ==>
            && |r.value| == |docs| && UniqueKeys(r.value, CommentKey)
            && forall k :: 0 <= k < |docs| ==>
                 if docs[k].id == itemId then
                   && r.value[k].(userVotes := docs[k].userVotes) == docs[k]
                   && (userId in r.value[k].userVotes <==> userId !in docs[k].userVotes)
                   && (forall u :: u != userId ==> (u in r.value[k].userVotes <==> u in docs[k].userVotes))
                 else r.value[k] == docs[k])
  {
    KeyIsFound(docs, CommentKey, itemId);
    var i := IndexWhere(docs, HasId(itemId));
    if 0 <= i {
      ReplaceByKey(docs, CommentKey, itemId, UpVoted(docs[i], userId));
    }
  }

  /** Two consecutive up-votes by the same user on the same comment restore the collection. */
  lemma UpVoteTwiceRestores(docs: seq<Comment>, itemId: Id, userId: string)
    requires UniqueKeys(docs, CommentKey)
    requires itemId in Keys(docs, CommentKey)
    ensures UpVoteStep(docs, itemId, userId).Returned?
    ensures var docs1 := UpVoteStep(docs, itemId, userId).value;
      UpVoteStep(docs1, itemId, userId) == Returned(docs)
  {
    UpVoteChangesOnlyThatVote(docs, itemId, userId);
    var i := IndexWhere(docs, HasId(itemId));
    var docs1 := UpVoteStep(docs, itemId, userId).value;
    assert docs1 == docs[i := UpVoted(docs[i], userId)];
    ReplaceKeepsKeys(docs, CommentKey, i, UpVoted(docs[i], userId));
    FirstWithKey(docs1, CommentKey, i);
    ToggleTwice(docs[i].userVotes, userId);
    assert UpVoted(docs1[i], userId) == docs[i];
    assert docs1[i := docs[i]] == docs;
  }

  // ---- Replacement writes ----

  /** `ArchiveAsync` refuses null; otherwise the stored comment with that id becomes the given
      comment marked archived, and a comment not in the store is not inserted. */
  lemma ArchiveMarksStoredComment(docs: seq<Comment>, comment: Option<Comment>)
    requires UniqueKeys(docs, CommentKey)
    ensures var r := ArchiveStep(docs, comment);
      && (comment.Null? ==> r == Raised(ArgumentNull("comment")))
      && (comment.Some? && comment.value.id !in Keys(docs, CommentKey) ==> r == Returned(docs))
      && (comment.Some? && comment.value.id in Keys(docs, CommentKey) ==>
            r.Returned? && |r.value| == |docs|
            && forall k :: 0 <= k < |docs| ==>
                 r.value[k] == if docs[k].id == comment.value.id then comment.value.(archived := true) else docs[k])
  {
    if comment.Some? {
      ReplaceByKey(docs, CommentKey, comment.value.id, comment.value.(archived := true));
    }
  }

  // ---- Queries ----

  /** `GetByIssueAsync` and `GetByUserAsync` return exactly the comments whose issue id, or author
      id, matches, in store order. */
  lemma QueriesAreExact(docs: seq<Comment>, issueId: Id, userId: Id)
    ensures forall c :: c in Where(docs, OnIssue(issueId)) <==> c in docs && c.issue.id == issueId
    ensures forall c :: c in Where(docs, ByAuthor(userId)) <==> c in docs && c.author.id == userId
    ensures IsSubsequence(Where(docs, OnIssue(issueId)), docs)
    ensures IsSubsequence(Where(docs, ByAuthor(userId)), docs)
  {
    WhereIsSubsequence(docs, OnIssue(issueId));
    WhereIsSubsequence(docs, ByAuthor(userId));
    forall c | c in docs && c.issue.id == issueId ensures c in Where(docs, OnIssue(issueId)) {
      var k :| 0 <= k < |docs| && docs[k] == c;
      assert OnIssue(issueId)(docs[k]);
    }
    forall c | c in docs && c.author.id == userId ensures c in Where(docs, ByAuthor(userId)) {
      var k :| 0 <= k < |docs| && docs[k] == c;
      assert ByAuthor(userId)(docs[k]);
    }
  }
}

/**
  The Web CommentComponent: the up-vote button and its texts and classes, marking a comment as
  the answer, and archiving the comment pending archive. Ids are compared as strings; the empty
  id of a user who is not signed in plays the part of `ObjectId.Empty`, so reading the user's id
  "or Empty when missing" is the id itself.
*/
module CommentComponents {
  import opened Wrappers
  import opened Store
  import opened Models
  import opened Comments
  import opened CommentServices

  // ---- `int.ToString("00")` ----

  function DigitChar(d: nat): (c: char)
    requires d < 10
    ensures '0' <= c <= '9' && (c - '0') as nat == d
  {
    ('0' as int + d) as char
  }

  /** The decimal digits of `n`, most significant first, without leading zeros. */
  function Digits(n: nat): (s: string)
    ensures |s| >= 1 && (n >= 10 ==> s[0] != '0')
    ensures forall i :: 0 <= i < |s| ==> '0' <= s[i] <= '9'
    decreases n
  {
    if n < 10 then [DigitChar(n)] else Digits(n / 10) + [DigitChar(n % 10)]
  }

  /** The number a string of decimal digits denotes. */
  function ValueOf(s: string): nat
    requires forall i :: 0 <= i < |s| ==> '0' <= s[i] <= '9'
  {
    if s == [] then 0 else ValueOf(s[..|s| - 1]) * 10 + (s[|s| - 1] - '0') as nat
  }

  /** The format "00": at least two digits, zero-padded on the left. */
  function Format00(n: nat): (s: string)
    ensures |s| >= 2 && forall i :: 0 <= i < |s| ==> '0' <= s[i] <= '9'
    ensures |s| > 2 ==> s[0] != '0'
  {
    if n < 10 then ['0', DigitChar(n)] else Digits(n)
  }

  lemma {:induction false} DigitsRoundTrip(n: nat)
    ensures ValueOf(Digits(n)) == n
    decreases n
  {
    if n >= 10 {
      DigitsRoundTrip(n / 10);
      assert (Digits(n / 10) + [DigitChar(n % 10)])[..|Digits(n)| - 1] == Digits(n / 10);
    }
  }

  /** "00" formatting loses nothing: the digits read back as the number. */
  lemma Format00RoundTrip(n: nat)
    ensures ValueOf(Format00(n)) == n
  {
    if n < 10 {
      assert ['0', DigitChar(n)][..1] == ['0'];
      assert ['0'][..0] == [];
    } else {
      DigitsRoundTrip(n);
    }
  }

  // ---- Texts and classes ----

  /** GetUpVoteTopText */
  function UpVoteTopText(comment: Comment, loggedInUser: User): (t: string)
  {
    if |comment.userVotes| > 0 then Format00(|comment.userVotes|)
    else if comment.author.id == loggedInUser.id then "Awaiting"
    else "Click To"
  }

  /** GetUpVoteBottomText: plural from two votes on. */
  function UpVoteBottomText(comment: Comment): (t: string)
    ensures t == "UpVotes" <==> |comment.userVotes| > 1
    ensures t == "UpVote" <==> |comment.userVotes| <= 1
  {
    if |comment.userVotes| > 1 then "UpVotes" else "UpVote"
  }

  /** GetVoteCssClass as written: a user who has voted gets the class for not having voted. */
  function VoteCssClassAsWritten(comment: Comment, loggedInUser: User): (c: string)
    ensures c == "comment-no-votes" <==> |comment.userVotes| == 0
    ensures c == "comment-not-voted" <==> loggedInUser.id in comment.userVotes
    ensures c == "comment-voted" <==> |comment.userVotes| > 0 && loggedInUser.id !in comment.userVotes
  {
    if |comment.userVotes| == 0 then "comment-no-votes"
    else if loggedInUser.id in comment.userVotes then "comment-not-voted"
    else "comment-voted"
  }

  /** GetVoteCssClass as intended: "comment-voted" exactly when the user has voted. */
  function VoteCssClass(comment: Comment, loggedInUser: User): (c: string)
    ensures c == "comment-no-votes" <==> |comment.userVotes| == 0
    ensures c == "comment-voted" <==> loggedInUser.id in comment.userVotes
    ensures c == "comment-not-voted" <==> |comment.userVotes| > 0 && loggedInUser.id !in comment.userVotes
  {
    if |comment.userVotes| == 0 then "comment-no-votes"
    else if loggedInUser.id in comment.userVotes then "comment-voted"
    else "comment-not-voted"
  }

  /** GetAnswerStatusCssClass */
  function AnswerStatusCssClass(comment: Comment): (c: string)
    ensures c == "comment-answer-status-answered" <==> comment.isAnswer
    ensures c == "comment-answer-status-unanswered" <==> !comment.isAnswer
  {
    if comment.isAnswer then "comment-answer-status-answered" else "comment-answer-status-unanswered"
  }

  class CommentComponent {
    const service: CommentService
    var item: Comment
    var loggedInUser: User
    var archivingComment: Option<Comment>

    ghost predicate Valid()
      reads this, service, service.repository
    {
      service.Valid()
    }

    constructor (service: CommentService, item: Comment, loggedInUser: User)
      requires service.Valid()
      ensures Valid() && this.service == service && this.item == item && this.loggedInUser == loggedInUser
      ensures archivingComment.Null?
    {
      this.service := service;
      this.item := item;
      this.loggedInUser := loggedInUser;
      archivingComment := Null;
    }

    /** CanMarkAnswer: the logged-in user wrote the issue the comment belongs to. */
    function CanMarkAnswer(): (b: bool)
      reads this
      ensures b <==> item.issue.author.id == loggedInUser.id
    {
      item.issue.author.id == loggedInUser.id
    }

    /** VoteUp: one's own comment is left alone and the service is not called; otherwise the
        shown comment's vote is toggled and the service records the up-vote. */
    method VoteUp(comment: Comment) returns (shown: Comment, o: Outcome)
      requires Valid()
      modifies service, service.repository
      ensures Valid()
      ensures comment.author.id == loggedInUser.id ==>
        && shown == comment && o == Completed
        && service.cache == old(service.cache) && service.repository.comments == old(service.repository.comments)
      ensures comment.author.id != loggedInUser.id ==>
        && shown == UpVoted(comment, loggedInUser.id)
        && (service.repository.comments, service.cache, o)
           == UpVoteCommentStep(old(service.cache), old(service.repository.comments), Some(comment.id), Some(loggedInUser.id))
    {
      if comment.author.id == loggedInUser.id {
        shown := comment;
        o := Completed;
        return;
      }
      var votes := comment.userVotes;
      var added := loggedInUser.id !in votes;
      votes := votes + {loggedInUser.id};
      if !added {
        votes := votes - {loggedInUser.id};
      }
      shown := comment.(userVotes := votes);
      o := service.UpVoteComment(Some(comment.id), Some(loggedInUser.id));
    }

    /** ArchiveComment: the comment pending archive is stamped with the user and archived, then
        saved; the pending slot is cleared once the save completed. With nothing pending it throws. */
    method ArchiveComment() returns (o: Outcome)
      requires Valid()
      modifies this, service, service.repository
      ensures Valid() && item == old(item) && loggedInUser == old(loggedInUser)
      ensures old(archivingComment).Null? ==>
        && o == Threw(NullReference) && archivingComment.Null?
        && service.cache == old(service.cache) && service.repository.comments == old(service.repository.comments)
      ensures old(archivingComment).Some? ==>
        var archived := old(archivingComment).value.(archivedBy := UserDtoOf(loggedInUser), archived := true);
        && (service.repository.comments, service.cache, o)
           == UpdateCommentStep(old(service.cache), old(service.repository.comments), Some(archived))
        && archivingComment == if o.Completed? then Null else Some(archived)
    {
      if archivingComment.Null? {
        o := Threw(NullReference);
        return;
      }
      archivingComment := Some(archivingComment.value.(archivedBy := UserDtoOf(loggedInUser)));
      archivingComment := Some(archivingComment.value.(archived := true));
      o := service.UpdateComment(archivingComment);
      if o.Threw? {
        return;
      }
      archivingComment := Null;
    }

    /** SetAnswer: the comment is marked as the answer, selected by the logged-in user, and saved. */
    method SetAnswer(comment: Comment) returns (shown: Comment, o: Outcome)
      requires Valid()
      modifies service, service.repository
      ensures Valid()
      ensures shown == comment.(isAnswer := true, answerSelectedBy := UserDtoOf(loggedInUser))
      ensures (service.repository.comments, service.cache, o)
        == UpdateCommentStep(old(service.cache), old(service.repository.comments), Some(shown))
    {
      shown := comment.(isAnswer := true);
      shown := shown.(answerSelectedBy := UserDtoOf(loggedInUser));
      o := service.UpdateComment(Some(shown));
    }
  }

  // ---- Properties ----

  /** The top text: the vote count in at least two digits when there are votes, otherwise an
      invitation that depends on whose comment it is. */
  lemma UpVoteTopTextCases(comment: Comment, loggedInUser: User)
    ensures |comment.userVotes| > 0 ==>
      var t := UpVoteTopText(comment, loggedInUser);
      |t| >= 2 && (forall i :: 0 <= i < |t| ==> '0' <= t[i] <= '9') && ValueOf(t) == |comment.userVotes|
    ensures |comment.userVotes| == 0 && comment.author.id == loggedInUser.id ==> UpVoteTopText(comment, loggedInUser) == "Awaiting"
    ensures |comment.userVotes| == 0 && comment.author.id != loggedInUser.id ==> UpVoteTopText(comment, loggedInUser) == "Click To"
  {
    if |comment.userVotes| > 0 {
      Format00RoundTrip(|comment.userVotes|);
    }
  }

  /** The class as written is inverted: a comment the user has voted for, with that vote alone,
      shows "comment-not-voted", where the intended class is "comment-voted". */
  lemma VoteCssClassIsInverted(comment: Comment, loggedInUser: User)
    requires comment.userVotes == {loggedInUser.id}
    ensures VoteCssClassAsWritten(comment, loggedInUser) == "comment-not-voted"
    ensures VoteCssClass(comment, loggedInUser) == "comment-voted"
  {
  }

  /** After the user's up-vote on someone else's comment the intended class says whether the user
      now has a vote on it, and a second up-vote restores the class. */
  lemma VoteCssClassFollowsUpVote(comment: Comment, loggedInUser: User)
    ensures var shown := UpVoted(comment, loggedInUser.id);
      && (VoteCssClass(shown, loggedInUser) == "comment-voted" <==> loggedInUser.id !in comment.userVotes)
      && VoteCssClass(UpVoted(shown, loggedInUser.id), loggedInUser) == VoteCssClass(comment, loggedInUser)
  {
    ToggleTwice(comment.userVotes, loggedInUser.id);
  }
}

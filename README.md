# IssueTracker core, modelled in Dafny

This project models the sequential logic of the IssueTracker web application. The application is a
content and issue tracker over a document database. It has four layers:

- **Repositories** map entities to collections of the store. The article and category repositories
  perform an optimistic-concurrency update. Its filter matches the document id together with the
  expected `version`, or a document that has no `version` field. The replacement is a clone
  carrying `version + 1` and a new `ModifiedOn`. When nothing matches, the update reports a
  conflict with a field-by-field diff.
- **Services** guard their arguments and keep a read-through cache in front of the repositories.
  Each service invalidates its cache entry on its own set of mutations.
- **Shared helpers** are the `Result` value type, the slug generator, the entity-to-collection
  name mapping and the random category pick.
- **UI code-behind** covers up-voting, answer marking, archiving, CSS-class selection, the status
  picker, the profile page's four issue lists and the admin page's approval queue and edit slots.

The store is modelled as a sequence of documents in natural order with distinct ids. This makes
"the first document with this slug" and the order of `Find(...).ToList()` expressible. The driver
calls used (`Find`, `InsertOne`, `ReplaceOne` without upsert, `FindOneAndReplace` with
`ReturnDocument.After`, `UpdateOne`) are pure functions in module `Store`. Each repository,
service and component is a class. Its fields are the state the source mutates. Each method's
`ensures` ties the new state and result to a specification function of the old state (`UpdateStep`,
`GetCommentsStep`, …). The properties are lemmas about those functions.

Conventions:

- A nullable reference is `Option<T>` (`Null` | `Some`).
- A thrown exception is a `Try`/`Outcome` value.
- Ids and user ids are strings, and the empty string stands for `ObjectId.Empty` ("no user").
- The current time and `Random.Shared` are parameters.

Notes on what the code does:

- The article update reports a missing document as a `Concurrency` failure with version -1
  (src/ApiService/Repositories/ArticleRepository.cs:194-209). The category update instead returns
  the caller's category as a success when no document has the id
  (src/ApiService/Repositories/CategoryRepository.cs:177-183).
- On success the article update returns the document that `FindOneAndReplace` hands back, without
  a second read (src/ApiService/Repositories/ArticleRepository.cs:188-192). The category update
  reads the document back by id (src/ApiService/Repositories/CategoryRepository.cs:171-175).
- The expected version is a plain `int` taken from the caller's entity, and nothing keeps it
  non-negative (src/ApiService/Repositories/ArticleRepository.cs:161).
- An exception inside either update becomes a plain failure with error code `None`
  (src/ApiService/Repositories/ArticleRepository.cs:211-214,
  src/ApiService/Repositories/CategoryRepository.cs:192-195). That wrapping is left out of the
  model.

`Profile.razor.cs` orders issues by `DateCreated`, which `Issue` does not have. The model uses the
entity's `CreatedOn`, the evident intent.

## Model

| member | source | states |
|---|---|---|
| `Results.ResultErrorCode.Code` | src/Shared/Abstractions/Result.cs:15-41 | the numeric values are 0..4 and only `None` is 0 |
| `Results.Ok` | src/Shared/Abstractions/Result.cs:107-110 | `Ok()` is a success, not a failure, with no error message, code `None` and no details |
| `Results.Fail` | src/Shared/Abstractions/Result.cs:117-143 | every `Fail` overload is a failure that keeps the message, the code (default `None`) and the details (default null) exactly |
| `Results.OkOf` | src/Shared/Abstractions/Result.cs:151-154 | `Ok<T>(v)` is a success carrying `v`, null allowed, and is well formed |
| `Results.FailOf` | src/Shared/Abstractions/Result.cs:162-190 | a failed `Result<T>` keeps message, code and details and always has the default (null) value |
| `Results.FromValue` | src/Shared/Abstractions/Result.cs:201-204 | success exactly when the value is non-null; null gives the failure "Provided value is null." |
| `Results.FromImplicit` | src/Shared/Abstractions/Result.cs:299-302 | the implicit `T → Result<T>` conversion is always a success with that value, even null |
| `Results.ToValue` | src/Shared/Abstractions/Result.cs:283-293 | the implicit `Result<T> → T` conversion is the value, or the default for a null result |
| `Results.ImplicitRoundTrip` | src/Shared/Abstractions/Result.cs:283-302 | converting a value to a result and back gives the value back |
| `Results.FailureConvertsToNull` | src/Shared/Abstractions/Result.cs:283-293 | a well-formed failure converts to the default value |
| `Articles.Replacement` | src/ApiService/Repositories/ArticleRepository.cs:171-174 | the replacement has version expected+1 and `ModifiedOn = now`, and is otherwise the caller's article |
| `Articles.ArticleRepository.UpdateArticle` | src/ApiService/Repositories/ArticleRepository.cs:154-210 | the new collection and the result are `UpdateStep` of the old collection, and ids stay distinct |
| `Articles.ArticleRepository.ChangedFieldList` | src/ApiService/Repositories/ArticleRepository.cs:197-206 | the six conditional appends build exactly the changed-field list `ChangedFields` |
| `Articles.ChangedFieldsStep` | src/ApiService/Repositories/ArticleRepository.cs:197-206 | one conditional append extends the diff of the first k compared fields to k+1 |
| `Articles.ChangedFieldsExact` | src/ApiService/Repositories/ArticleRepository.cs:197-206 | the diff holds exactly the fields among Title, Introduction, Content, CoverImageUrl, IsPublished, IsArchived that differ, in that order, and is empty iff all six agree |
| `Articles.DifferingMembers` | src/ApiService/Repositories/ArticleRepository.cs:198-206 | a field is reported iff it is compared and differs |
| `Articles.DifferingIsSubsequence` | src/ApiService/Repositories/ArticleRepository.cs:200-205 | reported fields keep the comparison order |
| `Articles.UpdateSucceedsIffFilterMatches` | src/ApiService/Repositories/ArticleRepository.cs:161-192 | the update succeeds iff some stored document has the id and the expected version or no version |
| `Articles.UpdateOnMatch` | src/ApiService/Repositories/ArticleRepository.cs:180-192 | on a match, that document becomes the replacement with stored version expected+1, the result carries it, and every other document is unchanged |
| `Articles.UpdateOnMiss` | src/ApiService/Repositories/ArticleRepository.cs:194-209 | on no match nothing is written (no upsert). The result is a `Concurrency` failure with version -1 and no diff when the id is absent. Otherwise it carries the stored, differing version and the diff |
| `Articles.SecondUpdateWithSameVersionConflicts` | src/ApiService/Repositories/ArticleRepository.cs:161-209 | of two updates with the same expected version, the second conflicts and reports the winner's version |
| `Articles.InsertReadUpdateSucceeds` | src/ApiService/Repositories/ArticleRepository.cs:134-192 | insert with version 0, read back, update: succeeds and stores version 1 |
| `Articles.LegacyDocumentAcceptsAnyVersion` | src/ApiService/Repositories/ArticleRepository.cs:165-168 | a stored document without a version matches whatever version is expected |
| `Articles.ArticleRepository.GetArticleByIdAsync` | src/ApiService/Repositories/ArticleRepository.cs:32-42 | always a success; the value is null iff no article has the id, else the article with that id |
| `Articles.ArticleRepository.ArchiveArticle` | src/ApiService/Repositories/ArticleRepository.cs:221-226 | the collection becomes `ArchiveStep` of the old one, and ids stay distinct |
| `Articles.ArchiveChangesOnlyTheFlag` | src/ApiService/Repositories/ArticleRepository.cs:221-226 | only `IsArchived` of the first article with the slug is set; version, `ModifiedOn` and every other article are unchanged |
| `Articles.StaleUpdateAfterArchiveSucceeds` | src/ApiService/Repositories/ArticleRepository.cs:154-226 | archive does not bump the version, so an update prepared before it still succeeds and un-archives |
| `Categories.Found` | src/ApiService/Repositories/CategoryRepository.cs:37-40 | a lookup fails with "Category not found" exactly when nothing was found, else succeeds with it |
| `Categories.CategoryRepository.GetCategoryByIdAsync` | src/ApiService/Repositories/CategoryRepository.cs:30-41 | success iff a category has the id, and then it is that category; otherwise "Category not found" |
| `Categories.CategoryRepository.GetCategory` | src/ApiService/Repositories/CategoryRepository.cs:61-72 | success iff a category has the slug, and then it is the first one; otherwise "Category not found" |
| `Categories.Replacement` | src/ApiService/Repositories/CategoryRepository.cs:164-167 | the clone has version expected+1 and `ModifiedOn = now`, and is otherwise the caller's category |
| `Categories.CategoryRepository.UpdateCategory` | src/ApiService/Repositories/CategoryRepository.cs:149-191 | the new collection and result are `UpdateStep` of the old collection, including the read-back after a replace |
| `Categories.ReplacementAlwaysModifies` | src/ApiService/Repositories/CategoryRepository.cs:169-171 | the store reports a modified document iff the filter matched, since the replacement's version always differs |
| `Categories.UpdateSucceedsOnMatch` | src/ApiService/Repositories/CategoryRepository.cs:155-175 | on a match the stored document becomes the clone, the result is the re-read document, and other documents are unchanged |
| `Categories.MissingDocumentIsBenign` | src/ApiService/Repositories/CategoryRepository.cs:177-183 | with no document of that id, the store is unchanged and the result is Ok with the caller's input |
| `Categories.VersionMismatchConflicts` | src/ApiService/Repositories/CategoryRepository.cs:185-190 | when the document exists with another version, nothing is written and the result is a `Concurrency` failure. Its details hold the stored version, a null projection and the diff |
| `Categories.ChangedFieldsExact` | src/ApiService/Repositories/CategoryRepository.cs:186-188 | CategoryName and IsArchived are reported iff they differ, CategoryName first |
| `Categories.SecondUpdateWithSameVersionConflicts` | src/ApiService/Repositories/CategoryRepository.cs:155-190 | after one update succeeded, a second with the same expected version conflicts and reports the new version |
| `Categories.CategoryRepository.ArchiveCategory` | src/ApiService/Repositories/CategoryRepository.cs:202-207 | the collection becomes `ArchiveStep` of the old one |
| `Categories.ArchiveChangesOnlyFlagAndTime` | src/ApiService/Repositories/CategoryRepository.cs:202-207 | only `IsArchived` and `ModifiedOn` of the first category with the slug change; the version does not |
| `Helpers.GenerateSlug` | src/Shared/Helpers/Helpers.cs:33-83 | the method's steps and its two loops compute `SlugOf(item)` |
| `Helpers.LastNonWhiteSpaceUnique` | src/Shared/Helpers/Helpers.cs:58-59 | where the while loop stops is the last non-white-space position |
| `Helpers.LastNonWhiteSpace` | src/Shared/Helpers/Helpers.cs:58-59 | the position is not white space and everything after it is |
| `Helpers.BlankGivesEmpty` | src/Shared/Helpers/Helpers.cs:36-39 | null, empty or white-space input gives "" |
| `Helpers.SlugShape` | src/Shared/Helpers/Helpers.cs:42-78 | the slug uses only a–z, 0–9 and `_`, never has two `_` in a row, and never starts with `_` |
| `Helpers.SlugCoreShape` | src/Shared/Helpers/Helpers.cs:45-51 | after trimming no `_` is at either end, and the collapse step never changes anything |
| `Helpers.SlugCoreIsJoinedWords` | src/Shared/Helpers/Helpers.cs:42-51 | before the trailing rule, the slug is the alphanumeric runs of the lowered input, in order, joined by single `_` |
| `Helpers.SlugCoreEmptyIff` | src/Shared/Helpers/Helpers.cs:42-51 | the trimmed slug is empty iff the input has no letter or digit |
| `Helpers.TrailingUnderscoreIff` | src/Shared/Helpers/Helpers.cs:56-78 | the slug ends with `_` iff three things hold. The input has a letter or digit. Its last non-white-space character is not one. Some earlier character is punctuation |
| `Helpers.GetRandomCategoryName` | src/Shared/Helpers/Helpers.cs:93-111 | the name is the drawn one of the nine `MyCategories` names |
| `Helpers.EveryCategoryNameCanBeDrawn` | src/Shared/Helpers/Helpers.cs:96-109 | each of the nine names is drawn for some index |
| `CollectionNames.GetCollectionName` | src/Shared/Helpers/CollectionNames.cs:23-36 | returns iff the name is one of the five entity names; anything else, null included, is an ArgumentException |
| `CollectionNames.KnownCollections` | src/Shared/Helpers/CollectionNames.cs:26-34 | Category→categories, Comment→comments, Issue→issues, Status→statuses, User→users |
| `CollectionNames.CollectionNameInjective` | src/Shared/Helpers/CollectionNames.cs:26-34 | two names mapping to the same collection are equal |
| `Comments.Toggle` | src/ApiService/Features/Comment/CommentRepository.cs:136-141 | the user is in the new vote set iff it was not; every other user's membership is unchanged |
| `Comments.UpVoted` | src/ApiService/Features/Comment/CommentRepository.cs:134-143 | an up-vote changes only the comment's vote set |
| `Comments.ToggleTwice` | src/ApiService/Features/Comment/CommentRepository.cs:136-141 | two toggles by the same user restore the vote set |
| `Comments.CommentRepository.UpVoteAsync` | src/ApiService/Features/Comment/CommentRepository.cs:128-144 | the outcome and the collection are `UpVoteStep` of the old collection |
| `Comments.UpVoteChangesOnlyThatVote` | src/ApiService/Features/Comment/CommentRepository.cs:128-144 | a missing comment throws a null dereference. Otherwise only that comment changes, and only in that user's vote membership |
| `Comments.UpVoteTwiceRestores` | src/ApiService/Features/Comment/CommentRepository.cs:128-144 | two consecutive up-votes by one user restore the collection |
| `Comments.CommentRepository.ArchiveAsync` | src/ApiService/Features/Comment/CommentRepository.cs:25-33 | null is refused; otherwise the outcome and collection are `ArchiveStep` |
| `Comments.ArchiveMarksStoredComment` | src/ApiService/Features/Comment/CommentRepository.cs:25-33 | the stored comment with that id becomes the given one with `Archived = true`; an absent id inserts nothing |
| `Comments.CommentRepository.CreateAsync` | src/ApiService/Features/Comment/CommentRepository.cs:40-45 | null is refused; otherwise the comment is appended unless its id is taken |
| `Comments.CommentRepository.GetAsync` | src/ApiService/Features/Comment/CommentRepository.cs:52-63 | a null or white-space id throws; otherwise the comment with the id, null iff absent |
| `Comments.CommentRepository.GetAllAsync` | src/ApiService/Features/Comment/CommentRepository.cs:69-76 | every comment in store order |
| `Comments.CommentRepository.GetByIssueAsync` | src/ApiService/Features/Comment/CommentRepository.cs:83-92 | a null issue throws; otherwise the comments on that issue in store order |
| `Comments.CommentRepository.GetByUserAsync` | src/ApiService/Features/Comment/CommentRepository.cs:99-106 | a null or white-space id throws; otherwise the user's comments in store order |
| `Comments.CommentRepository.UpdateAsync` | src/ApiService/Features/Comment/CommentRepository.cs:113-120 | the document with that id is replaced, without upsert |
| `Comments.QueriesAreExact` | src/ApiService/Features/Comment/CommentRepository.cs:83-106 | the two queries return exactly the comments whose issue id or author id matches, in store order |
| `Issues.IssueRepository.ArchiveAsync` | src/ApiService/Features/Issue/IssueRepository.cs:25-31 | the outcome and collection are `ArchiveStep` |
| `Issues.ArchiveMarksStoredIssue` | src/ApiService/Features/Issue/IssueRepository.cs:25-31 | the stored issue with that id becomes the given one with `Archived = true`; an absent id inserts nothing |
| `Issues.IssueRepository.CreateAsync` | src/ApiService/Features/Issue/IssueRepository.cs:38-41 | the issue is appended unless its id is taken |
| `Issues.IssueRepository.GetAsync` | src/ApiService/Features/Issue/IssueRepository.cs:48-57 | the issue with the id, null iff absent |
| `Issues.IssueRepository.GetAllAsync` | src/ApiService/Features/Issue/IssueRepository.cs:63-70 | every issue in store order |
| `Issues.IssueRepository.GetWaitingForApprovalAsync` | src/ApiService/Features/Issue/IssueRepository.cs:76-83 | the issues that are neither approved nor rejected, in `GetAllAsync` order |
| `Issues.IssueRepository.GetApprovedAsync` | src/ApiService/Features/Issue/IssueRepository.cs:89-96 | the approved, non-rejected issues, in `GetAllAsync` order |
| `Issues.ApprovalQueriesAreExact` | src/ApiService/Features/Issue/IssueRepository.cs:76-96 | membership in each query is exactly its predicate, archived issues included, and order is kept |
| `Issues.ApprovalQueriesPartitionNonRejected` | src/ApiService/Features/Issue/IssueRepository.cs:80-93 | waiting and approved are disjoint and together are exactly the non-rejected issues |
| `Issues.ApprovalQueriesCount` | src/ApiService/Features/Issue/IssueRepository.cs:80-93 | their lengths add up to the number of non-rejected issues |
| `Issues.IssueRepository.GetByUserAsync` | src/ApiService/Features/Issue/IssueRepository.cs:103-108 | the user's issues in store order |
| `Issues.ByUserIsExact` | src/ApiService/Features/Issue/IssueRepository.cs:103-108 | exactly the issues whose author id matches, in store order |
| `Issues.IssueRepository.UpdateAsync` | src/ApiService/Features/Issue/IssueRepository.cs:115-122 | the document with that id is replaced, without upsert |
| `Issues.UpdateReplacesOnlyThatId` | src/ApiService/Features/Issue/IssueRepository.cs:115-122 | only the document with that id changes and nothing is inserted. A replacement with another id is refused by the store |
| `CommentServices.CommentService.GetComments` | src/ApiService/Features/Comment/CommentService.cs:67-83 | result and cache are `GetCommentsStep`: a hit returns the entry; a miss caches the non-archived comments |
| `CommentServices.GetCommentsReadsThrough` | src/ApiService/Features/Comment/CommentService.cs:67-83 | a hit returns the cached list and changes nothing. A miss returns exactly the non-archived comments in store order and caches them |
| `CommentServices.CoherentReadIsFresh` | src/ApiService/Features/Comment/CommentService.cs:67-83 | on a coherent cache a read returns the current non-archived comments |
| `CommentServices.CommentService.ArchiveComment` | src/ApiService/Features/Comment/CommentService.cs:27-34 | null is refused; otherwise "CommentData" is removed before the repository archive |
| `CommentServices.InvalidationRestoresCoherence` | src/ApiService/Features/Comment/CommentService.cs:31 | after the entry is removed, the next read is fresh |
| `CommentServices.CommentService.CreateComment` | src/ApiService/Features/Comment/CommentService.cs:41-46 | null is refused; the cache is not touched |
| `CommentServices.CreateLeavesCacheStale` | src/ApiService/Features/Comment/CommentService.cs:41-46 | after a create, a cached list misses the new non-archived comment |
| `CommentServices.CommentService.GetComment` | src/ApiService/Features/Comment/CommentService.cs:54-61 | a null or empty id is refused here and a white-space one by the repository; otherwise the comment or null |
| `CommentServices.CommentService.GetCommentsByUser` | src/ApiService/Features/Comment/CommentService.cs:91-98 | a null or empty id is refused; the result is the repository query, bypassing the cache |
| `CommentServices.CommentService.GetCommentsByIssue` | src/ApiService/Features/Comment/CommentService.cs:106-113 | a null issue is refused; the result is the repository query, bypassing the cache |
| `CommentServices.CommentService.UpdateComment` | src/ApiService/Features/Comment/CommentService.cs:120-127 | null is refused; "CommentData" is removed once the write completed |
| `CommentServices.CommentService.UpVoteComment` | src/ApiService/Features/Comment/CommentService.cs:135-144 | empty ids are refused; "CommentData" is removed once the up-vote completed |
| `CommentServices.WritesKeepCoherence` | src/ApiService/Features/Comment/CommentService.cs:120-144 | update and up-vote keep a coherent cache coherent; a completed up-vote leaves no entry |
| `IssueServices.IssueService.GetIssues` | src/ApiService/Features/Issue/IssueService.cs:67-83 | read-through on "IssueData": a hit returns the entry, a miss stores the full list |
| `IssueServices.IssueService.GetIssuesByUser` | src/ApiService/Features/Issue/IssueService.cs:91-109 | a null or empty id is refused; otherwise read-through on a key equal to the user id |
| `IssueServices.CoherentReadsAreFresh` | src/ApiService/Features/Issue/IssueService.cs:67-109 | on a coherent cache both reads return current data and keep the cache coherent |
| `IssueServices.UserKeyCanAliasAllIssues` | src/ApiService/Features/Issue/IssueService.cs:95-106 | a user id spelled "IssueData" reads the all-issues entry |
| `IssueServices.IssueService.ArchiveIssue` | src/ApiService/Features/Issue/IssueService.cs:27-34 | null is refused; "IssueData" is removed and per-user entries are kept |
| `IssueServices.ArchiveLeavesUserEntryStale` | src/ApiService/Features/Issue/IssueService.cs:27-34 | after an archive, a cached per-user list still shows the issue unarchived |
| `IssueServices.IssueService.CreateIssue` | src/ApiService/Features/Issue/IssueService.cs:41-46 | null is refused; no cache entry is touched |
| `IssueServices.CreateLeavesCacheStale` | src/ApiService/Features/Issue/IssueService.cs:41-46 | after a create, a cached all-issues list misses the new issue |
| `IssueServices.IssueService.GetIssue` | src/ApiService/Features/Issue/IssueService.cs:54-61 | a null or empty id is refused; otherwise the issue or null |
| `IssueServices.IssueService.GetIssuesWaitingForApproval` | src/ApiService/Features/Issue/IssueService.cs:115-120 | the repository's waiting query, bypassing the cache |
| `IssueServices.IssueService.GetApprovedIssues` | src/ApiService/Features/Issue/IssueService.cs:126-131 | the repository's approved query, bypassing the cache |
| `IssueServices.IssueService.UpdateIssue` | src/ApiService/Features/Issue/IssueService.cs:138-145 | null is refused; "IssueData" is removed once the write completed, and per-user entries are kept |
| `CategoryServices.CategoryService.GetCategories` | src/ApiService/Features/Category/CategoryService.cs:70-86 | read-through on "CategoryData". Archived categories are kept. The collection is unchanged. By the service invariant, with this service as the only writer, the result is the current collection |
| `CategoryServices.InvalidateThenReadIsFresh` | src/ApiService/Features/Category/CategoryService.cs:70-86 | a read after removal fills the entry from the current collection |
| `CategoryServices.ReadKeepsArchived` | src/ApiService/Features/Category/CategoryService.cs:79-81 | archived categories appear in the list |
| `CategoryServices.CategoryService.CreateCategory` | src/ApiService/Features/Category/CategoryService.cs:27-34 | null is refused; the entry is removed, then the category is inserted |
| `CategoryServices.CategoryService.ArchiveCategory` | src/ApiService/Features/Category/CategoryService.cs:42-49 | null is refused; the entry is removed, then the archived category replaces the stored one |
| `CategoryServices.CategoryService.GetCategory` | src/ApiService/Features/Category/CategoryService.cs:57-64 | a null or empty id is refused; otherwise the category or null |
| `CategoryServices.CategoryService.UpdateCategory` | src/ApiService/Features/Category/CategoryService.cs:94-101 | null is refused; the entry is removed, then the category replaces the stored one |
| `StatusServices.StatusService.GetStatuses` | src/ApiService/Features/Status/StatusService.cs:79-95 | read-through on "StatusData": a hit returns the entry, a miss stores the full list; the collection is unchanged |
| `StatusServices.StatusService.ArchiveStatus` | src/ApiService/Features/Status/StatusService.cs:37-44 | null is refused; the only write that removes the entry |
| `StatusServices.ArchiveThenReadIsFresh` | src/ApiService/Features/Status/StatusService.cs:37-44 | a read after an archive is fresh |
| `StatusServices.StatusService.CreateStatus` | src/ApiService/Features/Status/StatusService.cs:52-57 | null is refused; the cache is unchanged |
| `StatusServices.CreateLeavesCacheStale` | src/ApiService/Features/Status/StatusService.cs:52-57 | after a create, a cached list misses the new status |
| `StatusServices.StatusService.GetStatus` | src/ApiService/Features/Status/StatusService.cs:66-73 | a null or empty id is refused; otherwise the status or null |
| `StatusServices.StatusService.UpdateStatus` | src/ApiService/Features/Status/StatusService.cs:103-108 | null is refused; the cache is unchanged |
| `StatusServices.UpdateLeavesCacheStale` | src/ApiService/Features/Status/StatusService.cs:103-108 | after an update, a read still returns the old status |
| `StatusServices.StatusService.DeleteStatus` | src/ApiService/Features/Status/StatusService.cs:116-121 | null is refused. The effect equals the repository archive, and the cache is unchanged |
| `StatusServices.DeleteLeavesCacheStale` | src/ApiService/Features/Status/StatusService.cs:116-121 | after a delete, the store holds the status archived while a read returns it unarchived |
| `CommentComponents.CommentComponent.CanMarkAnswer` | src/Web/Components/Shared/CommentComponent.razor.cs:29-37 | true iff the issue author's id equals the logged-in user's id |
| `CommentComponents.CommentComponent.VoteUp` | src/Web/Components/Shared/CommentComponent.razor.cs:43-62 | one's own comment: nothing changes and no service call is made. Otherwise the user's vote is toggled and the service up-vote runs |
| `CommentComponents.UpVoteTopTextCases` | src/Web/Components/Shared/CommentComponent.razor.cs:69-83 | with votes, the count in at least two digits; otherwise "Awaiting" for one's own comment and "Click To" for anyone else's |
| `CommentComponents.Format00RoundTrip` | src/Web/Components/Shared/CommentComponent.razor.cs:73 | the "00" format reads back as the number |
| `CommentComponents.UpVoteBottomText` | src/Web/Components/Shared/CommentComponent.razor.cs:90-93 | "UpVotes" iff more than one vote, else "UpVote" |
| `CommentComponents.VoteCssClassAsWritten` | src/Web/Components/Shared/CommentComponent.razor.cs:100-108 | "comment-no-votes" iff no votes, "comment-not-voted" iff the user has voted, "comment-voted" otherwise |
| `CommentComponents.VoteCssClassIsInverted` | src/Web/Components/Shared/CommentComponent.razor.cs:107 | a comment carrying only the user's vote gets "comment-not-voted" as written and "comment-voted" as intended |
| `CommentComponents.VoteCssClass` | src/Web/Components/Shared/CommentComponent.razor.cs:100-108 | intended class: "comment-voted" iff the user has voted |
| `CommentComponents.VoteCssClassFollowsUpVote` | src/Web/Components/Shared/CommentComponent.razor.cs:56-61 | after an up-vote the intended class says whether the user now has a vote; a second up-vote restores it |
| `CommentComponents.AnswerStatusCssClass` | src/Web/Components/Shared/CommentComponent.razor.cs:139-142 | the answered class iff `IsAnswer` |
| `CommentComponents.CommentComponent.ArchiveComment` | src/Web/Components/Shared/CommentComponent.razor.cs:114-120 | sets `ArchivedBy` and `Archived` and saves. The pending slot is cleared after the save; with nothing pending it throws |
| `CommentComponents.CommentComponent.SetAnswer` | src/Web/Components/Shared/CommentComponent.razor.cs:127-132 | sets `IsAnswer` and `AnswerSelectedBy` and saves |
| `IssueComponents.IssueCategoryCssClass` | src/Web/Components/Shared/IssueComponent.razor.cs:25-38 | "issue-entry-category-none" iff the name is not one of the five styled names |
| `IssueComponents.CategoryClassIsLoweredName` | src/Web/Components/Shared/IssueComponent.razor.cs:27-33 | each styled category maps to the prefix plus its lower-cased name |
| `IssueComponents.IssueStatusCssClass` | src/Web/Components/Shared/IssueComponent.razor.cs:45-57 | "issue-entry-status-none" iff the name is not one of the four styled statuses |
| `IssueComponents.StatusClassIsLoweredName` | src/Web/Components/Shared/IssueComponent.razor.cs:47-52 | each styled status maps to the prefix plus its lower-cased name |
| `IssueComponents.IssueComponent.ArchiveIssue` | src/Web/Components/Shared/IssueComponent.razor.cs:71-77 | sets `ArchivedBy` and `Archived` and saves. The pending slot is cleared after the save; with nothing pending it throws |
| `SetStatusComponents.SelectedStatus` | src/Web/Components/Shared/SetStatusComponent.razor.cs:38-49 | a recognised token with no match throws `First`'s error. Any other selection keeps the current status |
| `SetStatusComponents.RecognisedTokenTakesFirstMatch` | src/Web/Components/Shared/SetStatusComponent.razor.cs:40-47 | a recognised token takes the first status whose name equals it ignoring case |
| `SetStatusComponents.CapitalisedTokenIsIgnored` | src/Web/Components/Shared/SetStatusComponent.razor.cs:38-48 | the switch is case-sensitive: "Answered", "InWork" or null keep the status |
| `SetStatusComponents.SetStatusComponent.OnInitializedAsync` | src/Web/Components/Shared/SetStatusComponent.razor.cs:28-31 | the statuses are the status service's cached read; the status collection and the component's other state are unchanged |
| `SetStatusComponents.SetStatusComponent.CompleteSetStatus` | src/Web/Components/Shared/SetStatusComponent.razor.cs:36-61 | assigns the selected status, resets the selection to null and saves; when `First` throws nothing changes |
| `ProfilePages.SortByCreatedDesc` | src/Web/Components/Pages/Profile.razor.cs:47 | the ordered list is a permutation of the issues |
| `ProfilePages.SortIsNewestFirstPermutation` | src/Web/Components/Pages/Profile.razor.cs:47 | the ordered list is newest first and a permutation |
| `ProfilePages.EveryIssueIsListed` | src/Web/Components/Pages/Profile.razor.cs:49-61 | every issue lands in at least one of the four lists |
| `ProfilePages.ListsOverlapOnlyArchivedPending` | src/Web/Components/Pages/Profile.razor.cs:49-61 | approved and rejected are each disjoint from the other lists. Archived and pending share exactly the archived, unapproved, non-rejected issues |
| `ProfilePages.ListsKeepOrder` | src/Web/Components/Pages/Profile.razor.cs:47-61 | each list is a subsequence of the sorted issues and newest first |
| `ProfilePages.ProfilePage.OnInitializedAsync` | src/Web/Components/Pages/Profile.razor.cs:37-63 | a blank user id throws and changes nothing. Otherwise the comments come from the user query and the issues from the per-user cached read. With no issues none of the five lists is assigned; otherwise all five are |
| `ProfilePages.ProfilePage.Show` | src/Web/Components/Pages/Profile.razor.cs:47-61 | the issues newest first, with approved, archived, pending and rejected drawn from that order |
| `AdminPages.RemoveFirst` | src/Web/Components/Pages/Admin.razor.cs:44 | `List.Remove` takes out one occurrence and leaves a list without it unchanged |
| `AdminPages.RemoveFirstCutsAtFirst` | src/Web/Components/Pages/Admin.razor.cs:44 | the removed element is the first occurrence |
| `AdminPages.RemoveFirstOfDistinct` | src/Web/Components/Pages/Admin.razor.cs:57 | in a queue with distinct ids, exactly that issue leaves and the order of the rest is kept |
| `AdminPages.AdminPage.OnInitializedAsync` | src/Web/Components/Pages/Admin.razor.cs:31-34 | the queue is the waiting issues, with distinct ids |
| `AdminPages.AdminPage.ApproveIssue` | src/Web/Components/Pages/Admin.razor.cs:40-47 | sets `ApprovedForRelease`, removes the issue from the queue and saves it |
| `AdminPages.AdminPage.RejectIssue` | src/Web/Components/Pages/Admin.razor.cs:53-60 | sets `Rejected`, removes the issue from the queue and saves it |
| `AdminPages.DecidedIssueLeavesQueue` | src/Web/Components/Pages/Admin.razor.cs:40-60 | after an approval or rejection is saved, the fresh waiting query no longer holds that id and keeps every other issue |
| `AdminPages.AdminPage.EditTitle` | src/Web/Components/Pages/Admin.razor.cs:66-71 | the title slot takes the id, the title is buffered and the description slot is cleared |
| `AdminPages.AdminPage.SaveTitle` | src/Web/Components/Pages/Admin.razor.cs:77-82 | the title slot is cleared and the buffered title is saved into the issue |
| `AdminPages.AdminPage.EditDescription` | src/Web/Components/Pages/Admin.razor.cs:88-93 | the description slot takes the id, the description is buffered and the title slot is cleared |
| `AdminPages.AdminPage.SaveDescription` | src/Web/Components/Pages/Admin.razor.cs:99-104 | the description slot is cleared and the buffered description is saved into the issue |

The admin page's invariant is its `Valid()`, which every method keeps: at most one of the two edit
slots is non-empty.

## Left out

- Exceptions caught inside the repositories (`catch` blocks that turn driver errors into
  "Error …" failures) are not modelled. The only driver errors modelled are a duplicate `_id` on
  insert and a replacement whose `_id` differs from the matched document's.
- `new ObjectId(itemId)` throws on an id that is not 24 hex digits. Ids are plain strings here,
  so that parse failure is not modelled.
- Concurrent racing of updates is not modelled. Atomicity belongs to the driver, so the model is
  sequential.
- The current time (`DateTimeOffset.UtcNow`) is a parameter. That `ModifiedOn` grows
  strictly across updates is therefore not stated.
- Cache expiry (1 minute, 1 day) is not modelled. A missing entry stands for an expired one. Each
  service has its own cache map, although the source shares one `IMemoryCache`.
- Helpers.GenerateSlug: `ToLowerInvariant`, `char.IsLetterOrDigit` and `char.IsWhiteSpace` are
  modelled on ASCII only. Other characters count as neither letters nor white space.
- Wrappers.IsWhiteSpace: `char.IsWhiteSpace` is modelled as space and tab through carriage return
  only. Every null-or-white-space guard therefore accepts an id such as "\u00A0" that the source
  refuses. This affects `Comments.CommentRepository.GetAsync` and
  `Comments.CommentRepository.GetByUserAsync` (CommentRepository.cs:54,101), and also
  `CommentServices.CommentService.GetComment` and
  `CommentServices.CommentService.GetCommentsByUser`, which the profile page's initialisation
  uses.
- SetStatusComponents.EqualsIgnoreCase: `StringComparison.CurrentCultureIgnoreCase` is modelled as
  ASCII case folding. Culture-specific folding of other letters is not modelled.
- `Random.Shared.Next` is a parameter of `GetRandomCategoryName`. `GetStaticDate` returns a
  constant and is not modelled.
- The repositories' other reads and inserts (`GetArticleBySlugAsync`, `GetArticles`,
  `AddArticle`, `GetCategories`, `AddCategory`) are not modelled. The thin category, status and
  user repositories and the user service appear only as the operations the services call.
- Web.Infrastructure.ConcurrencyConflictInfo is not part of this model. Its fields are taken from
  the two call sites, and `ToDto(canEdit: false)` becomes a pair of the article and `false`.
- Aliasing between UI objects is not modelled. Components return the comment or issue they
  mutate as a value, and `List.Remove` compares by value instead of by reference. With distinct
  ids the two agree (`AdminPages.RemoveFirstOfDistinct`).
- Comments.CommentRepository.ArchiveAsync, Issues.IssueRepository.ArchiveAsync and the services'
  `ArchiveComment`, `ArchiveIssue`, `ArchiveCategory`, `ArchiveStatus` and `DeleteStatus` mark
  only the stored copy as archived. In the source the repositories set `Archived = true` on the
  caller's own object as well (CommentRepository.cs:30, IssueRepository.cs:28, and the same line
  in the category and status repositories). The caller's object is a value here.
- StatusServices.CreateLeavesCacheStale, UpdateLeavesCacheStale and DeleteLeavesCacheStale, and
  the invariant behind `CategoryServices.CategoryService.GetCategories`, assume sequential calls
  with the service as the only writer to its cache entry. In the source every cached read hands
  back the cached `List` object itself. The status and category admin pages add to and remove from
  that list directly (Statuses.razor.cs:74,100 and Categories.razor.cs:72,98), which edits the
  cache entry; such writes through a returned list are not modelled.
- `SaveStatus` is an `async void` call whose outcome is lost. The model saves before returning and
  does not report the outcome. The `IssueChanged` callback, rendering, navigation and the
  authentication lookup of the logged-in user (a parameter here) are left out.
- ProfilePages.SortByCreatedDesc: the stability of `OrderByDescending` for equal creation times
  is not stated; only newest-first order and permutation are.

## Findings

| source | as written | input that shows it | evidently intended | confidence | as-written member | corrected member |
|---|---|---|---|---|---|---|
| src/Web/Components/Shared/CommentComponent.razor.cs:107 | a user who has voted gets "comment-not-voted", and one who has not gets "comment-voted" | a comment whose only vote is the logged-in user's | "comment-voted" exactly when the logged-in user is in the vote set | medium, not executed | `CommentComponents.VoteCssClassAsWritten` (with `CommentComponents.VoteCssClassIsInverted`) | `CommentComponents.VoteCssClass` (with `CommentComponents.VoteCssClassFollowsUpVote`) |

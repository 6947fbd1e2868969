/**
  ArticleRepository: reads, the optimistic-concurrency update and the archive of articles.

  The collection is `articles`, in natural order, with distinct ids. A stored document's
  `version` field may be absent (documents written before versioning); the C# `int Version`
  property of such a document reads as 0.
*/
module Articles {
  import opened Wrappers
  import opened Store
  import opened Results

  /** The fields of an article that the repository reads or writes (the Article class is not part
      of this model; its fields are those the repository names). */
  datatype Article = Article(
    id: Id,
    slug: string,
    title: string,
    introduction: string,
    content: string,
    coverImageUrl: string,
    isPublished: bool,
    isArchived: bool,
    version: Option<int>,
    modifiedOn: Option<Timestamp>)
  {
    /** The `int Version` property. */
    function Version(): (v: int)
      ensures version.Some? ==> v == version.value
      ensures version.Null? ==> v == 0
    {
      version.OrElse(0)
    }
  }

  /** `server.ToDto(canEdit: false)`: the projection of the stored document put in a conflict report. */
  datatype ArticleDto = ArticleDto(article: Article, canEdit: bool)

  type ArticleResult = ResultOf<Article, ConflictInfo<ArticleDto, ArticleField>>

  function ArticleKey(a: Article): Id { a.id }

  function HasId(id: Id): Article -> bool { (a: Article) => a.id == id }

  function HasSlug(slug: string): Article -> bool { (a: Article) => a.slug == slug }

  /** The update filter: the same id, and a stored version equal to the expected one or absent. */
  predicate MatchesUpdate(post: Article, stored: Article)
  {
    stored.id == post.id && (stored.version == Some(post.Version()) || stored.version.Null?)
  }

  function UpdateFilter(post: Article): Article -> bool { (a: Article) => MatchesUpdate(post, a) }

  /** The document written by a successful update: a copy of the caller's article with the next
      version and the new modification time. */
  function Replacement(post: Article, now: Timestamp): (a: Article)
    ensures a.version == Some(post.Version() + 1) && a.modifiedOn == Some(now)
    ensures a.(version := post.version, modifiedOn := post.modifiedOn) == post
  {
    post.(version := Some(post.Version() + 1), modifiedOn := Some(now))
  }

  /** The fields compared when reporting a conflict; `Name` is the property name reported. */
  datatype ArticleField = Title | Introduction | Content | CoverImageUrl | IsPublished | IsArchived
  {
    function Name(): (n: string)
      ensures n != ""
    {
      match this
      case Title => "Title"
      case Introduction => "Introduction"
      case Content => "Content"
      case CoverImageUrl => "CoverImageUrl"
      case IsPublished => "IsPublished"
      case IsArchived => "IsArchived"
    }
  }

  /** The compared fields, in the order they are reported. */
  const ArticleFields: seq<ArticleField> := [Title, Introduction, Content, CoverImageUrl, IsPublished, IsArchived]

  /** Whether the stored document and the caller's copy differ on the field. */
  predicate FieldDiffers(server: Article, post: Article, field: ArticleField)
  {
    match field
    case Title => server.title != post.title
    case Introduction => server.introduction != post.introduction
    case Content => server.content != post.content
    case CoverImageUrl => server.coverImageUrl != post.coverImageUrl
    case IsPublished => server.isPublished != post.isPublished
    case IsArchived => server.isArchived != post.isArchived
  }

  /** The fields of `fields` on which the two articles differ, in the order of `fields`. */
  function Differing(fields: seq<ArticleField>, server: Article, post: Article): (r: seq<ArticleField>)
    ensures |r| <= |fields|
  {
    if fields == [] then []
    else (if FieldDiffers(server, post, fields[0]) then [fields[0]] else []) + Differing(fields[1..], server, post)
  }

  /** The changed-field list of a conflict report. */
  function ChangedFields(server: Article, post: Article): seq<ArticleField>
  {
    Differing(ArticleFields, server, post)
  }

  /** A field is in the list exactly when it is among those compared and the articles differ on it. */
  lemma {:induction false} DifferingMembers(fields: seq<ArticleField>, server: Article, post: Article, f: ArticleField)
    ensures f in Differing(fields, server, post) <==> f in fields && FieldDiffers(server, post, f)
  {
    if fields != [] {
      DifferingMembers(fields[1..], server, post, f);
      assert fields == [fields[0]] + fields[1..];
    }
  }

  /** The list keeps the order of the compared fields. */
  lemma {:induction false} DifferingIsSubsequence(fields: seq<ArticleField>, server: Article, post: Article)
    ensures IsSubsequence(Differing(fields, server, post), fields)
  {
    if fields != [] {
      DifferingIsSubsequence(fields[1..], server, post);
      var rest := Differing(fields[1..], server, post);
      if FieldDiffers(server, post, fields[0]) {
        assert ([fields[0]] + rest)[1..] == rest;
      } else {
        assert Differing(fields, server, post) == rest;
        SubsequenceCons(rest, fields[1..], fields[0]);
        assert [fields[0]] + fields[1..] == fields;
      }
    }
  }

  /** Extending the compared fields by one at the end appends it exactly when the articles differ on it. */
  lemma {:induction false} DifferingSnoc(fields: seq<ArticleField>, f: ArticleField, server: Article, post: Article)
    ensures Differing(fields + [f], server, post) ==
      Differing(fields, server, post) + (if FieldDiffers(server, post, f) then [f] else [])
  {
    if fields == [] {
      assert [] + [f] == [f];
      assert [f][1..] == [];
    } else {
      assert (fields + [f])[1..] == fields[1..] + [f];
      DifferingSnoc(fields[1..], f, server, post);
    }
  }

  /** The list holds exactly the compared fields that differ, in the order of `ArticleFields`, and it
      is empty exactly when the two articles agree on all six. */
  lemma ChangedFieldsExact(server: Article, post: Article)
    ensures forall f :: f in ChangedFields(server, post) <==> f in ArticleFields && FieldDiffers(server, post, f)
    ensures IsSubsequence(ChangedFields(server, post), ArticleFields)
    ensures ChangedFields(server, post) == [] <==>
      server.(version := post.version, modifiedOn := post.modifiedOn, id := post.id, slug := post.slug) == post
  {
    var c := ChangedFields(server, post);
    DifferingIsSubsequence(ArticleFields, server, post);
    forall f ensures f in c <==> f in ArticleFields && FieldDiffers(server, post, f) {
      DifferingMembers(ArticleFields, server, post, f);
    }
    if c == [] {
      assert !FieldDiffers(server, post, Title) && !FieldDiffers(server, post, Introduction);
      assert !FieldDiffers(server, post, Content) && !FieldDiffers(server, post, CoverImageUrl);
      assert !FieldDiffers(server, post, IsPublished) && !FieldDiffers(server, post, IsArchived);
    } else {
      assert c[0] in c;
    }
  }

  /** One more compared field, as the conflict branch of an update takes them: appending the
      field exactly when the articles differ on it extends the list for the prefix of fields. */
  lemma ChangedFieldsStep(server: Article, post: Article, k: nat, f: ArticleField, before: seq<ArticleField>, after: seq<ArticleField>)
    requires k < |ArticleFields| && f == ArticleFields[k]
    requires before == Differing(ArticleFields[..k], server, post)
    requires after == if FieldDiffers(server, post, f) then before + [f] else before
    ensures after == Differing(ArticleFields[..k + 1], server, post)
  {
    assert ArticleFields[..k + 1] == ArticleFields[..k] + [f];
    DifferingSnoc(ArticleFields[..k], f, server, post);
  }

  /** The list for all six fields is the changed-field list. */
  lemma ChangedFieldsAll(server: Article, post: Article, changed: seq<ArticleField>)
    requires changed == Differing(ArticleFields[..6], server, post)
    ensures changed == ChangedFields(server, post)
  {
    assert ArticleFields[..6] == ArticleFields;
  }

  const ConflictMessage := "Concurrency conflict: article was modified by another process"

  /** The details of a conflict: the stored version (-1 when no document has the id), the
      projection of the stored document, and the fields that differ (none without a document). */
  function ConflictReport(docs: seq<Article>, post: Article): (c: ConflictInfo<ArticleDto, ArticleField>)
  {
    match FindFirst(docs, HasId(post.id))
    case Null => ConflictInfo(-1, Null, [])
    case Some(server) => ConflictInfo(server.Version(), Some(ArticleDto(server, false)), ChangedFields(server, post))
  }

  /** One `UpdateArticle` call on the collection: the new collection and the result. */
  function UpdateStep(docs: seq<Article>, post: Article, now: Timestamp): (seq<Article>, ArticleResult)
  {
    var i := IndexWhere(docs, UpdateFilter(post));
    if 0 <= i then (docs[i := Replacement(post, now)], OkOf(Some(Replacement(post, now))))
    else (docs, FailOf(ConflictMessage, Concurrency, Some(ConflictReport(docs, post))))
  }

  /** One `ArchiveArticle` call: the first article with the slug becomes archived. */
  function ArchiveStep(docs: seq<Article>, slug: string): seq<Article>
  {
    UpdateOne(docs, HasSlug(slug), (a: Article) => a.(isArchived := true))
  }

  class ArticleRepository {
    var articles: seq<Article>

    ghost predicate Valid()
      reads this
    {
      UniqueKeys(articles, ArticleKey)
    }

    constructor (initial: seq<Article>)
      requires UniqueKeys(initial, ArticleKey)
      ensures Valid() && articles == initial
    {
      articles := initial;
    }

    /** GetArticleByIdAsync: a success in both cases; a missing id gives a null value. */
    method GetArticleByIdAsync(id: Id) returns (r: ArticleResult)
      ensures r.Success() && WellFormed(r)
      ensures r.value.Null? <==> id !in Keys(articles, ArticleKey)
      ensures r.value.Some? ==> r.value.value in articles && r.value.value.id == id
    {
      var article := FindFirst(articles, HasId(id));
      r := OkOf(article);
      if article.Null? {
        forall k | 0 <= k < |articles| ensures Keys(articles, ArticleKey)[k] != id {
          assert !HasId(id)(articles[k]);
        }
      } else {
        assert Keys(articles, ArticleKey)[IndexWhere(articles, HasId(id))] == id;
      }
    }

    /** UpdateArticle: a conditional replace on id and expected version; on no match, a
        `Concurrency` failure reporting what the store holds. */
    method UpdateArticle(post: Article, now: Timestamp) returns (r: ArticleResult)
      requires Valid()
      modifies this
      ensures Valid()
      ensures (articles, r) == UpdateStep(old(articles), post, now)
    {
      var expectedVersion := post.Version();
      var replacement := post.(version := Some(expectedVersion + 1), modifiedOn := Some(now));
      var i := IndexWhere(articles, UpdateFilter(post));
      var res := FindOneAndReplace(articles, ArticleKey, UpdateFilter(post), replacement);
      assert res.Returned?;
      if 0 <= i {
        ReplaceKeepsKeys(articles, ArticleKey, i, replacement);
      }
      var result;
      articles, result := res.value.0, res.value.1;
      if result.Some? {
        r := OkOf(result);
        return;
      }
      var server := FindFirst(articles, HasId(post.id));
      var serverDto := if server.Null? then Null else Some(ArticleDto(server.value, false));
      var changed2: seq<ArticleField> := [];
      if server.Some? {
        changed2 := ChangedFieldList(server.value, post);
      }
      var details2 := ConflictInfo(if server.Some? then server.value.Version() else -1, serverDto, changed2);
      r := FailOf(ConflictMessage, Concurrency, Some(details2));
    }

    /** The changed-field list of a conflict, built by one conditional append per compared field. */
    method ChangedFieldList(s: Article, post: Article) returns (changed2: seq<ArticleField>)
      ensures changed2 == ChangedFields(s, post)
    {
      changed2 := [];
      assert changed2 == Differing(ArticleFields[..0], s, post);
      ghost var before := changed2;
      if s.title != post.title { changed2 := changed2 + [Title]; }
      ChangedFieldsStep(s, post, 0, Title, before, changed2);
      before := changed2;
      if s.introduction != post.introduction { changed2 := changed2 + [Introduction]; }
      ChangedFieldsStep(s, post, 1, Introduction, before, changed2);
      before := changed2;
      if s.content != post.content { changed2 := changed2 + [Content]; }
      ChangedFieldsStep(s, post, 2, Content, before, changed2);
      before := changed2;
      if s.coverImageUrl != post.coverImageUrl { changed2 := changed2 + [CoverImageUrl]; }
      ChangedFieldsStep(s, post, 3, CoverImageUrl, before, changed2);
      before := changed2;
      if s.isPublished != post.isPublished { changed2 := changed2 + [IsPublished]; }
      ChangedFieldsStep(s, post, 4, IsPublished, before, changed2);
      before := changed2;
      if s.isArchived != post.isArchived { changed2 := changed2 + [IsArchived]; }
      ChangedFieldsStep(s, post, 5, IsArchived, before, changed2);
      ChangedFieldsAll(s, post, changed2);
    }

    /** ArchiveArticle: sets `IsArchived` on the first article with the slug. */
    method ArchiveArticle(slug: string)
      requires Valid()
      modifies this
      ensures Valid()
      ensures articles == ArchiveStep(old(articles), slug)
    {
      var i := IndexWhere(articles, HasSlug(slug));
      if 0 <= i {
        ReplaceKeepsKeys(articles, ArticleKey, i, articles[i].(isArchived := true));
      }
      articles := UpdateOne(articles, HasSlug(slug), (a: Article) => a.(isArchived := true));
    }
  }

  // ---- Properties of one update ----

  /** The update succeeds exactly when some stored document passes the filter: same id, and the
      expected version or none. */
  lemma UpdateSucceedsIffFilterMatches(docs: seq<Article>, post: Article, now: Timestamp)
    ensures UpdateStep(docs, post, now).1.Success() <==>
      exists k :: 0 <= k < |docs| && docs[k].id == post.id && (docs[k].version == Some(post.Version()) || docs[k].version.Null?)
  {
    var i := IndexWhere(docs, UpdateFilter(post));
    if 0 <= i {
      assert MatchesUpdate(post, docs[i]);
    } else {
      forall k | 0 <= k < |docs| ensures !(docs[k].id == post.id && (docs[k].version == Some(post.Version()) || docs[k].version.Null?)) {
        assert !UpdateFilter(post)(docs[k]);
      }
    }
  }

  /** On a match the stored document with that id becomes the replacement, carrying version
      expected+1; the result is that document; every other document and the length are as before. */
  lemma UpdateOnMatch(docs: seq<Article>, post: Article, now: Timestamp)
    requires UniqueKeys(docs, ArticleKey)
    requires UpdateStep(docs, post, now).1.Success()
    ensures var (docs', r) := UpdateStep(docs, post, now);
      && |docs'| == |docs|
      && (exists k :: 0 <= k < |docs| && docs[k].id == post.id && docs'[k] == Replacement(post, now))
      && (forall k :: 0 <= k < |docs| && docs[k].id != post.id ==> docs'[k] == docs[k])
      && FindFirst(docs', HasId(post.id)) == Some(Replacement(post, now))
      && FindFirst(docs', HasId(post.id)).value.Version() == post.Version() + 1
      && r.value == Some(Replacement(post, now)) && WellFormed(r)
  {
    var i := IndexWhere(docs, UpdateFilter(post));
    assert MatchesUpdate(post, docs[i]);
    var docs' := docs[i := Replacement(post, now)];
    ReplaceKeepsKeys(docs, ArticleKey, i, Replacement(post, now));
    forall k | 0 <= k < i ensures !HasId(post.id)(docs'[k]) {
      assert ArticleKey(docs[k]) != ArticleKey(docs[i]);
    }
  }

  /** On no match nothing is written and the result is a `Concurrency` failure whose details give
      the stored version, or -1 when no document has the id. */
  lemma UpdateOnMiss(docs: seq<Article>, post: Article, now: Timestamp)
    requires !UpdateStep(docs, post, now).1.Success()
    ensures var (docs', r) := UpdateStep(docs, post, now);
      && docs' == docs
      && r.result.errorCode == Concurrency && r.value.Null? && r.result.details.Some?
      && (post.id !in Keys(docs, ArticleKey) ==> r.result.details.value == ConflictInfo(-1, Null, []))
      && (post.id in Keys(docs, ArticleKey) ==>
            exists k :: 0 <= k < |docs| && docs[k].id == post.id
              && r.result.details.value.serverVersion == docs[k].Version() != post.Version()
              && r.result.details.value.changedFields == ChangedFields(docs[k], post))
  {
    var ks := Keys(docs, ArticleKey);
    if post.id in ks {
      var k :| 0 <= k < |ks| && ks[k] == post.id;
      assert HasId(post.id)(docs[k]);
      var j := IndexWhere(docs, HasId(post.id));
      assert !UpdateFilter(post)(docs[j]);
    } else {
      forall k | 0 <= k < |docs| ensures !HasId(post.id)(docs[k]) {
        assert ks[k] == docs[k].id;
      }
    }
  }

  // ---- Properties of sequences of calls ----

  /** Two updates submitted with the same expected version against the same id: once the first
      has succeeded, the second is a conflict whose reported version is the winner's new version. */
  lemma SecondUpdateWithSameVersionConflicts(docs: seq<Article>, a: Article, b: Article, t1: Timestamp, t2: Timestamp)
    requires UniqueKeys(docs, ArticleKey)
    requires UpdateStep(docs, a, t1).1.Success()
    requires b.id == a.id && b.Version() == a.Version()
    ensures var docs1 := UpdateStep(docs, a, t1).0;
      var (docs2, r2) := UpdateStep(docs1, b, t2);
      && !r2.Success() && r2.result.errorCode == Concurrency && docs2 == docs1
      && r2.result.details.value.serverVersion == a.Version() + 1
  {
    var docs1 := UpdateStep(docs, a, t1).0;
    UpdateOnMatch(docs, a, t1);
    var w := FindFirst(docs1, HasId(a.id));
    var j := IndexWhere(docs1, HasId(a.id));
    ReplaceKeepsKeys(docs, ArticleKey, IndexWhere(docs, UpdateFilter(a)), Replacement(a, t1));
  }

  /** The baseline round trip: a document inserted with version 0, read back by id and
      submitted unchanged, is updated, and the store then holds version 1. */
  lemma InsertReadUpdateSucceeds(docs: seq<Article>, e: Article, now: Timestamp)
    requires UniqueKeys(docs, ArticleKey)
    requires e.version == Some(0)
    requires InsertOne(docs, ArticleKey, e).Returned?
    ensures var docs1 := InsertOne(docs, ArticleKey, e).value;
      var read := FindFirst(docs1, HasId(e.id));
      && read == Some(e)
      && var (docs2, r) := UpdateStep(docs1, read.value, now);
      && r.Success()
      && FindFirst(docs2, HasId(e.id)) == Some(Replacement(e, now))
      && Replacement(e, now).version == Some(1)
  {
    var docs1 := docs + [e];
    InsertKeepsKeysUnique(docs, ArticleKey, e);
    var ks := Keys(docs, ArticleKey);
    forall k | 0 <= k < |docs| ensures !HasId(e.id)(docs1[k]) {
      assert ks[k] == docs[k].id;
    }
    assert HasId(e.id)(docs1[|docs|]);
    UpdateSucceedsIffFilterMatches(docs1, e, now);
    assert MatchesUpdate(e, docs1[|docs|]);
    UpdateOnMatch(docs1, e, now);
  }

  /** A legacy document stored without a version is replaced whatever version the caller expects. */
  lemma LegacyDocumentAcceptsAnyVersion(docs: seq<Article>, post: Article, now: Timestamp, k: nat)
    requires k < |docs| && docs[k].id == post.id && docs[k].version.Null?
    ensures UpdateStep(docs, post, now).1.Success()
  {
    UpdateSucceedsIffFilterMatches(docs, post, now);
  }

  // ---- Archive ----

  /** Archiving sets only `IsArchived` on the first article with the slug (neither the version nor
      the modification time change); every other article is untouched. */
  lemma ArchiveChangesOnlyTheFlag(docs: seq<Article>, slug: string)
    ensures var docs' := ArchiveStep(docs, slug);
      && |docs'| == |docs|
      && var i := IndexWhere(docs, HasSlug(slug));
      && (0 <= i ==> docs'[i] == docs[i].(isArchived := true) && docs[i].slug == slug
                     && forall j :: 0 <= j < i ==> docs[j].slug != slug)
      && (forall j :: 0 <= j < |docs| && j != i ==> docs'[j] == docs[j])
  {
    var i := IndexWhere(docs, HasSlug(slug));
    forall j | 0 <= j < |docs| && (i < 0 || j < i) ensures docs[j].slug != slug {
      assert !HasSlug(slug)(docs[j]);
    }
  }

  /** Because archiving does not advance the version, an update prepared from the article as it was
      before the archive still succeeds afterwards and writes the caller's (un-archived) flag back. */
  lemma StaleUpdateAfterArchiveSucceeds(docs: seq<Article>, post: Article, now: Timestamp)
    requires UniqueKeys(docs, ArticleKey)
    requires exists k :: 0 <= k < |docs| && docs[k] == post
    requires !post.isArchived
    ensures var archived := ArchiveStep(docs, post.slug);
      var (docs2, r) := UpdateStep(archived, post, now);
      && r.Success()
      && FindFirst(docs2, HasId(post.id)) == Some(Replacement(post, now))
      && !Replacement(post, now).isArchived
  {
    var k :| 0 <= k < |docs| && docs[k] == post;
    var archived := ArchiveStep(docs, post.slug);
    ArchiveChangesOnlyTheFlag(docs, post.slug);
    assert archived[k].id == post.id;
    assert archived[k].version == post.version;
    assert MatchesUpdate(post, archived[k]);
    UpdateSucceedsIffFilterMatches(archived, post, now);
    var i := IndexWhere(docs, HasSlug(post.slug));
    if 0 <= i { ReplaceKeepsKeys(docs, ArticleKey, i, docs[i].(isArchived := true)); }
    UpdateOnMatch(archived, post, now);
  }
}

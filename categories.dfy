/**
  The ApiService's CategoryRepository: lookups that fail when nothing is found, the
  optimistic-concurrency update, and the archive by slug.

  Its category documents carry a slug, a name, an archived flag, an optional version (documents
  written before versioning have none; the C# `int Version` property then reads 0) and a
  modification time. The category class itself is not part of this model; the fields are those
  the repository names.
*/
module Categories {
  import opened Wrappers
  import opened Store
  import opened Results

  datatype Category = Category(
    id: Id,
    slug: string,
    categoryName: string,
    isArchived: bool,
    version: Option<int>,
    modifiedOn: Option<Timestamp>)
  {
    /** The `int Version` property. */
    function Version(): (v: int)
      ensures version.Some? ==> v == version.value
      ensures version.Null? ==> v == 0
    {
      version.OrElse(0)
    }
  }

  /** The fields compared when reporting a conflict; `Name` is the property name reported. */
  datatype CategoryField = CategoryName | IsArchived
  {
    function Name(): (n: string)
      ensures n != ""
    {
      match this
      case CategoryName => "CategoryName"
      case IsArchived => "IsArchived"
    }
  }

  /** The conflict details carry no projection of the stored document (it is always null). */
  type CategoryResult = ResultOf<Category, ConflictInfo<Category, CategoryField>>

  function CategoryKey(c: Category): Id { c.id }

  function HasId(id: Id): Category -> bool { (c: Category) => c.id == id }

  function HasSlug(slug: string): Category -> bool { (c: Category) => c.slug == slug }

  /** The update filter: the same id, and a stored version equal to the expected one or absent. */
  predicate MatchesUpdate(category: Category, stored: Category)
  {
    stored.id == category.id && (stored.version == Some(category.Version()) || stored.version.Null?)
  }

  function UpdateFilter(category: Category): Category -> bool { (c: Category) => MatchesUpdate(category, c) }

  /** The clone written by the update, with the next version and the new modification time. */
  function Replacement(category: Category, now: Timestamp): (c: Category)
    ensures c.version == Some(category.Version() + 1) && c.modifiedOn == Some(now)
    ensures c.(version := category.version, modifiedOn := category.modifiedOn) == category
  {
    category.(version := Some(category.Version() + 1), modifiedOn := Some(now))
  }

  /** The store's modified count for a replace: 1 when a document matched and the replacement
      differs from it, 0 otherwise (a replace by an identical document modifies nothing). */
  function ModifiedCount(docs: seq<Category>, p: Category -> bool, replacement: Category): (n: nat)
    ensures n <= 1
  {
    var i := IndexWhere(docs, p);
    if 0 <= i && docs[i] != replacement then 1 else 0
  }

  /** The changed-field list of a conflict: CategoryName, then IsArchived, each when it differs. */
  function ChangedFields(server: Category, category: Category): (r: seq<CategoryField>)
  {
    (if server.categoryName != category.categoryName then [CategoryName] else []) +
    (if server.isArchived != category.isArchived then [IsArchived] else [])
  }

  const NotFoundMessage := "Category not found"
  const ConflictMessage := "Concurrency conflict: category was modified by another process"
  const ReadBackMessage := "Error updating category: replaced but could not read back document"

  /** One `UpdateCategory` call on the collection: the new collection and the result. */
  function UpdateStep(docs: seq<Category>, category: Category, now: Timestamp): (seq<Category>, CategoryResult)
  {
    var i := IndexWhere(docs, UpdateFilter(category));
    if 0 <= i then (docs[i := Replacement(category, now)], OkOf(Some(Replacement(category, now))))
    else match FindFirst(docs, HasId(category.id))
      case Null => (docs, OkOf(Some(category)))
      case Some(server) =>
        (docs, FailOf(ConflictMessage, Concurrency, Some(ConflictInfo(server.Version(), Null, ChangedFields(server, category)))))
  }

  /** One `ArchiveCategory` call: the first category with the slug becomes archived, stamped `now`. */
  function ArchiveStep(docs: seq<Category>, slug: string, now: Timestamp): seq<Category>
  {
    UpdateOne(docs, HasSlug(slug), (c: Category) => c.(isArchived := true, modifiedOn := Some(now)))
  }

  /** A lookup result: the category, or a failure saying it was not found. */
  function Found(c: Option<Category>): (r: CategoryResult)
    ensures r.Success() <==> c.Some?
    ensures r.Success() ==> r.value == c
    ensures r.Failure() ==> r.result.error == Some(NotFoundMessage) && r.result.errorCode == None
    ensures WellFormed(r)
  {
    if c.Null? then FailOf(NotFoundMessage) else OkOf(c)
  }

  class CategoryRepository {
    var categories: seq<Category>

    ghost predicate Valid()
      reads this
    {
      UniqueKeys(categories, CategoryKey)
    }

    constructor (initial: seq<Category>)
      requires UniqueKeys(initial, CategoryKey)
      ensures Valid() && categories == initial
    {
      categories := initial;
    }

    /** GetCategoryByIdAsync */
    method GetCategoryByIdAsync(id: Id) returns (r: CategoryResult)
      ensures r == Found(FindFirst(categories, HasId(id)))
      ensures r.Success() <==> id in Keys(categories, CategoryKey)
      ensures r.Success() ==> r.value.value in categories && r.value.value.id == id
    {
      var category := FindFirst(categories, HasId(id));
      if category.Null? {
        forall k | 0 <= k < |categories| ensures Keys(categories, CategoryKey)[k] != id {
          assert !HasId(id)(categories[k]);
        }
        r := FailOf(NotFoundMessage);
        return;
      }
      assert Keys(categories, CategoryKey)[IndexWhere(categories, HasId(id))] == id;
      r := OkOf(category);
    }

    /** GetCategory(slug) */
    method GetCategory(slug: string) returns (r: CategoryResult)
      ensures r == Found(FindFirst(categories, HasSlug(slug)))
      ensures r.Success() <==> exists k :: 0 <= k < |categories| && categories[k].slug == slug
      ensures r.Success() ==> r.value.value in categories && r.value.value.slug == slug
    {
      var category := FindFirst(categories, HasSlug(slug));
      if category.Null? {
        assert forall k :: 0 <= k < |categories| ==> !HasSlug(slug)(categories[k]);
        r := FailOf(NotFoundMessage);
        return;
      }
      r := OkOf(category);
    }

    /** UpdateCategory: a conditional replace on id and expected version; when nothing matched, the
        caller's category back as a success if no document has the id, or else a `Concurrency` failure. */
    method UpdateCategory(category: Category, now: Timestamp) returns (r: CategoryResult)
      requires Valid()
      modifies this
      ensures Valid()
      ensures (categories, r) == UpdateStep(old(categories), category, now)
    {
      var expectedVersion := category.Version();
      var filter := UpdateFilter(category);
      var replacement := category.(version := Some(expectedVersion + 1), modifiedOn := Some(now));
      var i := IndexWhere(categories, filter);
      var modifiedCount := ModifiedCount(categories, filter, replacement);
      var replaceResult := ReplaceOne(categories, CategoryKey, filter, replacement);
      assert replaceResult.Returned?;
      if 0 <= i {
        ReplaceKeepsKeys(categories, CategoryKey, i, replacement);
      }
      categories := replaceResult.value;
      if modifiedCount > 0 {
        var current := FindFirst(categories, HasId(category.id));
        assert HasId(category.id)(categories[i]);
        ReplacedIsFirstWithId(categories, i, category.id);
        assert current == Some(replacement);
        r := if current.Some? then OkOf(current) else FailOf(ReadBackMessage);
        return;
      }
      ReplacementAlwaysModifies(old(categories), category, now);
      assert i < 0 && categories == old(categories);
      var server := FindFirst(categories, HasId(category.id));
      if server.Null? {
        r := OkOf(Some(category));
        return;
      }
      var changed: seq<CategoryField> := [];
      if server.value.categoryName != category.categoryName { changed := changed + [CategoryName]; }
      if server.value.isArchived != category.isArchived { changed := changed + [IsArchived]; }
      assert changed == ChangedFields(server.value, category);
      var details := ConflictInfo(server.value.Version(), Null, changed);
      r := FailOf(ConflictMessage, Concurrency, Some(details));
    }

    /** ArchiveCategory: sets `IsArchived` and `ModifiedOn` on the first category with the slug. */
    method ArchiveCategory(slug: string, now: Timestamp)
      requires Valid()
      modifies this
      ensures Valid()
      ensures categories == ArchiveStep(old(categories), slug, now)
    {
      var i := IndexWhere(categories, HasSlug(slug));
      if 0 <= i {
        ReplaceKeepsKeys(categories, CategoryKey, i, categories[i].(isArchived := true, modifiedOn := Some(now)));
      }
      categories := UpdateOne(categories, HasSlug(slug), (c: Category) => c.(isArchived := true, modifiedOn := Some(now)));
    }
  }

  /** With distinct ids, the document at `i` is the first one with its id. */
  lemma ReplacedIsFirstWithId(docs: seq<Category>, i: nat, id: Id)
    requires UniqueKeys(docs, CategoryKey)
    requires i < |docs| && docs[i].id == id
    ensures FindFirst(docs, HasId(id)) == Some(docs[i])
  {
    assert HasId(id)(docs[i]);
  }

  // ---- Properties of one update ----

  /** A matching document always differs from the replacement (its version is the expected one or
      absent, the replacement's is the next), so the store reports a modification exactly when the
      filter matched. */
  lemma ReplacementAlwaysModifies(docs: seq<Category>, category: Category, now: Timestamp)
    ensures ModifiedCount(docs, UpdateFilter(category), Replacement(category, now)) > 0 <==>
      0 <= IndexWhere(docs, UpdateFilter(category))
  {
    var i := IndexWhere(docs, UpdateFilter(category));
    if 0 <= i {
      assert MatchesUpdate(category, docs[i]);
      assert docs[i].version != Replacement(category, now).version;
    }
  }

  /** When some stored document passes the filter, the update succeeds: that document becomes the
      versioned clone, the result is the clone read back by id, and every other document stays. */
  lemma UpdateSucceedsOnMatch(docs: seq<Category>, category: Category, now: Timestamp)
    requires UniqueKeys(docs, CategoryKey)
    requires exists k :: 0 <= k < |docs| && MatchesUpdate(category, docs[k])
    ensures var (docs', r) := UpdateStep(docs, category, now);
      && r.Success() && r.value == Some(Replacement(category, now))
      && |docs'| == |docs|
      && FindFirst(docs', HasId(category.id)) == Some(Replacement(category, now))
      && (forall k :: 0 <= k < |docs| && docs[k].id != category.id ==> docs'[k] == docs[k])
  {
    var k :| 0 <= k < |docs| && MatchesUpdate(category, docs[k]);
    assert UpdateFilter(category)(docs[k]);
    var i := IndexWhere(docs, UpdateFilter(category));
    ReplaceKeepsKeys(docs, CategoryKey, i, Replacement(category, now));
    ReplacedIsFirstWithId(docs[i := Replacement(category, now)], i, category.id);
  }

  /** When no document has the id, nothing is written and the caller's category comes back as a success. */
  lemma MissingDocumentIsBenign(docs: seq<Category>, category: Category, now: Timestamp)
    requires category.id !in Keys(docs, CategoryKey)
    ensures UpdateStep(docs, category, now) == (docs, OkOf(Some(category)))
  {
    var ks := Keys(docs, CategoryKey);
    forall k | 0 <= k < |docs| ensures !UpdateFilter(category)(docs[k]) && !HasId(category.id)(docs[k]) {
      assert ks[k] == docs[k].id;
    }
  }

  /** When the document exists with another version, nothing is written and the result is a
      `Concurrency` failure carrying the stored version, no projection, and the differing fields. */
  lemma VersionMismatchConflicts(docs: seq<Category>, category: Category, now: Timestamp, k: nat)
    requires UniqueKeys(docs, CategoryKey)
    requires k < |docs| && docs[k].id == category.id
    requires docs[k].version.Some? && docs[k].version.value != category.Version()
    ensures var (docs', r) := UpdateStep(docs, category, now);
      && docs' == docs && r.Failure() && WellFormed(r)
      && r.result.error == Some(ConflictMessage) && r.result.errorCode == Concurrency
      && r.result.details == Some(ConflictInfo(docs[k].Version(), Null, ChangedFields(docs[k], category)))
  {
    var i := IndexWhere(docs, UpdateFilter(category));
    if 0 <= i {
      assert CategoryKey(docs[i]) == CategoryKey(docs[k]);
    }
    ReplacedIsFirstWithId(docs, k, category.id);
  }

  /** The changed list holds exactly the two compared fields that differ, CategoryName first. */
  lemma ChangedFieldsExact(server: Category, category: Category)
    ensures CategoryName in ChangedFields(server, category) <==> server.categoryName != category.categoryName
    ensures IsArchived in ChangedFields(server, category) <==> server.isArchived != category.isArchived
    ensures |ChangedFields(server, category)| == 2 ==> ChangedFields(server, category) == [CategoryName, IsArchived]
  {
  }

  // ---- Sequences of calls ----

  /** After one update succeeded, a second one carrying the same expected version no longer passes
      the filter: nothing is written and it is refused as a conflict reporting the new version. */
  lemma SecondUpdateWithSameVersionConflicts(docs: seq<Category>, a: Category, b: Category, t1: Timestamp, t2: Timestamp)
    requires UniqueKeys(docs, CategoryKey)
    requires exists k :: 0 <= k < |docs| && MatchesUpdate(a, docs[k])
    requires b.id == a.id && b.Version() == a.Version()
    ensures var docs1 := UpdateStep(docs, a, t1).0;
      var (docs2, r2) := UpdateStep(docs1, b, t2);
      && r2.Failure() && r2.result.errorCode == Concurrency && docs2 == docs1
      && r2.result.details.value.serverVersion == a.Version() + 1
  {
    UpdateSucceedsOnMatch(docs, a, t1);
    var docs1 := UpdateStep(docs, a, t1).0;
    var i := IndexWhere(docs, UpdateFilter(a));
    ReplaceKeepsKeys(docs, CategoryKey, i, Replacement(a, t1));
    assert docs1[i].id == b.id;
    VersionMismatchConflicts(docs1, b, t2, i);
  }

  /** Archiving sets only the flag and the modification time on the first category with the slug;
      the version is not advanced. */
  lemma ArchiveChangesOnlyFlagAndTime(docs: seq<Category>, slug: string, now: Timestamp)
    ensures var docs' := ArchiveStep(docs, slug, now);
      && |docs'| == |docs|
      && var i := IndexWhere(docs, HasSlug(slug));
      && (0 <= i ==> docs'[i] == docs[i].(isArchived := true, modifiedOn := Some(now))
                     && docs'[i].version == docs[i].version && docs[i].slug == slug
                     && forall j :: 0 <= j < i ==> docs[j].slug != slug)
      && (i < 0 ==> docs' == docs && forall j :: 0 <= j < |docs| ==> docs[j].slug != slug)
      && (forall j :: 0 <= j < |docs| && j != i ==> docs'[j] == docs[j])
  {
    var i := IndexWhere(docs, HasSlug(slug));
    forall j | 0 <= j < |docs| && (i < 0 || j < i) ensures docs[j].slug != slug {
      assert !HasSlug(slug)(docs[j]);
    }
  }
}

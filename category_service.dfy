/**
  The CategoryService: argument guards, a read-through cache entry "CategoryData" holding every
  category, archived ones included, and the removal of that entry before each write is handed to
  the repository. The repository behind it replaces by id and inserts; the service holds the
  collection that repository writes to.
*/
module CategoryServices {
  import opened Wrappers
  import opened Store
  import opened Models

  const CacheName := "CategoryData"

  function HasId(id: Id): Category -> bool { KeyIs(CategoryKey, id) }

  /** The repository's `UpdateAsync(itemId, category)`: replace by id, no upsert. */
  function UpdateStep(docs: seq<Category>, itemId: Id, category: Category): Try<seq<Category>>
  {
    ReplaceOne(docs, CategoryKey, HasId(itemId), category)
  }

  /** The repository's `ArchiveAsync(category)`: the category, marked archived, replaces the one with its id. */
  function ArchiveStep(docs: seq<Category>, category: Category): Try<seq<Category>>
  {
    UpdateStep(docs, category.id, category.(archived := true))
  }

  /** `GetCategories` on a cache and a collection: the list it returns and the cache afterwards. */
  function GetCategoriesStep(cache: map<string, seq<Category>>, docs: seq<Category>): (seq<Category>, map<string, seq<Category>>)
  {
    if CacheName in cache then (cache[CacheName], cache) else (docs, cache[CacheName := docs])
  }

  /** The cache entry, when there is one, is the collection as it is now. */
  ghost predicate Coherent(cache: map<string, seq<Category>>, docs: seq<Category>)
  {
    CacheName in cache ==> cache[CacheName] == docs
  }

  class CategoryService {
    var categories: seq<Category>
    var cache: map<string, seq<Category>>

    /** Every write of this service removes the entry and every read that fills it reads the
        collection, so, with this service as the only writer and calls made one at a time, the
        entry never falls behind the collection. */
    ghost predicate Valid()
      reads this
    {
      UniqueKeys(categories, CategoryKey) && Coherent(cache, categories)
    }

    constructor (initial: seq<Category>)
      requires UniqueKeys(initial, CategoryKey)
      ensures Valid() && categories == initial && cache == map[]
    {
      categories := initial;
      cache := map[];
    }

    /** CreateCategory */
    method CreateCategory(category: Option<Category>) returns (o: Outcome)
      requires Valid()
      modifies this
      ensures Valid()
      ensures category.Null? ==> o == Threw(ArgumentNull("category")) && cache == old(cache) && categories == old(categories)
      ensures category.Some? ==>
        && cache == old(cache) - {CacheName}
        && o == OutcomeOf(InsertOne(old(categories), CategoryKey, category.value))
        && categories == Written(old(categories), InsertOne(old(categories), CategoryKey, category.value))
    {
      o := ThrowIfNull(category, "category");
      if o.Threw? {
        return;
      }
      cache := cache - {CacheName};
      var r := InsertOne(categories, CategoryKey, category.value);
      if r.Raised? {
        o := Threw(r.ex);
        return;
      }
      InsertKeepsKeysUnique(categories, CategoryKey, category.value);
      categories := r.value;
    }

    /** ArchiveCategory */
    method ArchiveCategory(category: Option<Category>) returns (o: Outcome)
      requires Valid()
      modifies this
      ensures Valid()
      ensures category.Null? ==> o == Threw(ArgumentNull("category")) && cache == old(cache) && categories == old(categories)
      ensures category.Some? ==>
        && cache == old(cache) - {CacheName}
        && o == OutcomeOf(ArchiveStep(old(categories), category.value))
        && categories == Written(old(categories), ArchiveStep(old(categories), category.value))
    {
      o := ThrowIfNull(category, "category");
      if o.Threw? {
        return;
      }
      cache := cache - {CacheName};
      var archived := category.value.(archived := true);
      o := Replace(archived.id, archived);
    }

    /** GetCategory: a null or empty id is refused. */
    method GetCategory(categoryId: Option<string>) returns (r: Try<Option<Category>>)
      ensures IsNullOrEmpty(categoryId) ==>
        r == Raised(if categoryId.Null? then ArgumentNull("categoryId") else ArgumentInvalid("categoryId"))
      ensures !IsNullOrEmpty(categoryId) ==> r == Returned(FindFirst(categories, HasId(categoryId.value)))
    {
      var guard := ThrowIfNullOrEmpty(categoryId, "categoryId");
      if guard.Threw? {
        r := Raised(guard.ex);
        return;
      }
      r := Returned(FindFirst(categories, HasId(categoryId.value)));
    }

    /** GetCategories: read-through on "CategoryData"; archived categories are not filtered out, and
        by the invariant (this service the only writer) the list is the current collection. */
    method GetCategories() returns (r: seq<Category>)
      requires Valid()
      modifies this
      ensures Valid()
      ensures categories == old(categories)
      ensures (r, cache) == GetCategoriesStep(old(cache), categories)
      ensures r == categories
    {
      if CacheName in cache {
        r := cache[CacheName];
        return;
      }
      r := categories;
      cache := cache[CacheName := r];
    }

    /** UpdateCategory */
    method UpdateCategory(category: Option<Category>) returns (o: Outcome)
      requires Valid()
      modifies this
      ensures Valid()
      ensures category.Null? ==> o == Threw(ArgumentNull("category")) && cache == old(cache) && categories == old(categories)
      ensures category.Some? ==>
        && cache == old(cache) - {CacheName}
        && o == OutcomeOf(UpdateStep(old(categories), category.value.id, category.value))
        && categories == Written(old(categories), UpdateStep(old(categories), category.value.id, category.value))
    {
      o := ThrowIfNull(category, "category");
      if o.Threw? {
        return;
      }
      cache := cache - {CacheName};
      o := Replace(category.value.id, category.value);
    }

    /** The repository's replace by id, on a cache that holds no entry. */
    method Replace(itemId: Id, category: Category) returns (o: Outcome)
      requires UniqueKeys(categories, CategoryKey) && CacheName !in cache
      modifies this
      ensures Valid() && cache == old(cache)
      ensures o == OutcomeOf(UpdateStep(old(categories), itemId, category))
      ensures categories == Written(old(categories), UpdateStep(old(categories), itemId, category))
    {
      var r := ReplaceOne(categories, CategoryKey, HasId(itemId), category);
      if r.Raised? {
        o := Threw(r.ex);
        return;
      }
      ReplaceByKey(categories, CategoryKey, itemId, category);
      categories := r.value;
      o := Completed;
    }
  }

  // ---- Properties of the cache ----

  /** Removing the entry and then reading fills it from the collection as it is then. */
  lemma InvalidateThenReadIsFresh(cache: map<string, seq<Category>>, docs: seq<Category>)
    ensures GetCategoriesStep(cache - {CacheName}, docs).0 == docs
    ensures Coherent(GetCategoriesStep(cache - {CacheName}, docs).1, docs)
  {
  }

  /** A read on a coherent cache returns the collection, archived categories included. */
  lemma ReadKeepsArchived(cache: map<string, seq<Category>>, docs: seq<Category>, c: Category)
    requires Coherent(cache, docs)
    requires c in docs && c.archived
    ensures c in GetCategoriesStep(cache, docs).0
  {
  }
}

/** Shared.Helpers.CollectionNames: the store collection that holds each entity. */
module CollectionNames {
  import opened Wrappers

  /** The five entity names the mapping knows. */
  const EntityNames: seq<string> := ["Category", "Comment", "Issue", "Status", "User"]

  /** `GetCollectionName`: a known entity name gives its collection; anything else, null included,
      throws an ArgumentException naming the parameter. */
  function GetCollectionName(entityName: Option<string>): (r: Try<string>)
    ensures r.Returned? <==> entityName.Some? && entityName.value in EntityNames
    ensures r.Raised? ==> r.ex == ArgumentInvalid("entityName")
  {
    match entityName
    case Some("Category") => Returned("categories")
    case Some("Comment") => Returned("comments")
    case Some("Issue") => Returned("issues")
    case Some("Status") => Returned("statuses")
    case Some("User") => Returned("users")
    case _ => Raised(ArgumentInvalid("entityName"))
  }

  /** The five names and their collections. */
  lemma KnownCollections()
    ensures GetCollectionName(Some("Category")) == Returned("categories")
    ensures GetCollectionName(Some("Comment")) == Returned("comments")
    ensures GetCollectionName(Some("Issue")) == Returned("issues")
    ensures GetCollectionName(Some("Status")) == Returned("statuses")
    ensures GetCollectionName(Some("User")) == Returned("users")
    ensures GetCollectionName(Null).Raised?
  {
  }

  /** No two entity names share a collection. */
  lemma CollectionNameInjective(a: Option<string>, b: Option<string>)
    requires GetCollectionName(a).Returned? && GetCollectionName(b).Returned?
    requires GetCollectionName(a).value == GetCollectionName(b).value
    ensures a == b
  {
  }
}

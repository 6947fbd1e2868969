/**
  The StatusService: argument guards and a read-through cache entry "StatusData" holding every
  status. Only archive removes the entry; create, update and delete leave it, and delete
  archives rather than removes. The repository behind it replaces by id and inserts; the
  service holds the collection that repository writes to.
*/
module StatusServices {
  import opened Wrappers
  import opened Store
  import opened Models

  const CacheName := "StatusData"

  function HasId(id: Id): Status -> bool { KeyIs(StatusKey, id) }

  /** The repository's `UpdateAsync(itemId, status)`: replace by id, no upsert. */
  function UpdateStep(docs: seq<Status>, itemId: Id, status: Status): Try<seq<Status>>
  {
    ReplaceOne(docs, StatusKey, HasId(itemId), status)
  }

  /** The repository's `ArchiveAsync(status)`: the status, marked archived, replaces the one with its id. */
  function ArchiveStep(docs: seq<Status>, status: Status): Try<seq<Status>>
  {
    UpdateStep(docs, status.id, status.(archived := true))
  }

  /** `GetStatuses` on a cache and a collection: the list it returns and the cache afterwards. */
  function GetStatusesStep(cache: map<string, seq<Status>>, docs: seq<Status>): (seq<Status>, map<string, seq<Status>>)
  {
    if CacheName in cache then (cache[CacheName], cache) else (docs, cache[CacheName := docs])
  }

  /** The cache entry, when there is one, is the collection as it is now. */
  ghost predicate Coherent(cache: map<string, seq<Status>>, docs: seq<Status>)
  {
    CacheName in cache ==> cache[CacheName] == docs
  }

  class StatusService {
    var statuses: seq<Status>
    var cache: map<string, seq<Status>>

    ghost predicate Valid()
      reads this
    {
      UniqueKeys(statuses, StatusKey)
    }

    constructor (initial: seq<Status>)
      requires UniqueKeys(initial, StatusKey)
      ensures Valid() && statuses == initial && cache == map[]
    {
      statuses := initial;
      cache := map[];
    }

    /** ArchiveStatus: the only write that removes the entry. */
    method ArchiveStatus(status: Option<Status>) returns (o: Outcome)
      requires Valid()
      modifies this
      ensures Valid()
      ensures status.Null? ==> o == Threw(ArgumentNull("status")) && cache == old(cache) && statuses == old(statuses)
      ensures status.Some? ==>
        && cache == old(cache) - {CacheName}
        && o == OutcomeOf(ArchiveStep(old(statuses), status.value))
        && statuses == Written(old(statuses), ArchiveStep(old(statuses), status.value))
    {
      o := ThrowIfNull(status, "status");
      if o.Threw? {
        return;
      }
      cache := cache - {CacheName};
      var archived := status.value.(archived := true);
      o := Replace(archived.id, archived);
    }

    /** CreateStatus: the cache is not touched. */
    method CreateStatus(status: Option<Status>) returns (o: Outcome)
      requires Valid()
      modifies this
      ensures Valid() && cache == old(cache)
      ensures status.Null? ==> o == Threw(ArgumentNull("status")) && statuses == old(statuses)
      ensures status.Some? ==>
        && o == OutcomeOf(InsertOne(old(statuses), StatusKey, status.value))
        && statuses == Written(old(statuses), InsertOne(old(statuses), StatusKey, status.value))
    {
      o := ThrowIfNull(status, "status");
      if o.Threw? {
        return;
      }
      var r := InsertOne(statuses, StatusKey, status.value);
      if r.Raised? {
        o := Threw(r.ex);
        return;
      }
      InsertKeepsKeysUnique(statuses, StatusKey, status.value);
      statuses := r.value;
    }

    /** GetStatus: a null or empty id is refused. */
    method GetStatus(statusId: Option<string>) returns (r: Try<Option<Status>>)
      ensures IsNullOrEmpty(statusId) ==>
        r == Raised(if statusId.Null? then ArgumentNull("statusId") else ArgumentInvalid("statusId"))
      ensures !IsNullOrEmpty(statusId) ==> r == Returned(FindFirst(statuses, HasId(statusId.value)))
    {
      var guard := ThrowIfNullOrEmpty(statusId, "statusId");
      if guard.Threw? {
        r := Raised(guard.ex);
        return;
      }
      r := Returned(FindFirst(statuses, HasId(statusId.value)));
    }

    /** GetStatuses: read-through on "StatusData". */
    method GetStatuses() returns (r: seq<Status>)
      requires Valid()
      modifies this
      ensures Valid()
      ensures statuses == old(statuses)
      ensures (r, cache) == GetStatusesStep(old(cache), statuses)
    {
      if CacheName in cache {
        r := cache[CacheName];
        return;
      }
      r := statuses;
      cache := cache[CacheName := r];
    }

    /** UpdateStatus: the cache is not touched. */
    method UpdateStatus(status: Option<Status>) returns (o: Outcome)
      requires Valid()
      modifies this
      ensures Valid() && cache == old(cache)
      ensures status.Null? ==> o == Threw(ArgumentNull("status")) && statuses == old(statuses)
      ensures status.Some? ==>
        && o == OutcomeOf(UpdateStep(old(statuses), status.value.id, status.value))
        && statuses == Written(old(statuses), UpdateStep(old(statuses), status.value.id, status.value))
    {
      o := ThrowIfNull(status, "status");
      if o.Threw? {
        return;
      }
      o := Replace(status.value.id, status.value);
    }

    /** DeleteStatus: the repository archive, without touching the cache. */
    method DeleteStatus(status: Option<Status>) returns (o: Outcome)
      requires Valid()
      modifies this
      ensures Valid() && cache == old(cache)
      ensures status.Null? ==> o == Threw(ArgumentNull("status")) && statuses == old(statuses)
      ensures status.Some? ==>
        && o == OutcomeOf(ArchiveStep(old(statuses), status.value))
        && statuses == Written(old(statuses), ArchiveStep(old(statuses), status.value))
    {
      o := ThrowIfNull(status, "status");
      if o.Threw? {
        return;
      }
      var archived := status.value.(archived := true);
      o := Replace(archived.id, archived);
    }

    /** The repository's replace by id; the cache is not touched. */
    method Replace(itemId: Id, status: Status) returns (o: Outcome)
      requires Valid()
      modifies this
      ensures Valid() && cache == old(cache)
      ensures o == OutcomeOf(UpdateStep(old(statuses), itemId, status))
      ensures statuses == Written(old(statuses), UpdateStep(old(statuses), itemId, status))
    {
      var r := ReplaceOne(statuses, StatusKey, HasId(itemId), status);
      if r.Raised? {
        o := Threw(r.ex);
        return;
      }
      ReplaceByKey(statuses, StatusKey, itemId, status);
      statuses := r.value;
      o := Completed;
    }
  }

  // ---- Properties of the cache ----

  /** After an archive the next read fills the entry from the collection as it is then. */
  lemma ArchiveThenReadIsFresh(cache: map<string, seq<Status>>, docs: seq<Status>)
    ensures GetStatusesStep(cache - {CacheName}, docs).0 == docs
    ensures Coherent(GetStatusesStep(cache - {CacheName}, docs).1, docs)
  {
  }

  /** Deleting a stored, unarchived status while the list is cached: the store now holds it
      archived, the cached list still shows it unarchived, and a read returns that stale list. */
  lemma DeleteLeavesCacheStale(cache: map<string, seq<Status>>, docs: seq<Status>, k: nat)
    requires UniqueKeys(docs, StatusKey) && Coherent(cache, docs) && CacheName in cache
    requires k < |docs| && !docs[k].archived
    ensures ArchiveStep(docs, docs[k]).Returned?
    ensures var docs' := ArchiveStep(docs, docs[k]).value;
      && docs'[k] == docs[k].(archived := true)
      && GetStatusesStep(cache, docs').0[k] == docs[k]
      && !Coherent(cache, docs')
  {
    assert Keys(docs, StatusKey)[k] == docs[k].id;
    ReplaceByKey(docs, StatusKey, docs[k].id, docs[k].(archived := true));
  }

  /** Updating a stored status to a different value while the list is cached: a read still
      returns the old value at that position. */
  lemma UpdateLeavesCacheStale(cache: map<string, seq<Status>>, docs: seq<Status>, k: nat, status: Status)
    requires UniqueKeys(docs, StatusKey) && Coherent(cache, docs) && CacheName in cache
    requires k < |docs| && status.id == docs[k].id && status != docs[k]
    ensures UpdateStep(docs, status.id, status).Returned?
    ensures var docs' := UpdateStep(docs, status.id, status).value;
      && docs'[k] == status
      && GetStatusesStep(cache, docs').0[k] == docs[k]
      && !Coherent(cache, docs')
  {
    assert Keys(docs, StatusKey)[k] == docs[k].id;
    ReplaceByKey(docs, StatusKey, status.id, status);
  }

  /** Creating a status while the list is cached: a read does not show the new status. */
  lemma CreateLeavesCacheStale(cache: map<string, seq<Status>>, docs: seq<Status>, status: Status)
    requires Coherent(cache, docs) && CacheName in cache
    requires InsertOne(docs, StatusKey, status).Returned?
    ensures status in InsertOne(docs, StatusKey, status).value
    ensures status !in GetStatusesStep(cache, InsertOne(docs, StatusKey, status).value).0
  {
  }
}

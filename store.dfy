/**
  The document-store driver calls the repositories make, as functions over a collection
  held in natural (insertion) order. Filters are predicates on documents; `key` projects
  a document onto its `_id`.
*/
module Store {
  import opened Wrappers

  /** A document `_id`, and any user id; the empty string stands for `ObjectId.Empty`, "no user". */
  type Id = string

  /** A timestamp (`DateTime`/`DateTimeOffset`), supplied by the caller. */
  type Timestamp = int

  /** Position of the first document the filter matches, or -1. */
  function IndexWhere<T>(docs: seq<T>, p: T -> bool): (i: int)
    ensures -1 <= i < |docs|
    ensures 0 <= i ==> p(docs[i])
    ensures forall j :: 0 <= j < |docs| && (i < 0 || j < i) ==> !p(docs[j])
  {
    if docs == [] then -1
    else if p(docs[0]) then 0
    else var k := IndexWhere(docs[1..], p); if k < 0 then -1 else k + 1
  }

  /** `Find(filter).FirstOrDefault()` */
  function FindFirst<T>(docs: seq<T>, p: T -> bool): (r: Option<T>)
    ensures r.Null? <==> forall j :: 0 <= j < |docs| ==> !p(docs[j])
    ensures r.Some? ==> r.value == docs[IndexWhere(docs, p)] && p(r.value)
  {
    var i := IndexWhere(docs, p);
    if i < 0 then Null else Some(docs[i])
  }

  /** `Find(filter).ToList()` and LINQ `Where(...).ToList()`; order is kept. */
  function Where<T>(docs: seq<T>, p: T -> bool): (r: seq<T>)
    ensures forall k :: 0 <= k < |r| ==> r[k] in docs && p(r[k])
    ensures forall k :: 0 <= k < |docs| && p(docs[k]) ==> docs[k] in r
    ensures |r| <= |docs|
  {
    if docs == [] then []
    else if p(docs[0]) then [docs[0]] + Where(docs[1..], p)
    else Where(docs[1..], p)
  }

  /** Unfolds one step of `Where`. */
  lemma WhereCons<T>(x: T, rest: seq<T>, p: T -> bool)
    ensures Where([x] + rest, p) == (if p(x) then [x] else []) + Where(rest, p)
  {
    assert ([x] + rest)[1..] == rest;
  }

  /** `Where` over a list extended at the end: the last element is kept exactly when it matches. */
  lemma {:induction false} WhereSnoc<T>(xs: seq<T>, x: T, p: T -> bool)
    ensures Where(xs + [x], p) == Where(xs, p) + (if p(x) then [x] else [])
  {
    if xs == [] {
      assert [] + [x] == [x];
    } else {
      assert (xs + [x])[1..] == xs[1..] + [x];
      WhereSnoc(xs[1..], x, p);
    }
  }

  /** `a` is `b` with some elements left out and the rest in the same order. */
  predicate IsSubsequence<T(==)>(a: seq<T>, b: seq<T>)
    decreases |b|
  {
    if a == [] then true
    else if b == [] then false
    else if a[0] == b[0] then IsSubsequence(a[1..], b[1..])
    else IsSubsequence(a, b[1..])
  }

  lemma {:induction false} WhereIsSubsequence<T>(docs: seq<T>, p: T -> bool)
    ensures IsSubsequence(Where(docs, p), docs)
  {
    if docs != [] {
      WhereIsSubsequence(docs[1..], p);
      if !p(docs[0]) {
        SubsequenceCons(Where(docs[1..], p), docs[1..], docs[0]);
        assert [docs[0]] + docs[1..] == docs;
      }
    }
  }

  /** A subsequence of `b` is a subsequence of `b` with one more element in front. */
  lemma {:induction false} SubsequenceCons<T>(a: seq<T>, b: seq<T>, x: T)
    requires IsSubsequence(a, b)
    ensures IsSubsequence(a, [x] + b)
    decreases |b|, 1
  {
    assert ([x] + b)[1..] == b;
    if a != [] && a[0] == x {
      SubsequenceTail(a, b);
    }
  }

  /** Dropping the first element of a subsequence keeps it a subsequence. */
  lemma {:induction false} SubsequenceTail<T>(a: seq<T>, b: seq<T>)
    requires a != [] && IsSubsequence(a, b)
    ensures IsSubsequence(a[1..], b)
    decreases |b|, 0
  {
    if a[0] != b[0] {
      SubsequenceTail(a, b[1..]);
    }
    SubsequenceCons(a[1..], b[1..], b[0]);
    assert [b[0]] + b[1..] == b;
  }

  /** Every document key is distinct: the `_id` index of the store. */
  ghost predicate UniqueKeys<T>(docs: seq<T>, key: T -> Id)
  {
    forall i, j :: 0 <= i < j < |docs| ==> key(docs[i]) != key(docs[j])
  }

  /** Keys of all documents. */
  function Keys<T>(docs: seq<T>, key: T -> Id): (ks: seq<Id>)
    ensures |ks| == |docs|
    ensures forall i :: 0 <= i < |docs| ==> ks[i] == key(docs[i])
  {
    seq(|docs|, i requires 0 <= i < |docs| => key(docs[i]))
  }

  /** `InsertOne`: appends, or is refused when the `_id` is taken. */
  function InsertOne<T>(docs: seq<T>, key: T -> Id, doc: T): (r: Try<seq<T>>)
    ensures r.Raised? <==> key(doc) in Keys(docs, key)
    ensures r.Raised? ==> r.ex == DuplicateKey
    ensures r.Returned? ==> r.value == docs + [doc]
  {
    if key(doc) in Keys(docs, key) then Raised(DuplicateKey) else Returned(docs + [doc])
  }

  lemma InsertKeepsKeysUnique<T>(docs: seq<T>, key: T -> Id, doc: T)
    requires UniqueKeys(docs, key)
    requires InsertOne(docs, key, doc).Returned?
    ensures UniqueKeys(InsertOne(docs, key, doc).value, key)
  {
    var ks := Keys(docs, key);
    forall i | 0 <= i < |docs| ensures key(docs[i]) != key(doc) {
      assert ks[i] == key(docs[i]);
    }
  }

  /** `ReplaceOne(filter, replacement)` with no upsert: the first match becomes the replacement;
      with no match nothing changes. The store refuses a replacement that would change the matched
      document's `_id`. */
  function ReplaceOne<T>(docs: seq<T>, key: T -> Id, p: T -> bool, replacement: T): (r: Try<seq<T>>)
    ensures var i := IndexWhere(docs, p);
      && (r.Raised? <==> 0 <= i && key(docs[i]) != key(replacement))
      && (r.Raised? ==> r.ex == ImmutableIdAltered)
      && (r.Returned? && 0 <= i ==> r.value == docs[i := replacement])
      && (r.Returned? && i < 0 ==> r.value == docs)
  {
    var i := IndexWhere(docs, p);
    if i < 0 then Returned(docs)
    else if key(docs[i]) != key(replacement) then Raised(ImmutableIdAltered)
    else Returned(docs[i := replacement])
  }

  /** `FindOneAndReplace(filter, replacement)` with `ReturnDocument.After` and no upsert: as
      `ReplaceOne`, and it also returns the document as stored afterwards, or null with no match. */
  function FindOneAndReplace<T>(docs: seq<T>, key: T -> Id, p: T -> bool, replacement: T): (r: Try<(seq<T>, Option<T>)>)
    ensures var i := IndexWhere(docs, p);
      && (r.Raised? <==> 0 <= i && key(docs[i]) != key(replacement))
      && (r.Raised? ==> r.ex == ImmutableIdAltered)
      && (r.Returned? && 0 <= i ==> r.value == (docs[i := replacement], Some(replacement)))
      && (r.Returned? && i < 0 ==> r.value == (docs, Null))
  {
    var i := IndexWhere(docs, p);
    if i < 0 then Returned((docs, Null))
    else if key(docs[i]) != key(replacement) then Raised(ImmutableIdAltered)
    else Returned((docs[i := replacement], Some(replacement)))
  }

  /** `UpdateOne(filter, update)`: the first match is rewritten by `update`, nothing else changes. */
  function UpdateOne<T>(docs: seq<T>, p: T -> bool, update: T -> T): (r: seq<T>)
    ensures var i := IndexWhere(docs, p);
      && (0 <= i ==> r == docs[i := update(docs[i])])
      && (i < 0 ==> r == docs)
  {
    var i := IndexWhere(docs, p);
    if i < 0 then docs else docs[i := update(docs[i])]
  }

  /** The filter `Eq("_id", id)`. */
  function KeyIs<T>(key: T -> Id, id: Id): T -> bool { (d: T) => key(d) == id }

  /** With distinct keys, the document at `i` is the first one with its key. */
  lemma FirstWithKey<T>(docs: seq<T>, key: T -> Id, i: nat)
    requires UniqueKeys(docs, key)
    requires i < |docs|
    ensures IndexWhere(docs, KeyIs(key, key(docs[i]))) == i
  {
    assert KeyIs(key, key(docs[i]))(docs[i]);
  }

  /** The first document with key `id` exists exactly when `id` is one of the keys. */
  lemma KeyIsFound<T>(docs: seq<T>, key: T -> Id, id: Id)
    ensures 0 <= IndexWhere(docs, KeyIs(key, id)) <==> id in Keys(docs, key)
  {
    var ks := Keys(docs, key);
    var i := IndexWhere(docs, KeyIs(key, id));
    if i < 0 {
      forall k | 0 <= k < |docs| ensures ks[k] != id {
        assert !KeyIs(key, id)(docs[k]);
      }
    } else {
      assert ks[i] == id;
    }
  }

  /** A replace by `_id` with no upsert: with no document of that id nothing changes; otherwise
      that document becomes `doc`, unless `doc`'s own id differs, which the store refuses. The
      keys stay unique. */
  lemma ReplaceByKey<T>(docs: seq<T>, key: T -> Id, id: Id, doc: T)
    requires UniqueKeys(docs, key)
    ensures var r := ReplaceOne(docs, key, KeyIs(key, id), doc);
      && (id !in Keys(docs, key) ==> r == Returned(docs))
      && (id in Keys(docs, key) && key(doc) != id ==> r == Raised(ImmutableIdAltered))
      && (id in Keys(docs, key) && key(doc) == id ==>
            && r.Returned? && |r.value| == |docs| && UniqueKeys(r.value, key)
            && forall k :: 0 <= k < |docs| ==> r.value[k] == if key(docs[k]) == id then doc else docs[k])
  {
    KeyIsFound(docs, key, id);
    var i := IndexWhere(docs, KeyIs(key, id));
    if 0 <= i && key(doc) == id {
      ReplaceKeepsKeys(docs, key, i, doc);
      forall k | 0 <= k < |docs| && key(docs[k]) == id ensures k == i {
        assert key(docs[k]) == key(docs[i]);
      }
    }
  }

  /** The result of a driver write as a `Task` outcome. */
  function OutcomeOf<T>(r: Try<T>): (o: Outcome)
    ensures o.Completed? <==> r.Returned?
    ensures r.Raised? ==> o == Threw(r.ex)
  {
    if r.Returned? then Completed else Threw(r.ex)
  }

  /** The collection after a write that may throw: the written one, or the old one. */
  function Written<T>(docs: seq<T>, r: Try<seq<T>>): (d: seq<T>)
    ensures r.Returned? ==> d == r.value
    ensures r.Raised? ==> d == docs
  {
    if r.Returned? then r.value else docs
  }

  /** Replacing a document by one with the same key keeps the keys, hence their uniqueness. */
  lemma ReplaceKeepsKeys<T>(docs: seq<T>, key: T -> Id, i: nat, doc: T)
    requires i < |docs| && key(docs[i]) == key(doc)
    ensures Keys(docs[i := doc], key) == Keys(docs, key)
    ensures UniqueKeys(docs, key) ==> UniqueKeys(docs[i := doc], key)
  {
  }
}

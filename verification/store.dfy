/**
 The URL collection: its one document shape, the `findOne` query the
 handlers issue against it, and the invariant that the collection's two
 `unique` indexes would enforce.
 */
module UrlStore {
  import opened Wrappers

  /** A persisted URL document: the two fields of the schema. */
  datatype Record = Record(originalUrl: string, shortUrl: int)

  /** The collection, in insertion (natural) order. */
  type Store = seq<Record>

  /** A `findOne` filter: by `original_url` or by `short_url`. */
  datatype Filter = ByUrl(url: string) | ById(id: int)

  predicate Matches(r: Record, f: Filter)
  {
    match f
    case ByUrl(u) => r.originalUrl == u
    case ById(id) => r.shortUrl == id
  }

  /** Some document of the collection satisfies the filter. */
  predicate Contains(s: Store, f: Filter)
  {
    exists i :: 0 <= i < |s| && Matches(s[i], f)
  }

  /** `findOne(filter)` without a sort: the first matching document in
      natural order, or nothing. */
  function FindOne(s: Store, f: Filter): (r: Option<Record>)
    ensures r.Some? <==> Contains(s, f)
    ensures r.Some? ==> exists i :: 0 <= i < |s| && s[i] == r.value && Matches(s[i], f)
                                   && forall j :: 0 <= j < i ==> !Matches(s[j], f)
  {
    if |s| == 0 then None
    else if Matches(s[0], f) then Some(s[0])
    else
      var r := FindOne(s[1..], f);
      assert r.Some? ==> exists i :: 1 <= i < |s| && s[i] == r.value && Matches(s[i], f)
                                   && forall j :: 0 <= j < i ==> !Matches(s[j], f) by {
        if r.Some? {
          var k :| 0 <= k < |s| - 1 && s[1..][k] == r.value && Matches(s[1..][k], f)
                   && forall j :: 0 <= j < k ==> !Matches(s[1..][j], f);
          assert forall j :: 0 <= j < k + 1 ==> !Matches(s[j], f) by {
            forall j | 0 <= j < k + 1 ensures !Matches(s[j], f) {
              if j > 0 { assert s[j] == s[1..][j - 1]; }
            }
          }
        }
      }
      assert Contains(s, f) ==> Contains(s[1..], f) by {
        if Contains(s, f) {
          var i :| 0 <= i < |s| && Matches(s[i], f);
          assert s[1..][i - 1] == s[i];
        }
      }
      r
  }

  /** No two documents share an `original_url` (the field's `unique: true` option). */
  ghost predicate UniqueUrls(s: Store)
  {
    forall i, j :: 0 <= i < j < |s| ==> s[i].originalUrl != s[j].originalUrl
  }

  /** No two documents share a `short_url` (the field's `unique: true` option). */
  ghost predicate UniqueIds(s: Store)
  {
    forall i, j :: 0 <= i < j < |s| ==> s[i].shortUrl != s[j].shortUrl
  }

  /** Every later document carries a larger `short_url` than every earlier one. */
  ghost predicate IdsIncreasing(s: Store)
  {
    forall i, j :: 0 <= i < j < |s| ==> s[i].shortUrl < s[j].shortUrl
  }

  /** The invariant of a collection built only through the shorten handler. */
  ghost predicate Valid(s: Store)
  {
    && UniqueUrls(s)
    && IdsIncreasing(s)
    && forall i :: 0 <= i < |s| ==> s[i].shortUrl >= 1
  }

  /** Increasing ids are in particular unique. */
  lemma IncreasingIdsAreUnique(s: Store)
    requires IdsIncreasing(s)
    ensures UniqueIds(s)
  {
  }

  /** When the matching document is the only one, `findOne` returns it. */
  lemma FindOneUnique(s: Store, f: Filter, k: int)
    requires 0 <= k < |s| && Matches(s[k], f)
    requires forall j :: 0 <= j < |s| && j != k ==> !Matches(s[j], f)
    ensures FindOne(s, f) == Some(s[k])
  {
  }

  /** A URL lookup on a collection with unique URLs finds the one document. */
  lemma FindByUrlInValid(s: Store, k: int)
    requires UniqueUrls(s) && 0 <= k < |s|
    ensures FindOne(s, ByUrl(s[k].originalUrl)) == Some(s[k])
  {
  }

  /** An id lookup on a collection with increasing ids finds the one document. */
  lemma FindByIdInValid(s: Store, k: int)
    requires IdsIncreasing(s) && 0 <= k < |s|
    ensures FindOne(s, ById(s[k].shortUrl)) == Some(s[k])
  {
  }

  /** Appending a document never changes what a lookup that already
      succeeded returns; a lookup that failed now finds the new document
      exactly when it matches. */
  lemma FindOneAfterAppend(s: Store, f: Filter, rec: Record)
    ensures Contains(s, f) ==> FindOne(s + [rec], f) == FindOne(s, f)
    ensures !Contains(s, f) ==>
              FindOne(s + [rec], f) == (if Matches(rec, f) then Some(rec) else None)
  {
    var t := s + [rec];
    if Contains(s, f) {
      var r := FindOne(s, f);
      var i :| 0 <= i < |s| && s[i] == r.value && Matches(s[i], f)
               && forall j :: 0 <= j < i ==> !Matches(s[j], f);
      assert t[i] == s[i];
      FindOnePrefix(t, f, i);
    } else if Matches(rec, f) {
      FindOneUnique(t, f, |s|);
    }
  }

  /** `findOne` only looks as far as the first match. */
  lemma {:induction false} FindOnePrefix(s: Store, f: Filter, i: int)
    requires 0 <= i < |s| && Matches(s[i], f)
    requires forall j :: 0 <= j < i ==> !Matches(s[j], f)
    ensures FindOne(s, f) == Some(s[i])
  {
    if i > 0 {
      assert s[1..][i - 1] == s[i];
      FindOnePrefix(s[1..], f, i - 1);
    }
  }
}

/**
 The `pre('save')` hook of the URL schema: a document being saved for the
 first time gets the largest `short_url` in the collection plus one, or 1
 when the collection is empty; a document saved again keeps what it has.
 */
module Allocator {
  import opened Wrappers
  import opened UrlStore

  /** The `short_url` of the document a descending sort on `short_url`
      puts first. */
  function MaxId(s: Store): (m: int)
    requires |s| > 0
    ensures forall i :: 0 <= i < |s| ==> s[i].shortUrl <= m
    ensures exists i :: 0 <= i < |s| && s[i].shortUrl == m
  {
    if |s| == 1 then s[0].shortUrl
    else
      var rest := MaxId(s[1..]);
      assert forall i :: 1 <= i < |s| ==> s[i] == s[1..][i - 1];
      if s[0].shortUrl >= rest then s[0].shortUrl else rest
  }

  /** The id the hook assigns to a new document saved into `s`. */
  function NextId(s: Store): (r: int)
    ensures |s| == 0 ==> r == 1
    ensures forall i :: 0 <= i < |s| ==> s[i].shortUrl < r
    ensures |s| > 0 ==> exists i :: 0 <= i < |s| && s[i].shortUrl == r - 1
  {
    if |s| == 0 then 1 else MaxId(s) + 1
  }

  /** A document as the hook sees it: `short_url` may still be unset, and
      `isNew` says whether this save is its first. */
  datatype Document = Document(originalUrl: string, shortUrl: Option<int>, isNew: bool)

  /** The hook itself: the document as it is written to the collection. */
  function PreSave(d: Document, s: Store): (r: Document)
    ensures r.originalUrl == d.originalUrl && r.isNew == d.isNew
    ensures !d.isNew ==> r == d
    ensures d.isNew ==> r.shortUrl.Some? && !Contains(s, ById(r.shortUrl.value))
    ensures d.isNew ==> forall i :: 0 <= i < |s| ==> s[i].shortUrl < r.shortUrl.value
    ensures d.isNew && |s| == 0 ==> r.shortUrl == Some(1)
    ensures d.isNew ==> r.shortUrl == Some(NextId(s))
  {
    if !d.isNew then d
    else d.(shortUrl := Some(NextId(s)))
  }

  /** On a collection whose ids grow in insertion order, the next id is the
      last document's id plus one. */
  lemma NextIdFollowsLast(s: Store)
    requires IdsIncreasing(s) && |s| > 0
    ensures NextId(s) == s[|s| - 1].shortUrl + 1
  {
  }

  /** On a collection holding exactly the ids 1..n in order, the next id is n + 1. */
  lemma NextIdAfterDense(s: Store)
    requires forall i :: 0 <= i < |s| ==> s[i].shortUrl == i + 1
    ensures NextId(s) == |s| + 1
  {
    if |s| > 0 {
      var k :| 0 <= k < |s| && s[k].shortUrl == NextId(s) - 1;
      assert s[|s| - 1].shortUrl < NextId(s);
    }
  }
}

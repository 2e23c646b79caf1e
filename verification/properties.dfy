/**
 Properties of the handlers over a sequence of requests: the collection
 invariant, idempotence of shorten, the shorten/resolve round trip, the
 list projection, and the ids a run of fresh URLs receives.
 */
module Properties {
  import opened Wrappers
  import opened UrlStore
  import opened Allocator
  import opened Service

  /** Shorten keeps both `original_url` and `short_url` unique, keeps ids
      growing in insertion order, and never issues an id below 1. */
  lemma ShortenPreservesValid(s: Store, url: Option<string>, hostResolves: bool)
    requires Valid(s)
    ensures Valid(Shorten(s, url, hostResolves).store)
    ensures UniqueIds(Shorten(s, url, hostResolves).store)
  {
  }

  /** Shortening a URL a second time, while its host still resolves, returns
      the same record and leaves the collection as the first call left it. */
  lemma ShortenIdempotent(s: Store, url: Option<string>, hostResolves: bool)
    requires Shorten(s, url, hostResolves).reply.Shortened?
    ensures var first := Shorten(s, url, hostResolves);
            Shorten(first.store, url, true) == first
  {
    var first := Shorten(s, url, hostResolves);
    var u := url.value;
    if Contains(s, ByUrl(u)) {
      assert FindOne(s, ByUrl(u)).Some?;
    } else {
      FindOneAfterAppend(s, ByUrl(u), first.reply.record);
    }
  }

  /** Resolving the id shorten returned redirects to the URL that was
      submitted. */
  lemma ShortenResolveRoundTrip(s: Store, url: Option<string>, hostResolves: bool)
    requires Valid(s)
    requires Shorten(s, url, hostResolves).reply.Shortened?
    ensures var r := Shorten(s, url, hostResolves);
            Resolve(r.store, Some(r.reply.record.shortUrl)) == Redirect(url.value)
  {
    var r := Shorten(s, url, hostResolves);
    ShortenPreservesValid(s, url, hostResolves);
    var k :| 0 <= k < |r.store| && r.store[k] == r.reply.record;
    FindByIdInValid(r.store, k);
  }

  /** A shorten request never changes where an already issued id redirects,
      nor makes a missing id appear except as the id it issues. */
  lemma ShortenKeepsResolutions(s: Store, url: Option<string>, hostResolves: bool, id: int)
    ensures var r := Shorten(s, url, hostResolves);
            Resolve(s, Some(id)).Redirect? ==> Resolve(r.store, Some(id)) == Resolve(s, Some(id))
    ensures var r := Shorten(s, url, hostResolves);
            Resolve(r.store, Some(id)).Redirect? && Resolve(s, Some(id)).NotFound? ==>
              r.reply.Shortened? && r.reply.record.shortUrl == id
  {
    var r := Shorten(s, url, hostResolves);
    if r.store != s {
      FindOneAfterAppend(s, ById(id), r.reply.record);
    }
  }

  /** Every listed entry resolves to its own `original_url`. */
  lemma ListedEntriesResolve(s: Store, k: int)
    requires Valid(s) && 0 <= k < |List(s)|
    ensures Resolve(s, Some(List(s)[k].shortUrl)) == Redirect(List(s)[k].originalUrl)
  {
  }

  /** The list after a shorten request is the list before it, plus the new
      entry when a document was created. */
  lemma ListAfterShorten(s: Store, url: Option<string>, hostResolves: bool)
    ensures var r := Shorten(s, url, hostResolves);
            List(r.store) == if r.store == s then List(s)
                             else List(s) + [Entry(url.value, r.reply.record.shortUrl)]
  {
  }

  /** The replies and final collection of a run of shorten requests, one
      after another, for URLs whose hosts all resolve. */
  datatype Run = Run(replies: seq<ShortenReply>, store: Store)

  function ShortenEach(s: Store, urls: seq<string>): (r: Run)
    ensures |r.replies| == |urls|
    ensures |s| <= |r.store| <= |s| + |urls|
    ensures r.store[..|s|] == s
    decreases |urls|
  {
    if |urls| == 0 then Run([], s)
    else
      var step := Shorten(s, Some(urls[0]), true);
      var rest := ShortenEach(step.store, urls[1..]);
      Run([step.reply] + rest.replies, rest.store)
  }

  /** A collection holding exactly the ids 1..|s| in insertion order. */
  ghost predicate Dense(s: Store)
  {
    forall i :: 0 <= i < |s| ==> s[i].shortUrl == i + 1
  }

  /** One fresh URL shortened onto a collection holding ids 1..n gets n + 1. */
  lemma ShortenFreshOnDense(s: Store, u: string)
    requires Dense(s) && u != "" && !Contains(s, ByUrl(u))
    ensures var rec := Record(u, |s| + 1);
            Shorten(s, Some(u), true) == Step(Shortened(rec), s + [rec])
  {
    NextIdAfterDense(s);
  }

  /** Fresh, distinct URLs shortened one after another onto a collection
      holding ids 1..n receive ids n+1, n+2, ... in submission order. */
  lemma {:induction false} ShortenEachAssignsConsecutiveIds(s: Store, urls: seq<string>)
    requires Dense(s)
    requires forall k :: 0 <= k < |urls| ==> urls[k] != "" && !Contains(s, ByUrl(urls[k]))
    requires forall j, k :: 0 <= j < k < |urls| ==> urls[j] != urls[k]
    ensures var r := ShortenEach(s, urls);
            && |r.store| == |s| + |urls|
            && (forall k :: 0 <= k < |urls| ==> r.store[|s| + k] == Record(urls[k], |s| + k + 1))
            && (forall k :: 0 <= k < |urls| ==> r.replies[k] == Shortened(Record(urls[k], |s| + k + 1)))
    decreases |urls|
  {
    if |urls| > 0 {
      var step := Shorten(s, Some(urls[0]), true);
      var rec := Record(urls[0], |s| + 1);
      ShortenFreshOnDense(s, urls[0]);
      var t := step.store;
      assert Dense(t);
      forall k | 0 <= k < |urls[1..]|
        ensures urls[1..][k] != "" && !Contains(t, ByUrl(urls[1..][k]))
      {
        FindOneAfterAppend(s, ByUrl(urls[1..][k]), rec);
      }
      ShortenEachAssignsConsecutiveIds(t, urls[1..]);
      var rest := ShortenEach(t, urls[1..]);
      var r := ShortenEach(s, urls);
      assert r == Run([step.reply] + rest.replies, rest.store);
      forall k | 0 <= k < |urls|
        ensures r.store[|s| + k] == Record(urls[k], |s| + k + 1)
        ensures r.replies[k] == Shortened(Record(urls[k], |s| + k + 1))
      {
        if k > 0 {
          assert r.store[|s| + k] == rest.store[|t| + (k - 1)];
          assert urls[k] == urls[1..][k - 1];
        } else {
          assert r.store[|s|] == t[|s|] by { assert rest.store[..|t|] == t; }
        }
      }
    }
  }

  /** From an empty collection, N distinct URLs receive the ids 1..N in
      submission order, and the collection holds exactly those N records. */
  lemma ShortenEachFromEmpty(urls: seq<string>)
    requires forall k :: 0 <= k < |urls| ==> urls[k] != ""
    requires forall j, k :: 0 <= j < k < |urls| ==> urls[j] != urls[k]
    ensures var r := ShortenEach([], urls);
            && |r.store| == |urls|
            && (forall k :: 0 <= k < |urls| ==> r.store[k] == Record(urls[k], k + 1))
            && (forall k :: 0 <= k < |urls| ==> r.replies[k] == Shortened(Record(urls[k], k + 1)))
  {
    ShortenEachAssignsConsecutiveIds([], urls);
  }
}

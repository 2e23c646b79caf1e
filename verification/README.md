# URL shortener — Dafny model

This project models the request-handling core of a small URL-shortening
service (`index.js`). The service keeps one collection of URL documents,
each pairing an `original_url` with an integer `short_url`. It offers
three handlers over that collection:

- **shorten** (`POST /api/shorturl`): rejects a missing or empty `url` field
  or a host that does not resolve with `{error: "invalid url"}`. It returns
  the stored document when the URL is already known. Otherwise it creates a
  document whose `short_url` comes from the schema's `pre('save')` hook.
- **resolve** (`GET /api/shorturl/:short_url`): answers 400 "wrong format"
  when `parseInt` yields NaN. It redirects (302) to the document with that
  `short_url`, or answers 404 "No short URL found for the given input".
- **list** (`GET /api/shorturl/list`): every document, projected to
  `original_url` and `short_url`.

The `pre('save')` hook assigns a new document the largest `short_url` in
the collection plus one, or 1 when the collection is empty. A document
saved again keeps its `short_url`.

The collection is an immutable `seq<Record>` in insertion order. Each
handler is a pure function from the collection (and request inputs) to a
reply and, for shorten, the new collection. The source leaves uniqueness of
both fields to the database's `unique` indexes (index.js:17, index.js:21).
Here it is the invariant `UrlStore.Valid`, and every shorten request is
proved to preserve it.

Modules, one per component:

- `wrappers.dfy` — `Option`.
- `store.dfy` — `UrlStore`: the record, the `findOne` query (first match in
  natural order), the uniqueness invariant.
- `allocator.dfy` — `Allocator`: the `pre('save')` hook.
- `service.dfy` — `Service`: the shorten, resolve and list handlers.
- `properties.dfy` — `Properties`: lemmas over sequences of requests.

Inputs that the model takes as parameters rather than computing:

- the outcome of the DNS lookup of the URL's host (`hostResolves: bool`);
- the outcome of `parseInt` on the path parameter (`Option<int>`, `None` for NaN);
- whether the `url` form field is present (`Option<string>`).

## Model

| member | source | states |
|---|---|---|
| UrlStore.FindOne | index.js:78-80 | `findOne` finds a document exactly when some document matches the filter; the one it returns matches and no earlier document does |
| UrlStore.FindOneAfterAppend | index.js:84-86 | inserting a document never changes a lookup that already succeeded; a lookup that failed afterwards finds the new document exactly when it matches |
| UrlStore.FindOnePrefix | index.js:114-116 | `findOne` returns the first matching document in insertion order |
| UrlStore.FindOneUnique | index.js:114-116 | when only one document matches, `findOne` returns that one |
| UrlStore.FindByUrlInValid | index.js:14-18 | with unique `original_url`, looking a stored URL up returns its own document |
| UrlStore.FindByIdInValid | index.js:19-22 | with ids increasing in insertion order, looking a stored id up returns its own document |
| UrlStore.IncreasingIdsAreUnique | index.js:19-22 | ids that grow in insertion order are unique, which is what the `unique` index on `short_url` demands |
| Allocator.MaxId | index.js:32 | the `short_url` of the document a descending sort puts first is at least every stored id and is the id of some stored document |
| Allocator.NextId | index.js:32-35 | the next id is 1 on an empty collection; otherwise it exceeds every stored id and is one more than a stored id |
| Allocator.PreSave | index.js:25-43 | a new document gets exactly `NextId` (the largest stored id plus one, or 1 on an empty collection), an id no stored document has; a document saved again comes back unchanged |
| Allocator.NextIdFollowsLast | index.js:32-35 | when ids grow in insertion order, the next id is the most recently created document's id plus one |
| Allocator.NextIdAfterDense | index.js:32-35 | on a collection holding ids 1..n in order, the next id is n + 1 |
| Service.Shorten | index.js:65-93 | "invalid url" exactly when the field is missing or empty or the host does not resolve, and then the collection is unchanged; a known URL returns its stored document and changes nothing; a new URL appends exactly one document `{original_url: input, short_url: NextId}`, whose id is the largest existing id plus one (1 on an empty collection), leaving the existing documents in place |
| Service.Resolve | index.js:107-124 | "wrong format" exactly when the parse gave NaN; "not found" exactly when no document has the id; otherwise a redirect to the `original_url` of a document with that id |
| Service.List | index.js:96-104 | one entry per document, in collection order, projected to `original_url` and `short_url`; its meaning is stated by `ListAfterShorten` and `ListedEntriesResolve` |
| Properties.ShortenPreservesValid | index.js:13-23 | shorten keeps `original_url` unique, keeps `short_url` unique and increasing in creation order, and issues no id below 1 |
| Properties.ShortenIdempotent | index.js:78-82 | shortening the same URL again returns the same record and leaves the collection as the first request left it |
| Properties.ShortenResolveRoundTrip | index.js:108-116 | resolving the id that shorten returned redirects to exactly the URL that was submitted |
| Properties.ShortenKeepsResolutions | index.js:84-86 | a shorten request never changes where an issued id redirects; an id that newly resolves is the one this request issued |
| Properties.ListedEntriesResolve | index.js:96-99 | every entry of the list resolves to its own `original_url` |
| Properties.ListAfterShorten | index.js:96-99 | after shorten the list is the old list, plus one entry `{original_url: input, short_url: new id}` when a document was created |
| Properties.ShortenFreshOnDense | index.js:84-86 | a new URL shortened onto a collection holding ids 1..n is stored and returned as `{original_url: input, short_url: n + 1}` |
| Properties.ShortenEachAssignsConsecutiveIds | index.js:84-86 | distinct new URLs shortened one after another onto a collection with ids 1..n receive n+1, n+2, ... in submission order, and each reply carries its URL and id |
| Properties.ShortenEachFromEmpty | index.js:32-35 | from an empty collection, N distinct URLs receive the ids 1..N in submission order and the collection holds exactly those N records |

## Left out

- Express wiring, CORS, body parsing, static files, the landing page and `app.listen` (index.js:1-11, 54-61, 126-128): transport plumbing.
- The database connection and its event logging (index.js:48-51): external infrastructure.
- The DNS lookup (index.js:72): a live network call. Its outcome is the `hostResolves` parameter.
- URL parsing with `new URL` (index.js:71): a foreign library. In the source a malformed URL makes that constructor throw outside any `try`. The handler then sends no reply at all rather than "invalid url". The model therefore claims nothing about malformed URLs: a URL that reaches the DNS step is taken as parsed.
- The full behaviour of `parseInt` (index.js:108), such as radix inference and prefix parsing (`"12abc"` gives 12). Only its outcome is modelled, as an `Option<int>`.
- The race between concurrent shorten requests that read the same maximum (index.js:32). The model is sequential. In the source only the `unique` index on `short_url` rejects the second insert, and that surfaces as a 500.
- The 500 "internal server error" paths (index.js:88-91, 100-103, 120-123) and the hook's `next(err)` (index.js:40-41): these are store failures, not logic.
- Documents without a `short_url`: the hook's `short_url !== undefined` test (index.js:35) only matters for documents written outside the handlers. Every document created through shorten gets an id, so `Record.shortUrl` is always present.
- JavaScript numbers are doubles, so ids above 2^53 would lose precision. The model uses unbounded integers.
- MongoDB does not promise any natural order for `find({})` and an unsorted `findOne`. The model fixes that order as insertion order, so `ListAfterShorten` placing the new entry last, and `findOne` returning the first match, rest on that choice.

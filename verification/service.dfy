/**
 The three request handlers, as pure functions of the collection: shorten
 (`POST /api/shorturl`), list (`GET /api/shorturl/list`) and resolve
 (`GET /api/shorturl/:short_url`). The outcomes of the DNS lookup and of
 `parseInt` are inputs.
 */
module Service {
  import opened Wrappers
  import opened UrlStore
  import opened Allocator

  /** The reply of the shorten handler. */
  datatype ShortenReply = Shortened(record: Record) | InvalidUrl
  {
    /** The `error` field of the JSON body, when there is one. It only names
        the reply body; no property depends on it. */
    function Error(): Option<string>
    {
      if InvalidUrl? then Some("invalid url") else None
    }
  }

  /** A shorten request's reply together with the collection after it. */
  datatype Step = Step(reply: ShortenReply, store: Store)

  /** The shorten handler. `url` is the `url` form field (None when it is
      missing); `hostResolves` is whether the DNS lookup of its host name
      succeeded. */
  function Shorten(s: Store, url: Option<string>, hostResolves: bool): (r: Step)
    ensures r.reply.InvalidUrl? <==> url.None? || url.value == "" || !hostResolves
    ensures r.reply.InvalidUrl? ==> r.store == s
    ensures r.reply.Shortened? ==> r.reply.record.originalUrl == url.value
    ensures r.reply.Shortened? && Contains(s, ByUrl(url.value)) ==>
              r.store == s && r.reply.record in s
    ensures r.reply.Shortened? && !Contains(s, ByUrl(url.value)) ==>
              && r.store == s + [r.reply.record]
              && (forall i :: 0 <= i < |s| ==> s[i].shortUrl < r.reply.record.shortUrl)
              && (|s| == 0 ==> r.reply.record.shortUrl == 1)
              && r.reply.record.shortUrl == NextId(s)
  {
    if url.None? || url.value == "" then Step(InvalidUrl, s)
    else if !hostResolves then Step(InvalidUrl, s)
    else
      match FindOne(s, ByUrl(url.value))
      case Some(existing) =>
        Step(Shortened(Record(existing.originalUrl, existing.shortUrl)), s)
      case None =>
        var saved := PreSave(Document(url.value, None, true), s);
        var rec := Record(url.value, saved.shortUrl.value);
        Step(Shortened(rec), s + [rec])
  }

  /** The reply of the resolve handler. */
  datatype ResolveReply = WrongFormat | NotFound | Redirect(target: string)
  {
    /** The HTTP status of the reply. This and `Error` only name the reply
        the handler sends; no property depends on them. */
    function Status(): int
    {
      match this
      case WrongFormat => 400
      case NotFound => 404
      case Redirect(_) => 302
    }

    /** The `error` field of the JSON body, when there is one. */
    function Error(): Option<string>
    {
      match this
      case WrongFormat => Some("wrong format")
      case NotFound => Some("No short URL found for the given input")
      case Redirect(_) => None
    }
  }

  /** The resolve handler. `parsed` is the outcome of `parseInt` on the path
      parameter: None when it is NaN. */
  function Resolve(s: Store, parsed: Option<int>): (r: ResolveReply)
    ensures r.WrongFormat? <==> parsed.None?
    ensures r.NotFound? <==> parsed.Some? && !Contains(s, ById(parsed.value))
    ensures r.Redirect? ==>
              exists i :: 0 <= i < |s| && s[i].shortUrl == parsed.value
                          && s[i].originalUrl == r.target
  {
    if parsed.None? then WrongFormat
    else
      match FindOne(s, ById(parsed.value))
      case Some(rec) => Redirect(rec.originalUrl)
      case None => NotFound
  }

  /** One element of the list reply: the document projected to
      `original_url` and `short_url`. */
  datatype Entry = Entry(originalUrl: string, shortUrl: int)

  /** The list handler: every document, projected, in natural order. */
  function List(s: Store): (r: seq<Entry>)
    ensures |r| == |s|
    ensures forall i :: 0 <= i < |s| ==>
              r[i].originalUrl == s[i].originalUrl && r[i].shortUrl == s[i].shortUrl
  {
    seq(|s|, i requires 0 <= i < |s| => Entry(s[i].originalUrl, s[i].shortUrl))
  }
}

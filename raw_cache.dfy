/** The per-variant request data and the raw response cache kept in it. */
module RawCache {
  import opened Wrappers
  import opened Statistics

  /** What is kept of a resource's response: body, content type and expiry
      (`response.expires`, as a timestamp). */
  datatype Entry = Entry(body: string, contentType: Option<string>, ttl: Option<int>)

  type Cache = map<string, Entry>

  /** The cache after a response for `url` with status code `status` went
      through the middleware. Only URLs seen in a processed document are
      cached: a 200 stores the whole response, a 304 refreshes only the expiry
      of an entry already there and keeps its body and content type, and any
      other response, or any URL never seen, leaves the cache alone. */
  function Recorded(cache: Cache, appearances: Appearances, url: string, status: int,
                    body: string, contentType: Option<string>, ttl: Option<int>): (r: Cache)
    ensures r.Keys == if url in appearances && status == 200 then cache.Keys + {url} else cache.Keys
    ensures forall u :: u in cache && u != url ==> r[u] == cache[u]
    ensures url in appearances && status == 200 ==> r[url] == Entry(body, contentType, ttl)
    ensures url in appearances && status == 304 && url in cache ==>
              r[url] == Entry(cache[url].body, cache[url].contentType, ttl)
    ensures url !in appearances || (status != 200 && status != 304) ==> r == cache
  {
    if url !in appearances then cache
    else if status == 200 then cache[url := Entry(body, contentType, ttl)]
    else if status == 304 && url in cache then
      var previous := cache[url];
      cache[url := Entry(previous.body, previous.contentType, ttl)]
    else cache
  }

  /** A 304 after a 200 keeps the body and type of the 200 and takes the
      newer expiry, whatever the 304's own body and type. */
  lemma NotModifiedAfterOk(cache: Cache, appearances: Appearances, url: string,
                           body: string, contentType: Option<string>, ttl: Option<int>,
                           body': string, contentType': Option<string>, ttl': Option<int>)
    requires url in appearances
    ensures var first := Recorded(cache, appearances, url, 200, body, contentType, ttl);
            Recorded(first, appearances, url, 304, body', contentType', ttl')
              == cache[url := Entry(body, contentType, ttl')]
  {
  }

  /** The same response recorded twice leaves what recording it once left. */
  lemma RecordedIdempotent(cache: Cache, appearances: Appearances, url: string, status: int,
                           body: string, contentType: Option<string>, ttl: Option<int>)
    ensures var once := Recorded(cache, appearances, url, status, body, contentType, ttl);
            Recorded(once, appearances, url, status, body, contentType, ttl) == once
  {
    var once := Recorded(cache, appearances, url, status, body, contentType, ttl);
    if url in appearances && status == 304 && url in cache {
      assert once[url := Entry(once[url].body, once[url].contentType, ttl)] == once;
    } else if url in appearances && status == 200 {
      assert once[url := Entry(body, contentType, ttl)] == once;
    }
  }

  /** `AcceptRequestData`: the statistics and the raw cache kept for one
      value of the response's `Vary` headers. */
  class AcceptRequestData {
    var appearances: Appearances
    var javascripts: Groups
    var stylesheets: Groups
    var cache: Cache

    constructor()
      ensures appearances == map[] && javascripts == map[] && stylesheets == map[] && cache == map[]
    {
      appearances := map[];
      javascripts := map[];
      stylesheets := map[];
      cache := map[];
    }

    /** The cache update at the end of a request for `url`; `body` is the
        response body after the stylesheet `url(...)` rewriting. */
    method RecordResponse(url: string, status: int, body: string, contentType: Option<string>, ttl: Option<int>)
      modifies this`cache
      ensures cache == Recorded(old(cache), appearances, url, status, body, contentType, ttl)
    {
      if url in appearances {
        if status == 200 {
          cache := cache[url := Entry(body, contentType, ttl)];
        } else if status == 304 {
          if url in cache {
            var previous := cache[url];
            cache := cache[url := Entry(previous.body, previous.contentType, ttl)];
          }
        }
      }
    }
  }
}

/** The parts of the browser platform the workers use: responses, the network
    and the origin's CacheStorage. Only what the workers rely on is modelled. */
module FetchApi {
  import opened Wrappers

  newtype byte = x: int | 0 <= x < 256

  /** A `Headers` object as `forEach` and `get` see it: names lower-case,
      repeated headers already combined into one value. */
  type Headers = map<string, string>

  /** A response, and equally a cache entry (a cache stores responses). */
  datatype Response = Response(status: int, statusText: string, headers: Headers, body: seq<byte>)

  /** `headers.get(name)` followed by JavaScript's truthiness test: a header that
      is absent, or present with the empty string as its value, reads as None. */
  function TruthyHeader(headers: Headers, name: string): (r: Option<string>)
    ensures r.Some? <==> name in headers && headers[name] != ""
    ensures r.Some? ==> r.value == headers[name]
  {
    if name in headers && headers[name] != "" then Some(headers[name]) else None
  }

  /** The network as an oracle: `respond(url)` is what `fetch(url)` resolves to,
      None when it rejects (a network error). Every request is logged, so that
      contracts can say how many network calls an operation makes. */
  class Network {
    const respond: string -> Option<Response>
    var requests: seq<string>

    constructor (respond: string -> Option<Response>)
      ensures this.respond == respond && requests == []
    {
      this.respond := respond;
      requests := [];
    }

    method Fetch(url: string) returns (r: Option<Response>)
      modifies this
      ensures r == respond(url)
      ensures requests == old(requests) + [url]
    {
      r := respond(url);
      requests := requests + [url];
    }
  }

  /** The cache store once `name` has been opened: `caches.open` creates a
      missing cache and leaves an existing one as it is. */
  function Opened(caches: map<string, map<string, Response>>, name: string): map<string, map<string, Response>> {
    if name in caches then caches else caches[name := map[]]
  }

  /** The contents of cache `name`, empty when there is no such cache yet. */
  function Bucket(caches: map<string, map<string, Response>>, name: string): map<string, Response> {
    if name in caches then caches[name] else map[]
  }

  /** Opening a cache and then replacing its contents is replacing them
      directly; the opened cache starts out as `Bucket`. */
  lemma OpenedThenReplaced(caches: map<string, map<string, Response>>, name: string,
                           contents: map<string, Response>)
    ensures name in Opened(caches, name) && Opened(caches, name)[name] == Bucket(caches, name)
    ensures Opened(caches, name)[name := contents] == caches[name := contents]
  {
  }

  /** Replacing a cache's contents twice keeps only the second. */
  lemma ReplacedTwice(caches: map<string, map<string, Response>>, name: string,
                      first: map<string, Response>, second: map<string, Response>)
    ensures caches[name := first][name := second] == caches[name := second]
  {
  }

  /** The origin's CacheStorage: cache name -> (request URL -> stored response). */
  class CacheStorage {
    var caches: map<string, map<string, Response>>

    constructor ()
      ensures caches == map[]
    {
      caches := map[];
    }

    /** `caches.keys()` */
    method Keys() returns (names: set<string>)
      ensures names == caches.Keys
    {
      names := caches.Keys;
    }

    /** `caches.open(name)` */
    method Open(name: string)
      modifies this
      ensures caches == Opened(old(caches), name)
    {
      if name !in caches {
        caches := caches[name := map[]];
      }
    }

    /** `caches.delete(name)` */
    method Delete(name: string) returns (deleted: bool)
      modifies this
      ensures deleted == (name in old(caches))
      ensures caches == old(caches) - {name}
    {
      deleted := name in caches;
      caches := caches - {name};
    }

    /** `cache.keys()` on the opened cache `name` */
    method EntryKeys(name: string) returns (keys: set<string>)
      requires name in caches
      ensures keys == caches[name].Keys
    {
      keys := caches[name].Keys;
    }

    /** `cache.match(url)` on the opened cache `name` */
    method Match(name: string, url: string) returns (r: Option<Response>)
      requires name in caches
      ensures r == if url in caches[name] then Some(caches[name][url]) else None
    {
      r := if url in caches[name] then Some(caches[name][url]) else None;
    }

    /** `cache.put(url, response)` on the opened cache `name` */
    method Put(name: string, url: string, response: Response)
      requires name in caches
      modifies this
      ensures caches == old(caches)[name := old(caches)[name][url := response]]
    {
      caches := caches[name := caches[name][url := response]];
    }

    /** `cache.delete(url)` on the opened cache `name` */
    method DeleteEntry(name: string, url: string) returns (deleted: bool)
      requires name in caches
      modifies this
      ensures deleted == (url in old(caches)[name])
      ensures caches == old(caches)[name := old(caches)[name] - {url}]
    {
      deleted := url in caches[name];
      caches := caches[name := caches[name] - {url}];
    }
  }
}

/** The service worker (src/pwa/pwa.service-worker.ts): the install handler
    precaches the manifest, the activate handler deletes the caches of other
    versions, and the fetch handler serves manifest resources from the precache
    while their stamp is in the future and refetches them otherwise. */
module ServiceWorker {
  import opened Wrappers
  import opened PwaConfig
  import opened FetchApi
  import opened PwaHelper
  import opened HttpDate

  // ---------------------------------------------------------------------------
  // Install
  // ---------------------------------------------------------------------------

  /** The manifest paths resolved against the worker's origin, as `fetch` and
      `cache.put` resolve the relative URLs they are given. */
  function PrecacheRequests(origin: string): (urls: seq<string>)
    ensures |urls| == |PrecacheUrls|
    ensures forall i | 0 <= i < |urls| :: urls[i] == origin + PrecacheUrls[i]
  {
    seq(|PrecacheUrls|, i requires 0 <= i < |PrecacheUrls| => origin + PrecacheUrls[i])
  }

  /** The precache after `cacheUrl` has run for each of `urls` in turn. */
  function Precached(bucket: map<string, Response>, urls: seq<string>,
                     respond: string -> Option<Response>, now: nat): map<string, Response>
  {
    if urls == [] then bucket
    else
      var last := urls[|urls| - 1];
      AfterCacheUrl(Precached(bucket, urls[..|urls| - 1], respond, now), last, respond(last), now)
  }

  /** Every fetch of the batch resolved, so `Promise.all` resolved. */
  predicate AllCached(urls: seq<string>, respond: string -> Option<Response>) {
    forall i | 0 <= i < |urls| :: Cacheable(respond(urls[i]))
  }

  /** After precaching, a URL of the batch whose fetch succeeded holds a fresh
      copy; every other key keeps what it held, and nothing else is added. */
  lemma {:induction false} PrecachedContents(bucket: map<string, Response>, urls: seq<string>,
                                             respond: string -> Option<Response>, now: nat, k: string)
    ensures k in urls && Cacheable(respond(k)) ==>
      k in Precached(bucket, urls, respond, now) && Precached(bucket, urls, respond, now)[k] == CachedCopy(respond(k).value, now)
    ensures !(k in urls && Cacheable(respond(k))) ==>
      (k in Precached(bucket, urls, respond, now) <==> k in bucket)
      && (k in bucket ==> Precached(bucket, urls, respond, now)[k] == bucket[k])
  {
    if urls != [] {
      var init := urls[..|urls| - 1];
      PrecachedContents(bucket, init, respond, now, k);
      assert k in urls <==> k in init || k == urls[|urls| - 1] by {
        assert urls == init + [urls[|urls| - 1]];
      }
    }
  }

  /** `Promise.all(urls.map((url) => cacheUrl(cache, 'Pre-caching', url)))`: every
      fetch is started, and the batch resolves only when each of them does. */
  method PrecacheAll(storage: CacheStorage, network: Network, cache: string, urls: seq<string>, now: nat)
    returns (allResolved: bool)
    requires cache in storage.caches
    modifies storage, network
    ensures network.requests == old(network.requests) + urls
    ensures storage.caches == old(storage.caches)[cache := Precached(old(storage.caches)[cache], urls, network.respond, now)]
    ensures allResolved == AllCached(urls, network.respond)
  {
    ghost var bucket := storage.caches[cache];
    allResolved := true;
    var i := 0;
    while i < |urls|
      invariant 0 <= i <= |urls|
      invariant network.requests == old(network.requests) + urls[..i]
      invariant storage.caches == old(storage.caches)[cache := Precached(bucket, urls[..i], network.respond, now)]
      invariant allResolved == AllCached(urls[..i], network.respond)
    {
      PrecachedStep(bucket, urls, i, network.respond, now);
      AllCachedStep(urls, i, network.respond);
      ReplacedTwice(old(storage.caches), cache, Precached(bucket, urls[..i], network.respond, now),
                    Precached(bucket, urls[..i + 1], network.respond, now));
      var r := CacheUrl(storage, network, cache, PreCaching, urls[i], now);
      allResolved := allResolved && r.Some?;
      assert urls[..i + 1] == urls[..i] + [urls[i]];
      i := i + 1;
    }
    assert urls[..i] == urls;
  }

  lemma AllCachedStep(urls: seq<string>, i: nat, respond: string -> Option<Response>)
    requires i < |urls|
    ensures AllCached(urls[..i + 1], respond) == (AllCached(urls[..i], respond) && Cacheable(respond(urls[i])))
  {
    assert urls[..i + 1][i] == urls[i];
    assert forall j | 0 <= j < i :: urls[..i + 1][j] == urls[..i][j];
  }

  lemma PrecachedStep(bucket: map<string, Response>, urls: seq<string>, i: nat,
                      respond: string -> Option<Response>, now: nat)
    requires i < |urls|
    ensures Precached(bucket, urls[..i + 1], respond, now)
      == AfterCacheUrl(Precached(bucket, urls[..i], respond, now), urls[i], respond(urls[i]), now)
  {
    assert urls[..i + 1][..i] == urls[..i];
  }

  // ---------------------------------------------------------------------------
  // Activate
  // ---------------------------------------------------------------------------

  /** The cache store with only the current version's caches left. */
  function KeepCurrent(caches: map<string, map<string, Response>>): map<string, map<string, Response>> {
    map n | n in caches && n in CurrentCaches :: caches[n]
  }

  /** Activation leaves exactly the old names that are current, with their contents. */
  lemma KeepCurrentKeys(caches: map<string, map<string, Response>>)
    ensures KeepCurrent(caches).Keys == caches.Keys * {PrecacheName, RuntimeName}
    ensures forall n | n in KeepCurrent(caches) :: KeepCurrent(caches)[n] == caches[n]
  {
  }

  /** A store holding both current caches and any number of others ends with exactly two. */
  lemma ActivationKeepsTwo(caches: map<string, map<string, Response>>)
    requires PrecacheName in caches && RuntimeName in caches
    ensures |KeepCurrent(caches)| == 2
  {
    KeepCurrentKeys(caches);
    assert KeepCurrent(caches).Keys == {PrecacheName, RuntimeName};
  }

  // ---------------------------------------------------------------------------
  // Fetch
  // ---------------------------------------------------------------------------

  predicate StartsWith(s: string, prefix: string) {
    |prefix| <= |s| && s[..|prefix|] == prefix
  }

  /** The text of `s` before the first occurrence of `sep`; all of `s` when there is none. */
  function TextBefore(s: string, sep: string): (r: string)
    requires sep != ""
    ensures StartsWith(s, r)
    ensures forall k | 0 <= k < |r| :: !StartsWith(s[k..], sep)
    ensures r == s || StartsWith(s[|r|..], sep)
    decreases |s|
  {
    if s == [] || StartsWith(s, sep) then []
    else
      var rest := TextBefore(s[1..], sep);
      assert forall k | 1 <= k <= |s| :: s[k..] == s[1..][k - 1..];
      [s[0]] + rest
  }

  /** `url.startsWith(origin) && PRECACHE_URLS.includes(url.split(origin)[1])`.
      `split` cuts at every occurrence of the origin, so the element tested is the
      text after the leading origin up to the next occurrence of the origin; an
      empty separator splits into single characters. */
  predicate Intercepts(url: string, origin: string) {
    StartsWith(url, origin)
    && if origin == [] then |url| >= 2 && url[1..2] in PrecacheUrls
       else TextBefore(url[|origin|..], origin) in PrecacheUrls
  }

  lemma {:induction false} TextBeforeNoOccurrence(s: string, sep: string)
    requires sep != ""
    requires forall i | 0 <= i < |s| :: !StartsWith(s[i..], sep)
    ensures TextBefore(s, sep) == s
    decreases |s|
  {
    if s != [] {
      assert s[0..] == s;
      forall i | 0 <= i < |s[1..]| ensures !StartsWith(s[1..][i..], sep) {
        assert s[1..][i..] == s[i + 1..];
      }
      TextBeforeNoOccurrence(s[1..], sep);
    }
  }

  /** For a path in which the origin does not occur, the request is intercepted
      exactly when the path is in the manifest, so a query string or fragment
      defeats the match. */
  lemma InterceptsExactlyManifestPaths(origin: string, path: string)
    requires origin != []
    requires forall i | 0 <= i < |path| :: !StartsWith(path[i..], origin)
    ensures Intercepts(origin + path, origin) <==> path in PrecacheUrls
  {
    var url := origin + path;
    assert url[..|origin|] == origin;
    assert url[|origin|..] == path;
    TextBeforeNoOccurrence(path, origin);
  }

  /** A URL that repeats the origin after a slash is intercepted whatever follows:
      the element tested is "/", which is in the manifest. */
  lemma RepeatedOriginIsIntercepted(origin: string, tail: string)
    requires origin != [] && origin[0] != '/'
    ensures Intercepts(origin + "/" + origin + tail, origin)
  {
    var url := origin + "/" + origin + tail;
    var rest := url[|origin|..];
    assert url[..|origin|] == origin;
    assert rest == "/" + origin + tail;
    assert !StartsWith(rest, origin) by {
      assert rest[..|origin|][0] == '/';
    }
    assert rest[1..] == origin + tail;
    assert StartsWith(rest[1..], origin) by {
      assert (origin + tail)[..|origin|] == origin;
    }
    assert TextBefore(rest, origin) == "/";
  }

  /** The fetch handler's test for serving a cached copy: it has a non-empty
      `sw-cache-expires` header that parses to an instant strictly after `now`. */
  predicate IsFresh(entry: Response, now: int, parse: string -> Option<int>) {
    var stamp := TruthyHeader(entry.headers, SwExpiresHeaderName);
    stamp.Some? && parse(stamp.value).Some? && parse(stamp.value).value > now
  }

  /** The answer the fetch handler gives a request: no `respondWith` at all, a
      response, or a rejected promise (a network error for the page). */
  datatype FetchOutcome = PassThrough | Respond(response: Response) | NetworkError

  // ---------------------------------------------------------------------------
  // The worker
  // ---------------------------------------------------------------------------

  class ServiceWorker {
    const storage: CacheStorage
    const network: Network
    /** `self.location.origin` */
    const origin: string
    /** `process.env.NODE_ENV === 'development'`, fixed when the worker is built */
    const development: bool
    /** `Date.parse`: milliseconds since the epoch, None for NaN */
    const parseDate: string -> Option<int>
    /** `self.skipWaiting()` has been called */
    var waitingSkipped: bool
    /** `self.clients.claim()` has been called */
    var clientsClaimed: bool

    constructor (storage: CacheStorage, network: Network, origin: string, development: bool,
                 parseDate: string -> Option<int>)
      ensures this.storage == storage && this.network == network && this.origin == origin
      ensures this.development == development && this.parseDate == parseDate
      ensures !waitingSkipped && !clientsClaimed
    {
      this.storage := storage;
      this.network := network;
      this.origin := origin;
      this.development := development;
      this.parseDate := parseDate;
      waitingSkipped := false;
      clientsClaimed := false;
    }

    /** The install handler: open the precache, run `cacheUrl` for every manifest
        path (all of them, even after one fails), and call `skipWaiting` only
        when every one of them resolved. A failure is logged, never rethrown. */
    method OnInstall(now: nat)
      modifies this, storage, network
      ensures clientsClaimed == old(clientsClaimed)
      ensures development ==>
        storage.caches == old(storage.caches) && network.requests == old(network.requests)
        && waitingSkipped == old(waitingSkipped)
      ensures !development ==>
        network.requests == old(network.requests) + PrecacheRequests(origin)
        && storage.caches == old(storage.caches)[PrecacheName :=
             Precached(Bucket(old(storage.caches), PrecacheName), PrecacheRequests(origin), network.respond, now)]
        && waitingSkipped == (old(waitingSkipped) || AllCached(PrecacheRequests(origin), network.respond))
    {
      if development {
        return;
      }
      ghost var before := storage.caches;
      storage.Open(PrecacheName);
      var urls := PrecacheRequests(origin);
      var allResolved := PrecacheAll(storage, network, PrecacheName, urls, now);
      OpenedThenReplaced(before, PrecacheName, Precached(Bucket(before, PrecacheName), urls, network.respond, now));
      if allResolved {
        waitingSkipped := true;
      }
    }

    /** The activate handler: delete every cache whose name is not current, then
        claim the open pages. */
    method OnActivate()
      modifies this, storage
      ensures waitingSkipped == old(waitingSkipped)
      ensures development ==> storage.caches == old(storage.caches) && clientsClaimed == old(clientsClaimed)
      ensures !development ==> storage.caches == KeepCurrent(old(storage.caches)) && clientsClaimed
    {
      if development {
        return;
      }
      var names := storage.Keys();
      var toDelete := set n | n in names && n !in CurrentCaches;
      var remaining := toDelete;
      while remaining != {}
        invariant remaining <= toDelete
        invariant storage.caches == map n | n in old(storage.caches) && (n in CurrentCaches || n in remaining) :: old(storage.caches)[n]
        modifies storage
        decreases remaining
      {
        var name :| name in remaining;
        var _ := storage.Delete(name);
        remaining := remaining - {name};
      }
      clientsClaimed := true;
    }

    /** The fetch handler for a request to `url` at time `now`. */
    method OnFetch(url: string, now: nat) returns (outcome: FetchOutcome)
      modifies storage, network
      ensures development || !Intercepts(url, origin) ==>
        outcome == PassThrough && storage.caches == old(storage.caches) && network.requests == old(network.requests)
      ensures !development && Intercepts(url, origin) ==>
        var bucket := Bucket(old(storage.caches), PrecacheName);
        if url in bucket && IsFresh(bucket[url], now, parseDate) then
          outcome == Respond(bucket[url]) && network.requests == old(network.requests)
          && storage.caches == old(storage.caches)[PrecacheName := bucket]
        else
          network.requests == old(network.requests) + [url]
          && outcome == (if Cacheable(network.respond(url)) then Respond(network.respond(url).value) else NetworkError)
          && storage.caches == old(storage.caches)[PrecacheName := AfterCacheUrl(bucket, url, network.respond(url), now)]
    {
      if development || !Intercepts(url, origin) {
        return PassThrough;
      }
      ghost var before := storage.caches;
      ghost var bucket := Bucket(before, PrecacheName);
      storage.Open(PrecacheName);
      OpenedThenReplaced(before, PrecacheName, bucket);
      OpenedThenReplaced(before, PrecacheName, AfterCacheUrl(bucket, url, network.respond(url), now));
      var response := storage.Match(PrecacheName, url);
      if response.None? {
        // The "runtime" fallback: it reopens the precache and looks the request
        // up again, but its callback assigns `response` only after the decision
        // below has been taken, so its result is never used.
        storage.Open(PrecacheName);
        var late := storage.Match(PrecacheName, url);
      }
      if response.Some? {
        var stamp := TruthyHeader(response.value.headers, SwExpiresHeaderName);
        if stamp.Some? {
          var expires := parseDate(stamp.value);
          if expires.Some? && expires.value > now {
            return Respond(response.value);
          }
        }
      }
      var fetched := CacheUrl(storage, network, PrecacheName, Updating, url, now);
      outcome := if fetched.Some? then Respond(fetched.value) else NetworkError;
    }
  }

  /** End to end: a manifest resource precached at `now` (whose response does
      not carry its own stamp) is served from the cache by every fetch before
      the whole second one week later, and refetched from then on, when
      `Date.parse` reads the HTTP dates the cache writes. */
  lemma PrecachedCopyServedForOneWeek(bucket: map<string, Response>, urls: seq<string>,
                                      respond: string -> Option<Response>, now: nat, url: string, later: int)
    requires url in urls && Cacheable(respond(url))
    requires SwExpiresHeaderName !in respond(url).value.headers
    ensures var b := Precached(bucket, urls, respond, now);
      url in b
      && (IsFresh(b[url], later, ParseHttpDate)
          <==> later < (now / MillisPerSecond + CachingDuration) * MillisPerSecond)
  {
    PrecachedContents(bucket, urls, respond, now, url);
    var live := respond(url).value;
    StampReadsBack(live, now);
    var stamp := CachedCopy(live, now).headers[SwExpiresHeaderName];
    assert stamp == ToUtcString(ExpiryInstant(now));
    assert |stamp| >= 29;
  }

  /** Serving from the cache needs all three: an entry, a non-empty stamp, and a
      parsed stamp strictly after `now`; a missing or unparsable stamp means a refetch. */
  lemma ServedFromCacheOnlyWhenStamped(entry: Response, now: int, parse: string -> Option<int>)
    ensures IsFresh(entry, now, parse) ==>
      SwExpiresHeaderName in entry.headers && entry.headers[SwExpiresHeaderName] != ""
      && parse(entry.headers[SwExpiresHeaderName]).Some?
      && parse(entry.headers[SwExpiresHeaderName]).value > now
    ensures SwExpiresHeaderName !in entry.headers ==> !IsFresh(entry, now, parse)
  {
  }
}

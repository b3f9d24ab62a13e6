/** The helpers the workers share (src/pwa/pwa.helper.ts): fetching a URL into a
    cache with an expiry stamp, deleting every cache, and reading a response's
    own caching headers. */
module PwaHelper {
  import opened Wrappers
  import opened Chars
  import opened PwaConfig
  import opened HttpDate
  import opened FetchApi

  // ---------------------------------------------------------------------------
  // cacheUrl
  // ---------------------------------------------------------------------------

  /** The label `cacheUrl` puts in its trace line; it has no other effect. */
  datatype Reason = PreCaching | Updating

  /** The instant, in milliseconds, until which a copy fetched at `now` is fresh:
      `expires.setSeconds(expires.getSeconds() + CACHING_DURATION)` keeps the
      milliseconds of `now`. */
  function ExpiryInstant(now: nat): nat {
    now + CachingDuration * MillisPerSecond
  }

  /** `new Response(body, init)` throws when the status is outside 200..599 or
      is one that must not carry a body (204, 205, 304); the body passed here is
      always a Blob, so such a response cannot be rebuilt for the cache. */
  predicate CanRebuild(status: int) {
    200 <= status <= 599 && status != 204 && status != 205 && status != 304
  }

  /** The header record `cacheUrl` builds: the stamp first, then every header of
      the live response copied over it, so a live `sw-cache-expires` wins. */
  function StampedHeaders(live: Headers, now: nat): (h: Headers)
    ensures forall k | k in live :: k in h && h[k] == live[k]
    ensures h.Keys == live.Keys + {SwExpiresHeaderName}
    ensures SwExpiresHeaderName !in live ==> h[SwExpiresHeaderName] == ToUtcString(ExpiryInstant(now))
  {
    map[SwExpiresHeaderName := ToUtcString(ExpiryInstant(now))] + live
  }

  /** The entry `cacheUrl` puts in the cache for the live response `live`. */
  function CachedCopy(live: Response, now: nat): (entry: Response)
    ensures entry.status == live.status && entry.statusText == live.statusText
    ensures entry.body == live.body
    ensures entry.headers == StampedHeaders(live.headers, now)
  {
    Response(live.status, live.statusText, StampedHeaders(live.headers, now), live.body)
  }

  /** Whether a fetch outcome ends with an entry in the cache and a resolved promise. */
  predicate Cacheable(fetched: Option<Response>) {
    fetched.Some? && CanRebuild(fetched.value.status)
  }

  /** The contents of the target cache after `cacheUrl(cache, _, url)` whose fetch gave `fetched`. */
  function AfterCacheUrl(bucket: map<string, Response>, url: string, fetched: Option<Response>, now: nat): (b: map<string, Response>)
    ensures Cacheable(fetched) ==> url in b && b[url] == CachedCopy(fetched.value, now)
    ensures forall k | k in bucket && k != url :: k in b && b[k] == bucket[k]
    ensures forall k | k in b && k != url :: k in bucket
    ensures !Cacheable(fetched) ==> b == bucket
  {
    if Cacheable(fetched) then bucket[url := CachedCopy(fetched.value, now)] else bucket
  }

  /** `cacheUrl(cache, ref, url)`: fetch `url`, put a stamped copy of the response
      into the opened cache `cache` under `url`, and resolve to the live response.
      None stands for the rejected promise. */
  method CacheUrl(storage: CacheStorage, network: Network, cache: string, ref: Reason, url: string, now: nat)
    returns (response: Option<Response>)
    requires cache in storage.caches
    modifies storage, network
    ensures network.requests == old(network.requests) + [url]
    ensures response == if Cacheable(network.respond(url)) then network.respond(url) else None
    ensures storage.caches == old(storage.caches)[cache := AfterCacheUrl(old(storage.caches)[cache], url, network.respond(url), now)]
  {
    var fetched := network.Fetch(url);
    if fetched.None? {
      return None;
    }
    var live := fetched.value;
    var headers := CopyHeaders(live.headers, now);
    if !CanRebuild(live.status) {
      return None;
    }
    storage.Put(cache, url, Response(live.status, live.statusText, headers, live.body));
    response := Some(live);
  }

  /** The header record of the cached copy: the expiry stamp first, then
      every live header copied over it one by one (`headers.forEach`), so a
      live header of the same name wins. */
  method CopyHeaders(live: Headers, now: nat) returns (headers: Headers)
    ensures headers == StampedHeaders(live, now)
  {
    var stamp := ToUtcString(ExpiryInstant(now));
    headers := map[SwExpiresHeaderName := stamp];
    var pending := live.Keys;
    while pending != {}
      invariant pending <= live.Keys
      invariant headers.Keys == (live.Keys - pending) + {SwExpiresHeaderName}
      invariant forall k | k in live && k !in pending :: headers[k] == live[k]
      invariant SwExpiresHeaderName in pending || SwExpiresHeaderName !in live ==>
        headers[SwExpiresHeaderName] == stamp
      decreases pending
    {
      var k :| k in pending;
      headers := headers[k := live[k]];
      pending := pending - {k};
    }
  }

  /** A stamp written by `cacheUrl` reads back as the fetch time truncated to
      whole seconds plus the caching duration. */
  lemma {:induction false} StampReadsBack(live: Response, now: nat)
    requires SwExpiresHeaderName !in live.headers
    ensures ParseHttpDate(CachedCopy(live, now).headers[SwExpiresHeaderName])
      == Some((now / MillisPerSecond + CachingDuration) * MillisPerSecond)
  {
    var ms := ExpiryInstant(now);
    assert CachedCopy(live, now).headers[SwExpiresHeaderName] == ToUtcString(ms);
    UtcStringRoundTrip(ms);
    WholeSecondsShift(now, CachingDuration);
  }

  lemma WholeSecondsShift(now: nat, secs: nat)
    ensures (now + secs * MillisPerSecond) / MillisPerSecond * MillisPerSecond
      == (now / MillisPerSecond + secs) * MillisPerSecond
  {
  }

  /** Statuses outside 2xx are cached like successes, except the bodiless ones. */
  lemma ErrorStatusesAreCached(live: Response)
    requires 400 <= live.status <= 599
    ensures Cacheable(Some(live))
  {
  }

  // ---------------------------------------------------------------------------
  // clearServiceWorkerCache
  // ---------------------------------------------------------------------------

  /** `clearServiceWorkerCache()`: delete every cache of the origin, one by one. */
  method ClearServiceWorkerCache(storage: CacheStorage)
    modifies storage
    ensures storage.caches == map[]
  {
    var keys := storage.Keys();
    if |keys| > 0 {
      var remaining := keys;
      while remaining != {}
        invariant remaining <= keys
        invariant storage.caches == map n | n in remaining :: old(storage.caches)[n]
        decreases remaining
      {
        var name :| name in remaining;
        var _ := storage.Delete(name);
        remaining := remaining - {name};
      }
    }
  }

  // ---------------------------------------------------------------------------
  // getExpiresFromHeaders
  // ---------------------------------------------------------------------------

  const MaxAgeDirective: string := "max-age="

  /** `/max-age=(\d+)/` matches at index `i` of `s`. */
  predicate MaxAgeMatchesAt(s: string, i: nat) {
    i + |MaxAgeDirective| < |s| && s[i..i + |MaxAgeDirective|] == MaxAgeDirective
    && IsDigit(s[i + |MaxAgeDirective|])
  }

  /** The greedy `\d+` from index `i`: the longest run of digits starting there. */
  function DigitRun(s: string, i: nat): (r: string)
    requires i <= |s|
    ensures AllDigits(r) && i + |r| <= |s| && r == s[i..i + |r|]
    ensures i + |r| == |s| || !IsDigit(s[i + |r|])
    decreases |s| - i
  {
    if i < |s| && IsDigit(s[i]) then [s[i]] + DigitRun(s, i + 1) else []
  }

  /** The leftmost index at or after `from` where `/max-age=(\d+)/` matches. */
  function FirstMaxAgeMatch(s: string, from: nat): (r: Option<nat>)
    requires from <= |s|
    ensures r.None? ==> forall i | from <= i < |s| :: !MaxAgeMatchesAt(s, i)
    ensures r.Some? ==> from <= r.value < |s| && MaxAgeMatchesAt(s, r.value)
    ensures r.Some? ==> forall i | from <= i < r.value :: !MaxAgeMatchesAt(s, i)
    decreases |s| - from
  {
    if from == |s| then None
    else if MaxAgeMatchesAt(s, from) then Some(from)
    else FirstMaxAgeMatch(s, from + 1)
  }

  /** `parseInt(maxAge ? maxAge[1] : '0', 10)` */
  function MaxAgeSeconds(cacheControl: string): nat {
    match FirstMaxAgeMatch(cacheControl, 0)
    case None => 0
    case Some(i) => DecimalValue(DigitRun(cacheControl, i + |MaxAgeDirective|))
  }

  /** A JavaScript `number | null` result. */
  datatype Seconds = Null | NaN | Num(value: int)

  /** `parseInt(x.toString(), 10)` of the quotient `a / d`: division truncated toward zero. */
  function TruncDiv(a: int, d: nat): (q: int)
    requires d > 0
    ensures a >= 0 ==> q * d <= a < q * d + d
    ensures a < 0 ==> q * d - d < a <= q * d
  {
    if a >= 0 then a / d else -((-a) / d)
  }

  /** `getExpiresFromHeaders(headers)` as written: with a non-empty Cache-Control,
      the first `max-age=` value or 0; otherwise, with a non-empty Expires, the
      Expires instant in whole seconds minus `now` in MILLISECONDS; otherwise null. */
  function ExpiresFromHeadersAsWritten(headers: Headers, now: nat, parse: string -> Option<int>): (r: Seconds)
    ensures r.Null? <==> TruthyHeader(headers, "cache-control").None? && TruthyHeader(headers, "expires").None?
    ensures r.NaN? <==> (TruthyHeader(headers, "cache-control").None? && TruthyHeader(headers, "expires").Some?
      && parse(headers["expires"]).None?)
    ensures TruthyHeader(headers, "cache-control").Some? ==> r == Num(MaxAgeSeconds(headers["cache-control"]))
    ensures (TruthyHeader(headers, "cache-control").None? && TruthyHeader(headers, "expires").Some?
      && parse(headers["expires"]).Some? && parse(headers["expires"]).value >= 0) ==>
      r.Num? && (r.value + now) * 1000 <= parse(headers["expires"]).value < (r.value + now) * 1000 + 1000
    ensures (TruthyHeader(headers, "cache-control").None? && TruthyHeader(headers, "expires").Some?
      && parse(headers["expires"]).Some? && parse(headers["expires"]).value < 0) ==>
      r.Num? && (r.value + now) * 1000 - 1000 < parse(headers["expires"]).value <= (r.value + now) * 1000
  {
    var cacheControl := TruthyHeader(headers, "cache-control");
    if cacheControl.Some? then Num(MaxAgeSeconds(cacheControl.value))
    else
      var expires := TruthyHeader(headers, "expires");
      if expires.None? then Null
      else match parse(expires.value)
        case None => NaN
        case Some(ms) => Num(TruncDiv(ms, MillisPerSecond) - now)
  }

  /** The evidently intended `getExpiresFromHeaders`: the same, but the Expires
      branch yields the whole seconds from `now` until the Expires instant. */
  function ExpiresFromHeaders(headers: Headers, now: nat, parse: string -> Option<int>): (r: Seconds)
    ensures r.Null? <==> TruthyHeader(headers, "cache-control").None? && TruthyHeader(headers, "expires").None?
    ensures r.NaN? <==> (TruthyHeader(headers, "cache-control").None? && TruthyHeader(headers, "expires").Some?
      && parse(headers["expires"]).None?)
    ensures TruthyHeader(headers, "cache-control").Some? ==> r == Num(MaxAgeSeconds(headers["cache-control"]))
    ensures (TruthyHeader(headers, "cache-control").None? && TruthyHeader(headers, "expires").Some?
      && parse(headers["expires"]).Some? && parse(headers["expires"]).value >= now) ==>
      r.Num? && r.value * 1000 <= parse(headers["expires"]).value - now < r.value * 1000 + 1000
    ensures (TruthyHeader(headers, "cache-control").None? && TruthyHeader(headers, "expires").Some?
      && parse(headers["expires"]).Some? && parse(headers["expires"]).value < now) ==>
      r.Num? && r.value * 1000 - 1000 < parse(headers["expires"]).value - now <= r.value * 1000
  {
    var cacheControl := TruthyHeader(headers, "cache-control");
    if cacheControl.Some? then Num(MaxAgeSeconds(cacheControl.value))
    else
      var expires := TruthyHeader(headers, "expires");
      if expires.None? then Null
      else match parse(expires.value)
        case None => NaN
        case Some(ms) => Num(TruncDiv(ms - now, MillisPerSecond))
  }

  /** A bare directive `max-age=<digits>` yields the digits' value, and the
      Expires header is then not looked at. */
  lemma {:induction false} MaxAgeOfDirective(digits: string, expires: string, now: nat, parse: string -> Option<int>)
    requires |digits| > 0 && AllDigits(digits)
    ensures var h := map["cache-control" := MaxAgeDirective + digits, "expires" := expires];
      ExpiresFromHeadersAsWritten(h, now, parse) == Num(DecimalValue(digits))
  {
    var s := MaxAgeDirective + digits;
    assert MaxAgeMatchesAt(s, 0) by {
      assert s[..|MaxAgeDirective|] == MaxAgeDirective;
      assert s[|MaxAgeDirective|] == digits[0];
    }
    assert s[|MaxAgeDirective|..] == digits;
    assert forall j | |MaxAgeDirective| <= j < |s| :: s[j] == digits[j - |MaxAgeDirective|];
    DigitRunToEnd(s, |MaxAgeDirective|);
  }

  lemma {:induction false} DigitRunToEnd(s: string, i: nat)
    requires i <= |s| && forall j | i <= j < |s| :: IsDigit(s[j])
    ensures DigitRun(s, i) == s[i..]
    decreases |s| - i
  {
    if i < |s| {
      DigitRunToEnd(s, i + 1);
    }
  }

  /** The Expires branch as written mixes units: ten seconds ahead of
      `now` = 1000000 ms it yields -998990 where 10 is meant. */
  lemma ExpiresBranchMixesUnits()
    ensures var h := map["expires" := ToUtcString(1010000)];
      ExpiresFromHeadersAsWritten(h, 1000000, ParseHttpDate) == Num(-998990)
      && ExpiresFromHeaders(h, 1000000, ParseHttpDate) == Num(10)
  {
    UtcStringRoundTrip(1010000);
  }
}

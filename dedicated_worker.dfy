/** The dedicated worker: on a PURGE_EXPIRED message it walks the precache and
    deletes every entry whose stamped expiry date lies in the past. */
module DedicatedWorker {
  import opened Wrappers
  import opened PwaConfig
  import opened HttpDate
  import opened FetchApi
  import opened ServiceWorker

  /** What `JSON.parse(event.data)` can give the handler, as far as the handler
      can tell values apart: `null`, a string, an object with its own
      properties, or anything else (a number, a boolean, an array). */
  datatype JsonValue = JNull | JString(text: string) | JObject(fields: map<string, JsonValue>) | JOther

  /** How one message ends: the handler throws (the data is not JSON, or it is
      `null` and reading `.action` off it is a TypeError), it ignores the
      message, or it starts the purge. */
  datatype MessageOutcome = Threw | Ignored | Purged

  /** `eventData.action === PURGE_EXPIRED_MESSAGE`, with `parsed == None` when
      `JSON.parse` threw. */
  function Classify(parsed: Option<JsonValue>): (o: MessageOutcome)
    ensures o == Threw <==> (parsed.None? || parsed.value.JNull?)
    ensures o == Purged <==> (parsed.Some? && parsed.value.JObject?
                              && "action" in parsed.value.fields
                              && parsed.value.fields["action"] == JString(PurgeExpiredMessage))
  {
    match parsed
    case None => Threw
    case Some(JNull) => Threw
    case Some(JObject(fields)) =>
      if "action" in fields && fields["action"] == JString(PurgeExpiredMessage) then Purged else Ignored
    case Some(_) => Ignored
  }

  /** An entry the purge deletes: it carries a non-empty expiry stamp that
      `Date.parse` reads as an instant strictly before `now` (NaN compares
      false, so an unreadable stamp keeps the entry). */
  predicate IsExpired(entry: Response, now: int, parse: string -> Option<int>) {
    var stamp := TruthyHeader(entry.headers, SwExpiresHeaderName);
    stamp.Some? && parse(stamp.value).Some? && parse(stamp.value).value < now
  }

  /** The precache after the purge: exactly the entries that are not expired. */
  function Swept(bucket: map<string, Response>, now: int, parse: string -> Option<int>): (r: map<string, Response>)
    ensures forall url :: url in r <==> url in bucket && !IsExpired(bucket[url], now, parse)
    ensures forall url | url in r :: r[url] == bucket[url]
  {
    map url | url in bucket && !IsExpired(bucket[url], now, parse) :: bucket[url]
  }

  /** The precache part-way through the purge: the entries still `pending` have
      not been looked at yet and are all still there. */
  ghost function PartlySwept(bucket: map<string, Response>, now: int, parse: string -> Option<int>,
                             pending: set<string>): map<string, Response>
  {
    map url | url in bucket && (url in pending || !IsExpired(bucket[url], now, parse)) :: bucket[url]
  }

  lemma SweepStep(bucket: map<string, Response>, now: int, parse: string -> Option<int>,
                  pending: set<string>, url: string)
    requires url in pending && pending <= bucket.Keys
    ensures PartlySwept(bucket, now, parse, pending - {url})
      == if IsExpired(bucket[url], now, parse)
         then PartlySwept(bucket, now, parse, pending) - {url}
         else PartlySwept(bucket, now, parse, pending)
  {
  }

  /** The message handler. `parsed` is what `JSON.parse(event.data)` gave, and
      one `now` stands for every `Date.now()` of the sweep. */
  method OnMessage(storage: CacheStorage, parsed: Option<JsonValue>, now: int, parse: string -> Option<int>)
    returns (outcome: MessageOutcome)
    modifies storage
    ensures outcome == Classify(parsed)
    ensures outcome == Purged ==>
      storage.caches == Opened(old(storage.caches), PrecacheName)
                          [PrecacheName := Swept(Bucket(old(storage.caches), PrecacheName), now, parse)]
    ensures outcome != Purged ==> storage.caches == old(storage.caches)
  {
    outcome := Classify(parsed);
    if outcome != Purged {
      return;
    }
    ghost var before := storage.caches;
    storage.Open(PrecacheName);
    ghost var afterOpen := storage.caches;
    ghost var bucket := storage.caches[PrecacheName];
    OpenedThenReplaced(before, PrecacheName, Swept(bucket, now, parse));
    var pending := storage.EntryKeys(PrecacheName);
    assert PartlySwept(bucket, now, parse, pending) == bucket;
    while pending != {}
      invariant pending <= bucket.Keys
      invariant storage.caches == afterOpen[PrecacheName := PartlySwept(bucket, now, parse, pending)]
      decreases |pending|
    {
      var url :| url in pending;
      var cached := storage.Match(PrecacheName, url);
      if cached.Some? {
        var stamp := TruthyHeader(cached.value.headers, SwExpiresHeaderName);
        if stamp.Some? {
          var expiration := parse(stamp.value);
          if expiration.Some? && expiration.value < now {
            var _ := storage.DeleteEntry(PrecacheName, url);
          }
        }
      }
      SweepStep(bucket, now, parse, pending, url);
      ReplacedTwice(afterOpen, PrecacheName, PartlySwept(bucket, now, parse, pending),
                    PartlySwept(bucket, now, parse, pending) - {url});
      pending := pending - {url};
    }
    assert PartlySwept(bucket, now, parse, {}) == Swept(bucket, now, parse);
  }

  // ---------------------------------------------------------------------------
  // Properties of the purge
  // ---------------------------------------------------------------------------

  /** Purging twice at the same instant deletes nothing more. */
  lemma SweepIdempotent(bucket: map<string, Response>, now: int, parse: string -> Option<int>)
    ensures Swept(Swept(bucket, now, parse), now, parse) == Swept(bucket, now, parse)
  {
  }

  /** A later purge keeps no entry an earlier one deleted. */
  lemma SweepMonotone(bucket: map<string, Response>, earlier: int, later: int, parse: string -> Option<int>)
    requires earlier <= later
    ensures Swept(bucket, later, parse).Keys <= Swept(bucket, earlier, parse).Keys
  {
  }

  /** Entries without an expiry stamp, or with one `Date.parse` cannot read, are
      never purged. */
  lemma UnstampedEntriesSurvive(bucket: map<string, Response>, url: string, now: int,
                                parse: string -> Option<int>)
    requires url in bucket
    requires TruthyHeader(bucket[url].headers, SwExpiresHeaderName).None?
             || parse(bucket[url].headers[SwExpiresHeaderName]).None?
    ensures url in Swept(bucket, now, parse) && Swept(bucket, now, parse)[url] == bucket[url]
  {
  }

  /** The purge and the fetch handler agree on every stamped entry except one
      that expires at exactly `now`: the purge keeps it (`<`) while the fetch
      handler no longer serves it (`>`). An entry is never both purgeable and
      fresh. */
  lemma PurgeAndFreshnessAgree(entry: Response, now: int, parse: string -> Option<int>)
    ensures !(IsExpired(entry, now, parse) && IsFresh(entry, now, parse))
    ensures (!IsExpired(entry, now, parse) && !IsFresh(entry, now, parse)) <==>
      (var stamp := TruthyHeader(entry.headers, SwExpiresHeaderName);
       stamp.None? || parse(stamp.value).None? || parse(stamp.value).value == now)
  {
  }

  /** A JSON object whose `action` is PURGE_EXPIRED starts the purge. */
  lemma PurgeRequestIsRecognised()
    ensures Classify(Some(JObject(map["action" := JString("PURGE_EXPIRED")]))) == Purged
    ensures Classify(Some(JObject(map["action" := JString("purge_expired")]))) == Ignored
    ensures Classify(Some(JNull)) == Threw
  {
  }

  function StampedEntry(stamp: string): Response {
    Response(200, "OK", map[SwExpiresHeaderName := stamp], [])
  }

  /** An entry stamped by the cache with `expiry` (its HTTP date, so whole
      seconds) is purged exactly when that whole second lies before `now`. */
  lemma StampedEntryExpiry(expiry: nat, now: int)
    ensures IsExpired(StampedEntry(ToUtcString(expiry)), now, ParseHttpDate)
            <==> expiry / MillisPerSecond * MillisPerSecond < now
  {
    UtcStringRoundTrip(expiry);
    FormatIsNotEmpty(expiry);
  }

  lemma FormatIsNotEmpty(expiry: nat)
    ensures ToUtcString(expiry) != ""
  {
    assert |ToUtcString(expiry)| >= 29;
  }

  /** With `Date.parse` reading the HTTP dates the cache writes, one purge over
      three entries: one whose stamp lies before `now` is deleted, one whose
      stamp lies at or after `now` stays, and one without a stamp stays. */
  lemma SweepScenario(early: nat, late: nat, now: int)
    requires early < now <= late / MillisPerSecond * MillisPerSecond
    ensures
      var a := StampedEntry(ToUtcString(early));
      var b := StampedEntry(ToUtcString(late));
      var c := Response(200, "OK", map[], []);
      Swept(map["/a" := a, "/b" := b, "/c" := c], now, ParseHttpDate) == map["/b" := b, "/c" := c]
  {
    StampedEntryExpiry(early, now);
    StampedEntryExpiry(late, now);
    SweepThree(StampedEntry(ToUtcString(early)), StampedEntry(ToUtcString(late)),
               Response(200, "OK", map[], []), now, ParseHttpDate);
  }

  lemma SweepThree(a: Response, b: Response, c: Response, now: int, parse: string -> Option<int>)
    requires IsExpired(a, now, parse) && !IsExpired(b, now, parse) && !IsExpired(c, now, parse)
    ensures Swept(map["/a" := a, "/b" := b, "/c" := c], now, parse) == map["/b" := b, "/c" := c]
  {
    var bucket := map["/a" := a, "/b" := b, "/c" := c];
    assert Swept(bucket, now, parse).Keys == {"/b", "/c"};
  }
}

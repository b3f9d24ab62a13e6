/** The service worker's build-time configuration (src/pwa/pwa.config.ts). */
module PwaConfig {

  /** Name of the versioned cache that holds the precached resources. */
  const PrecacheName: string := "precache-v1"
  /** Name of the unversioned runtime cache. */
  const RuntimeName: string := "runtime"
  /** How long a cached copy stays fresh, in seconds. */
  const CachingDuration: nat := 7 * 24 * 3600
  /** The extra response header that carries a cached copy's expiry date. */
  const SwExpiresHeaderName: string := "sw-cache-expires"
  /** The `action` of the message that asks for an expired-entry sweep. */
  const PurgeExpiredMessage: string := "PURGE_EXPIRED"

  /** The local resources that are always cached, as paths relative to the origin. */
  const PrecacheUrls: seq<string> := [
    "/manifest.json",
    "/images/icons/hello-icon-144.png",
    "/favicon.png",
    "/",
    "/main.css",
    "/main.mjs",
    "/scripts/vendor.mjs"
  ]

  /** The caches the current version keeps; every other cache is deleted on activation. */
  const CurrentCaches: seq<string> := [PrecacheName, RuntimeName]

  lemma CachingDurationIsOneWeek()
    ensures CachingDuration == 604800
  {
  }

  lemma CacheNamesDiffer()
    ensures PrecacheName != RuntimeName
    ensures |CurrentCaches| == 2 && CurrentCaches[0] != CurrentCaches[1]
  {
  }

  lemma PrecacheUrlsWellFormed()
    ensures |PrecacheUrls| == 7
    ensures forall i, j | 0 <= i < j < |PrecacheUrls| :: PrecacheUrls[i] != PrecacheUrls[j]
    ensures forall i | 0 <= i < |PrecacheUrls| :: |PrecacheUrls[i]| > 0 && PrecacheUrls[i][0] == '/'
    ensures "/" in PrecacheUrls
  {
  }

  lemma HeaderAndActionNames()
    ensures SwExpiresHeaderName == "sw-cache-expires" && PurgeExpiredMessage == "PURGE_EXPIRED"
    ensures forall i | 0 <= i < |SwExpiresHeaderName| :: !('A' <= SwExpiresHeaderName[i] <= 'Z')
  {
  }
}

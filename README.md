# Offline caching of a chat front end, in Dafny

This project models the offline layer of a single-page chat client. It also
models two small string helpers the client adds to `String.prototype`.

- **Service worker.** On install it precaches seven manifest resources into
  the cache `precache-v1`. Each stored copy gets an extra `sw-cache-expires`
  header set one week ahead. On activation it deletes every cache other than
  `precache-v1` and `runtime`. On fetch it serves a manifest resource from the
  precache while that stamp lies in the future, and otherwise refetches the
  resource and restamps it.
- **Helpers.** `cacheUrl` fetches and stores a stamped copy.
  `clearServiceWorkerCache` deletes every cache. `getExpiresFromHeaders`
  reads a response's own caching headers.
- **Dedicated worker.** On a `PURGE_EXPIRED` message it deletes every
  precache entry whose stamp lies in the past.
- **String helpers.** `toCamelCase` and `toSpinalCase`.

The platform is modelled in `fetch_api.dfy`:
- `CacheStorage` is a class whose field maps cache names to caches (request URL to stored response). Its methods are the Cache API calls the workers make.
- `Network` is an oracle class. `respond(url)` is what `fetch(url)` resolves to, with `None` for a rejection. A `requests` log lets contracts count network calls.
- `Date.parse` is a parameter of the handlers: milliseconds, or `None` for NaN.
- `http_date.dfy` gives a reference `toUTCString` writer and reader for the IMF-fixdate form of section 7.1.1.1 of RFC 7231, with their round trip proved. The end-to-end lemmas use it.

The handlers are methods of the class `ServiceWorker.ServiceWorker` and of
the module `DedicatedWorker`. Each one states its whole effect on the caches
and the network log in terms of specification functions (`Precached`,
`KeepCurrent`, `AfterCacheUrl`, `Swept`), and lemmas state what those
functions guarantee.

Behaviour of the code that the contracts make explicit:

- **Statuses that cannot be rebuilt.** `cacheUrl` rebuilds the response with
  `new Response(blob, init)`, which throws for a status outside 200..599 and
  for 204, 205 and 304. For those statuses the promise rejects after the
  fetch, and nothing is cached.
  - 4xx and 5xx responses are cached like successes (`ErrorStatusesAreCached`).
  - A 204 or 304 makes install skip `skipWaiting`.
  - A 204 or 304 makes the fetch handler answer with a network error.
  - See `Cacheable` and `CanRebuild`.
- **Interception.** Interception uses `url.split(origin)[1]`. The path tested
  is the text after the leading origin, up to the next occurrence of the
  origin.
  - A query string defeats the match (`InterceptsExactlyManifestPaths`).
  - A URL of the form `origin + "/" + origin + anything` is intercepted as
    `/` (`RepeatedOriginIsIntercepted`).
- **The "runtime" fallback in the fetch handler.** It opens `precache-v1`
  again, not `runtime`, and it assigns its lookup only after the decision has
  been taken. It therefore has no effect on the outcome, and no handler ever
  writes `runtime` (`OnFetch` changes only `precache-v1`).
- **An entry that expires exactly at `now`.**
  - The purge compares with `<` and keeps it.
  - The fetch handler compares with `>` and refetches it (`PurgeAndFreshnessAgree`).
- **`toCamelCase` before leading white space.** It raises the first word,
  because the white space is removed only after the case pass: `" ab"`
  becomes `"Ab"` (`LeadingSpaceCapitalises`). Conversion is idempotent only
  for inputs that do not start with a separator (`CamelCaseIdempotent`).
- **`toSpinalCase`** follows ECMAScript's `split` algorithm step by step. A
  capital right after a separator gets no second hyphen, and neither does a
  capital at index 0 (`SplitJoinIsExpand`, `SpinalCaseByCharacter`).

## Model

| member | source | states |
|---|---|---|
| PwaConfig.CachingDurationIsOneWeek | src/pwa/pwa.config.ts:10 | The caching duration is 604800 seconds, one week. |
| PwaConfig.CacheNamesDiffer | src/pwa/pwa.config.ts:6-7 | The precache and runtime names differ, so the current-cache list holds two distinct names. |
| PwaConfig.PrecacheUrlsWellFormed | src/pwa/pwa.config.ts:19-27 | The manifest has 7 pairwise-distinct paths, each starts with `/`, and `/` is one of them. |
| PwaConfig.HeaderAndActionNames | src/pwa/pwa.config.ts:15-16 | The stamp header is the all-lower-case `sw-cache-expires`; the purge action is `PURGE_EXPIRED`. |
| HttpDate.FromEpochSeconds | src/pwa/pwa.helper.ts:61 | Splitting an epoch second count into UTC calendar fields gives a valid date from 1970 on. |
| HttpDate.CalendarRoundTrip | src/pwa/pwa.helper.ts:61 | The calendar fields of an instant convert back to the same second count. |
| HttpDate.FormatRoundTrip | src/pwa/pwa.helper.ts:61 | Reading the IMF-fixdate text of valid fields gives back the same fields. |
| HttpDate.UtcStringRoundTrip | src/pwa/pwa.helper.ts:61 | Parsing the `toUTCString` of an instant gives that instant truncated to whole seconds. |
| HttpDate.RfcExampleFields | src/pwa/pwa.helper.ts:61 | 784111777 seconds after the epoch is Sunday 6 November 1994, 08:49:37 UTC. |
| HttpDate.RfcExampleText | src/pwa/pwa.helper.ts:61 | `toUTCString` of 784111777000 ms is `Sun, 06 Nov 1994 08:49:37 GMT`, the example of section 7.1.1.1 of RFC 7231. |
| FetchApi.TruthyHeader | src/pwa/pwa.service-worker.ts:76-78 | Definition: a header counts as present exactly when it exists with a non-empty value, and then it reads as that value. |
| PwaHelper.StampedHeaders | src/pwa/pwa.helper.ts:61-65 | The stored headers are the live headers plus the stamp: every live header keeps its value, and the stamp holds the expiry date unless the live response carries its own. |
| PwaHelper.CopyHeaders | src/pwa/pwa.helper.ts:61-65 | Copying the live headers one by one over the stamp yields exactly `StampedHeaders`. |
| PwaHelper.CachedCopy | src/pwa/pwa.helper.ts:58-62 | Definition: the stored entry keeps the live status, status text and body, with the stamped headers. |
| PwaHelper.AfterCacheUrl | src/pwa/pwa.helper.ts:47-77 | When the fetch yields a rebuildable response, `url` maps to its stamped copy and replaces any earlier entry; otherwise the cache is unchanged. Other keys keep their entries and none is added. |
| PwaHelper.CacheUrl | src/pwa/pwa.helper.ts:42-77 | Exactly one network request for `url`. Resolves to the live response as fetched when it is rebuildable, otherwise rejects. Only the target cache changes, as `AfterCacheUrl` says. |
| PwaHelper.StampReadsBack | src/pwa/pwa.helper.ts:49-61 | The stamp written at `now` parses back to the start of the second `now` falls in, plus 604800 seconds. |
| PwaHelper.ErrorStatusesAreCached | src/pwa/pwa.helper.ts:70-73 | A 4xx or 5xx response resolves the promise and is cached like a success. |
| PwaHelper.ClearServiceWorkerCache | src/pwa/pwa.helper.ts:10-17 | Afterwards no cache name is left. |
| PwaHelper.DigitRun | src/pwa/pwa.helper.ts:27 | The greedy `\d+`: the longest run of digits at the position. |
| PwaHelper.FirstMaxAgeMatch | src/pwa/pwa.helper.ts:27 | The leftmost position where `max-age=` followed by a digit occurs, or none when there is none. |
| PwaHelper.TruncDiv | src/pwa/pwa.helper.ts:34 | `parseInt` of a quotient truncates toward zero, for both signs. |
| PwaHelper.ExpiresFromHeadersAsWritten | src/pwa/pwa.helper.ts:23-37 | Null exactly when neither header is present. NaN exactly when only Expires is present and unparsable. With Cache-Control present the result is the `max-age` value of `MaxAgeSeconds`. With only Expires, parsed to `e` ms, the result is `e / 1000` truncated toward zero minus `now` in milliseconds. |
| PwaHelper.MaxAgeOfDirective | src/pwa/pwa.helper.ts:25-29 | With Cache-Control `max-age=<digits>`, the result is the digits' value and Expires is ignored. |
| PwaHelper.ExpiresBranchMixesUnits | src/pwa/pwa.helper.ts:34 | As written, an Expires ten seconds ahead of `now` = 1000000 ms gives -998990; the corrected version gives 10. |
| PwaHelper.ExpiresFromHeaders | src/pwa/pwa.helper.ts:23-37 | Same null, NaN and max-age cases as written. An Expires instant at or after `now` gives the whole seconds until it, rounded down; one before `now` gives the whole seconds since it, negated and rounded toward zero. |
| ServiceWorker.PrecacheRequests | src/pwa/pwa.service-worker.ts:14 | Definition: the install batch requests each manifest path, resolved against the origin, in manifest order. |
| ServiceWorker.PrecachedContents | src/pwa/pwa.service-worker.ts:10-15 | After precaching, every URL of the batch with a rebuildable response holds its stamped copy. Every other key keeps its entry, and nothing else is added. |
| ServiceWorker.PrecacheAll | src/pwa/pwa.service-worker.ts:14-16 | Requests every URL once, in order. Leaves the precache equal to `Precached`. Reports success exactly when every fetch was cacheable. |
| ServiceWorker.ServiceWorker.OnInstall | src/pwa/pwa.service-worker.ts:7-21 | A development build does nothing. Otherwise every manifest URL is requested, only `precache-v1` changes, and `skipWaiting` happens exactly when every fetch succeeded; a failure is never rethrown. |
| ServiceWorker.PrecachedCopyServedForOneWeek | src/pwa/pwa.service-worker.ts:76-84 | A copy precached at `now` counts as fresh exactly until the second one week later. |
| ServiceWorker.KeepCurrentKeys | src/pwa/pwa.service-worker.ts:27-33 | Activation keeps exactly the old names among `precache-v1` and `runtime`, with their contents. |
| ServiceWorker.ActivationKeepsTwo | src/pwa/pwa.service-worker.ts:27-41 | With both current caches present, exactly two caches remain, however many others existed. |
| ServiceWorker.ServiceWorker.OnActivate | src/pwa/pwa.service-worker.ts:24-46 | A development build does nothing. Otherwise the store becomes `KeepCurrent` of the old store, and the clients are claimed after the deletions. |
| ServiceWorker.TextBefore | src/pwa/pwa.service-worker.ts:59 | The element `split` yields is the text after the origin up to the first further occurrence of the origin, or all of it when there is none. |
| ServiceWorker.InterceptsExactlyManifestPaths | src/pwa/pwa.service-worker.ts:59 | For a path that does not contain the origin, the request is intercepted exactly when the path is in the manifest. |
| ServiceWorker.RepeatedOriginIsIntercepted | src/pwa/pwa.service-worker.ts:59 | `origin + "/" + origin + tail` is intercepted for every tail. |
| ServiceWorker.ServiceWorker.OnFetch | src/pwa/pwa.service-worker.ts:51-100 | Not intercepted, or a development build: no response and nothing changes. An entry with a fresh stamp: it is served with zero network calls. Otherwise: exactly one `cacheUrl`, whose result is served or whose rejection becomes a network error. Only `precache-v1` changes. |
| ServiceWorker.ServedFromCacheOnlyWhenStamped | src/pwa/pwa.service-worker.ts:73-84 | Serving from the cache needs a non-empty stamp that parses to an instant strictly after `now`. |
| DedicatedWorker.Classify | src/pwa/pwa.dedicated-worker.ts:10-13 | The handler throws exactly for non-JSON data or `null`. It purges exactly for an object whose `action` is the string `PURGE_EXPIRED`. |
| DedicatedWorker.Swept | src/pwa/pwa.dedicated-worker.ts:15-33 | The purged precache holds exactly the entries that are not expired, unchanged. |
| DedicatedWorker.OnMessage | src/pwa/pwa.dedicated-worker.ts:7-39 | The purge opens `precache-v1` and leaves it equal to `Swept`. Every other message, and every throw, leaves the store unchanged. |
| DedicatedWorker.UnstampedEntriesSurvive | src/pwa/pwa.dedicated-worker.ts:23-29 | An entry without a stamp, or whose stamp is unparsable, is never purged. |
| DedicatedWorker.PurgeAndFreshnessAgree | src/pwa/pwa.dedicated-worker.ts:28-29 | No entry is both purgeable and fresh. Neither holds exactly when the stamp is missing, unparsable, or equal to `now`. |
| DedicatedWorker.SweepIdempotent | src/pwa/pwa.dedicated-worker.ts:15-33 | A second purge at the same instant deletes nothing more. |
| DedicatedWorker.SweepMonotone | src/pwa/pwa.dedicated-worker.ts:28-29 | A later purge keeps no entry an earlier one deleted. |
| DedicatedWorker.PurgeRequestIsRecognised | src/pwa/pwa.dedicated-worker.ts:13 | `{action: "PURGE_EXPIRED"}` purges, other spellings are ignored, and `null` throws. |
| DedicatedWorker.StampedEntryExpiry | src/pwa/pwa.dedicated-worker.ts:23-29 | An entry stamped with an HTTP date is purged exactly when that whole second lies before `now`. |
| DedicatedWorker.SweepScenario | src/pwa/pwa.dedicated-worker.ts:15-33 | Of three entries, one stamped before `now`, one at or after it and one unstamped, the purge keeps exactly the second and third. |
| StringExtension.CaseWords | src/extensions/string.extension.ts:9-10 | The first character is lowered, a word character after a non-word character is raised, and every other character is unchanged. |
| StringExtension.DropSeparators | src/extensions/string.extension.ts:11 | The result holds no white space and no `-`, and is shorter by their count. |
| StringExtension.DropSeparatorsAppend | src/extensions/string.extension.ts:11 | Dropping separators from a concatenation drops them from each part: the other characters stay in order. |
| StringExtension.NoSeparatorsDropNothing | src/extensions/string.extension.ts:11 | Text without white space and `-` is left unchanged. |
| StringExtension.CamelCaseDropsSeparators | src/extensions/string.extension.ts:8-12 | `toCamelCase` output holds no white space and no `-`. Its length is the input's minus their count. |
| StringExtension.CamelCaseIdempotent | src/extensions/string.extension.ts:8-12 | For input not starting with a separator, converting twice equals converting once. |
| StringExtension.LeadingSpaceCapitalises | src/extensions/string.extension.ts:8-12 | `" ab"` becomes `"Ab"`, and converting again gives `"ab"`. |
| StringExtension.CamelCaseTwoWords | src/extensions/string.extension.ts:8-12 | Two words of letters joined by one separator: the first word is lowered at its start, the second raised at its start, and the separator dropped. |
| StringExtension.CamelCaseSpacedExample | src/extensions/string.extension.ts:8-12 | `"hello world"` becomes `"helloWorld"`, and `""` stays `""`. |
| StringExtension.CamelCaseHyphenatedExample | src/extensions/string.extension.ts:8-12 | `"Foo-bar"` becomes `"fooBar"`. |
| StringExtension.LowerAll | src/extensions/string.extension.ts:20 | Definition: every character is lowered, position by position. |
| StringExtension.SplitJoinIsExpand | src/extensions/string.extension.ts:18-19 | The split loop joined on `-` equals the character-by-character expansion, from every reachable loop state. |
| StringExtension.SpinalCaseByCharacter | src/extensions/string.extension.ts:17-21 | The result is the lowered expansion. Each white space or `_` becomes one `-`. A capital that is not first and does not follow a separator gets a `-` in front. Everything else, input hyphens included, is kept. |
| StringExtension.SpinalCaseAlphabet | src/extensions/string.extension.ts:17-21 | The output holds no capital, no white space and no underscore. |
| StringExtension.SpinalCaseLength | src/extensions/string.extension.ts:17-21 | The output length is the input length plus the number of hyphenating capitals. |
| StringExtension.SpinalCaseIdempotent | src/extensions/string.extension.ts:17-21 | Converting twice equals converting once. |
| StringExtension.SpinalCaseExample | src/extensions/string.extension.ts:14-15 | `"AllThe-small Things"` becomes `"all-the-small-things"`, and `""` stays `""`. |

## Left out

- Concurrency is not modelled. `Promise.all`, the per-key promises of the purge and the un-awaited `cache.put` run one after another, in list order. Interleavings with other handlers are not modelled.
- Every handler reads one `now`. The separate `Date.now()` and `new Date()` calls inside one handler all read it.
- PwaHelper.ExpiryInstant: `setSeconds` works in local time, so a daylight-saving change within the week moves the instant by the offset; the model adds exactly 604800 seconds.
- Instants before 1970 and beyond `Date`'s range are not modelled. JavaScript numbers are modelled as unbounded integers.
- PwaHelper.MaxAgeSeconds: `parseInt` of a very long digit string loses precision as a double; the model keeps the exact value.
- `Date.parse` is a parameter. `ParseHttpDate` reads only the IMF-fixdate form that `toUTCString` writes, not the other forms `Date.parse` accepts.
- StringExtension.LowerAll: `toLowerCase` also lowers non-ASCII letters; the model lowers only A-Z. (`toCamelCase` changes case only in ASCII characters, so it is exact.)
- Strings are sequences of code points, not UTF-16 units. No character `\s`, `_` or `[A-Z]` matches is outside the BMP, so the split results are the same.
- `log` and `error` console output is not modelled, nor is the `DEBUG` flag.
- Response bodies are byte sequences. `blob()`, `clone()` and streaming are not modelled.
- `Headers.get` ignores case. The model keys headers by their lower-case names, as the source always spells them.
- Requests are URL strings. Request methods, `Vary` and `cache.match` options are not modelled.
- Failures of `caches.open` or `cache.put` (quota, storage errors) are not modelled.
- The dedicated worker receives the value `JSON.parse` produced, or `None` when it threw. The text of `event.data` is not modelled.
- `skipWaiting` and `clients.claim` are flags. Their effect on pages is not modelled.
- Enumeration order of `caches.keys()`, `cache.keys()` and `headers.forEach` is not modelled. Every result is order-independent.
- webpack.config.ts, src/main.ts, src/helpers/index.ts, src/pwa/pwa.register.ts and src/pwa/pwa.unregister.ts are not part of this model. They hold build configuration, bootstrapping, seed data and registration plumbing.

## Findings

| source | as written | input that shows it | evidently intended | confidence | as-written member | corrected member |
|---|---|---|---|---|---|---|
| src/pwa/pwa.helper.ts:34 | The Expires branch returns whole seconds of the Expires instant minus `now` in milliseconds. | Expires = `toUTCString` of 1010000 ms, `now` = 1000000 ms: gives -998990 (`ExpiresBranchMixesUnits`). | The seconds from `now` until the Expires instant: 10. | high; not executed | PwaHelper.ExpiresFromHeadersAsWritten | PwaHelper.ExpiresFromHeaders |

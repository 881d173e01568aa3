# chunkbridge: a model of its response cache, proxy, poll loop and exit

This project models the stateful core of chunkbridge, an HTTP relay over a chat transport, and
proves what that core keeps in every run:

- the bounded LRU response cache (`LinkedList`, `Lru`, `ResponseCache`): a sentinel ring of
  elements, a key-to-element map, an entry map and a byte count, edited in place. Every method is
  proved against functions on a plain recency list (`Recency`); `CacheTheorems`, `CacheRuns`
  and `CacheInclusion` (with `CacheFilling`) prove what holds of that list over all runs, and of two
  runs side by side;
- the caching policy (`CachePolicy`, `CacheKeys`, on `HttpHeader` and `Text`): cacheability,
  freshness and keys, after sections 3, 4.1 and 4.2.1 of RFC 9111. `Directives` puts header lines
  together from names, values and white space, and `PolicyText` says on such text what the policy
  decides, without the functions that decide it;
- the caching proxy (`ProxyModel`, `ProxyTheorems`, `ProxyCases`, `HttpProxy`): many requests as
  interleaved threads around one cache, and `ServeHTTP` as a method that runs one of them on the
  cache object. `ProxyText` and `ProxyPermits` say what is answered, stored and replayed in terms of
  the messages and settings alone;
- the MAX poll loop and its dedupe window (`PollSpec`, `PollLoop`, `PollTheorems`, `PollDelivery`);
- the exit's header stripping (`HopByHop`, section 6.1 of RFC 7230) and its replies, senders
  sharing one sequence counter and one transport (`ExitModel`, `ExitTheorems`, `HttpExecutor`);
- the domain allow list (`Domains`) and the configuration checks the rest relies on (`Config`).

Code that updates state is a class with methods and loops; each such method's contract ties its new
state to a function or a state machine, and the lemmas are about those. A cache call is one step, as
its lock makes it. Long methods of the source are cut into several here (`Put` into `Replace`,
`MakeRoom` and `Insert`). Times are integers in nanoseconds. Seconds turned into nanoseconds wrap at 64 bits and the exit's counter at 32, as in the source; the cache's byte count is
unbounded here, and `NoOverflowIff` says when int64 holds it.

The environment chooses: the relay's answer to each request, the clock readings, what the poll
server sends and when cancellation strikes, the fate of every chunk, the order in which maps are
walked, and the interleaving. `url.Parse` and the other checks of a URL are one arbitrary predicate
`allows`, assumed only to reject URLs with a NUL; `http.ParseTime` is an arbitrary function.

Where the code and its documentation differ, the model follows the code:

- `docs/max-transport.md` has the 429 callback called on a poll's 429; it is called twice, once in
  the status check and once in the loop (`PollTheorems.PollingIsOneFold`).
- It also has network errors retried; an error that matches `context.DeadlineExceeded` ends the
  loop, whatever timed out. By Go's library, not by anything in the repository, the HTTP client's own
  timeout is such an error (`PollTheorems.StopsOnlyOnAuthOrContextErrors`).
- `internal/cache/cache.go` and `docs/architecture.md` say that no-store, private and Set-Cookie
  responses are never cached, and the comment on `IsRequestCacheable` says the like of requests; only
  the first line of each field is read. Both tests are exact for one line a field and for no more
  (`CachePolicy.RequestTestIsExactIff`, `ResponseTestIsExactIff`, `SecondNoStoreUnseen`).
- `internal/cache/policy.go` has responses with `Vary: Accept-Encoding` retrieved correctly; the key
  holds the first Accept-Encoding line only. Requests with equal keys have equal lines exactly when
  all have one line, or all none (`CacheKeys.KeyHoldsEncodingsIff`); otherwise a client can be served
  an encoding it did not ask for (`SecondEncodingLineUnseen`, `ProxyCases.SecondEncodingLineServed`).
- Status 206 is stored and Range is not in the key, against section 3.3 of RFC 9111: a request for
  any other range, or none, can be served the partial answer (`ProxyCases.RangeIsUnseen`).
- `TTLFor` is described as returning 0 when there is no positive lifetime; a large `max-age`
  overflows to a negative or a too small one (`CachePolicy.SecondsExactIff`, `MaxAgeOverflows`). It
  never overflows to a larger one (`NeverFreshTooLong`).

Other laws hold only under a condition. Each is proved with the exact condition:

- a larger cache holds all that a smaller one does, in every run, exactly when the two are equal,
  the smaller has one entry, or the larger is never short of bytes (`InclusionIff`); otherwise a run
  is built, for any such limits, after which the smaller hits and the larger misses;
- the byte count stays in int64 exactly up to a peak (`NoOverflowIff`);
- a key used stays resident beside d > 0 others, in every run, exactly when d + 1 entries, at their largest, fit both
  limits (`WorkingSetIff`);
- a request shares its key with none of another method, URL or first Accept-Encoding line exactly
  when neither its URL nor that line has a NUL (`KeyIsOwnIff`); net/http refuses both;
- of `Vary` and `Connection` too only the first line is honoured (`KeyCoversEveryVaryLineIff`,
  `EveryLineHonouredIff`, with the cases `SecondVaryLineUnseen`, `SecondConnectionLineUnseen`);
- the upstream header does not depend on the order a map is walked in exactly when spellings of one
  name commute and all spellings of Connection leave the same fields (`WalkIrrelevantIff`,
  `UpstreamHeaderIsDeterminedIff`, with the case `SpellingOfConnectionDecides`);
- a re-sent message is recognised exactly while it is in the window, and past that it is sent on a
  second time (`DuplicateIffInWindow`, `DeliveredAgainIff`).

## Model

| member | source | states |
|---|---|---|
| LinkedList.List.PushFront | internal/cache/lru.go:27-31 | the new element is first, the ring of neighbours is whole and all others keep their order |
| LinkedList.List.MoveToFront | internal/cache/lru.go:20-25 | the element is first, the ring is whole and the others keep their order |
| LinkedList.List.Remove | internal/cache/lru.go:33-39 | just that element leaves the ring |
| Lru.LruList.Touch | internal/cache/lru.go:20-25 | a tracked key moves to the front, an untracked one changes nothing; map and list keep holding the same keys |
| Lru.LruList.Add | internal/cache/lru.go:27-31 | a new key goes to the front; map and list keep holding the same keys |
| Lru.LruList.Remove | internal/cache/lru.go:33-39 | just that key leaves; map and list keep holding the same keys |
| Lru.LruList.EvictOldest | internal/cache/lru.go:41-52 | the last key leaves and is returned; "" for an empty list, or when the last key is "" |
| ResponseCache.Cache.Get | internal/cache/cache.go:88-102 | refines `Lookup`: entry map, key map, list and byte count stay coherent; a hit is the stored entry, whose contents no call writes |
| ResponseCache.Cache.Drop | internal/cache/cache.go:166-173 | the key leaves entry map, list and byte count together |
| ResponseCache.Cache.Replace | internal/cache/cache.go:117-122 | an existing entry under the key is taken out of all structures |
| ResponseCache.Cache.EvictOldest | internal/cache/cache.go:131-138 | the oldest entry leaves all structures; none is found only when the cache is empty |
| ResponseCache.Cache.MakeRoom | internal/cache/cache.go:124-139 | the eviction loop ends and refines `Evict` |
| ResponseCache.Cache.Insert | internal/cache/cache.go:147-149 | the entry is first in the order, and map, list and byte count agree on it |
| ResponseCache.Cache.Keep | internal/cache/cache.go:141-146 | the copy has a fresh body with the same contents, and recording the size in the caller's entry disturbs no cache |
| ResponseCache.Cache.Put | internal/cache/cache.go:104-150 | refines `Store`: an oversize entry leaves everything, the old entry included; otherwise what is stored and its body are fresh |
| ResponseCache.PutThenWrite | internal/cache/cache.go:142-147 | a write the caller makes to its slice after Put does not reach the cache |
| ResponseCache.Cache.Len | internal/cache/cache.go:152-157 | the entry map has as many entries as the recency list |
| ResponseCache.Cache.TotalBytes | internal/cache/cache.go:159-164 | the running count is the sum of the stored body lengths |
| Recency.RunKeepsDistinct | internal/cache/cache.go:88-150 | no run puts a key twice into the recency order |
| CacheTheorems.StoreEvictsMinimally | internal/cache/cache.go:117-149 | an accepted Put keeps exactly the longest prefix of the recency order that fits both limits with the new entry |
| CacheTheorems.LookupHitsIffFresh | internal/cache/cache.go:92-101 | a Get hits exactly when the key is resident and now is not past its expiry; only a stale entry is lost |
| CacheTheorems.RunWithinLimits | internal/cache/cache.go:112-139 | in every reachable state both limits hold, but for a single entry that is over the byte limit alone |
| Config.AcceptedIff | internal/config/validate.go:218-239 | a configuration is accepted exactly when the cache is off or its limits are positive, the per-entry limit is within the byte limit and the default lifetime is not negative |
| CacheTheorems.ConfiguredBoundsHold | internal/config/validate.go:218-239 | with any accepted configuration both bounds hold in every reachable state, and a Put makes its entry resident exactly when the body is within the per-entry limit |
| CacheTheorems.NoOverflowIff | internal/cache/cache.go:127 | the sum compared with the byte limit stays in int64 in every run exactly when min(MaxBytes, MaxEntries * MaxEntryBytes) + MaxEntryBytes does |
| CacheTheorems.OrderIsOrderOfLastUse | internal/cache/lru.go:8-11 | in every reachable state the recency order is the order of last use |
| CacheTheorems.HitIsLastPut | internal/cache/cache.go:86-102 | a hit returns the last accepted Put under its key, still fresh |
| CacheRuns.WorkingSetStaysResident | internal/cache/cache.go:104-150 | a key at the front stays resident while the distinct other keys used since leave room for it |
| CacheRuns.WorkingSetIff | internal/cache/cache.go:104-150 | with limits as validation leaves them and d > 0: in every run a used key stays while at most d other keys are used and it is never found stale, exactly when d + 1 entries of the largest size fit both limits |
| CacheRuns.UsedKeyStaysResident | internal/cache/cache.go:104-150 | the same for a key just used after any run from the empty cache |
| CacheInclusion.LargerCacheIncludesSmaller | internal/cache/cache.go:124-139 | for two caches that are never short of bytes, the same run on the one with the larger entry limit keeps a supersequence with equal entries, stale drops included |
| CacheInclusion.ByteLimitBreaksInclusion | internal/cache/cache.go:125-130 | for every other pair with one byte limit, unless the smaller has one entry, a run after which the smaller hits and the larger misses |
| CacheInclusion.InclusionIff | internal/cache/cache.go:104-150 | over every pair that differs in the entry limit: in every run the smaller order is a subsequence of the larger exactly when limits are equal, the smaller has one entry, or the byte limit is off or at least MaxEntries * MaxEntryBytes of the larger |
| CacheInclusion.HitsAreInheritedIff | internal/cache/cache.go:88-102 | under the same condition, and only then, every hit of the smaller cache is the same hit in the larger |
| CachePolicy.OnlyPermittedTrafficIsCached | internal/cache/policy.go:46-120 | exactly which requests may use the cache and which responses may be stored, as the code decides it: by the directives and fields on first lines |
| PolicyText.DirectivesOfLine | internal/cache/policy.go:194-208 | on a line put together from elements, a directive is found exactly when some element has its name, letter case, surrounding white space and values aside |
| PolicyText.RequestTestOnText | internal/cache/policy.go:46-74 | exactly which requests may use the cache, on the text of their first lines |
| PolicyText.ResponseTestOnText | internal/cache/policy.go:78-120 | exactly which responses pass the filter, on status, size and the text of their first lines, statuses written out |
| PolicyText.LifetimeOnText | internal/cache/policy.go:124-159 | the lifetime by the first usable max-age of the line, else Expires, else the default for static URLs, exact up to 9223372036 seconds |
| PolicyText.NumbersRead | internal/cache/policy.go:134-135 | digits, with or without a plus, read as their number when it fits int64; a minus never gives a positive one |
| PolicyText.StaticOnText | internal/cache/policy.go:144-157 | a URL is static exactly when its part before any '?' ends in a dot and one of the eleven extensions, letter case aside |
| Directives.EveryLineHasItems | internal/cache/policy.go:210-215 | every header line is put together from such elements |
| CachePolicy.RequestTestIsExactIff | internal/cache/policy.go:46-74 | over all headers of at most n lines a field, the request test lets through just what all lines permit, exactly when n <= 1 or the method excludes all |
| CachePolicy.ResponseTestIsExactIff | internal/cache/policy.go:78-120 | the same for the response test, with status and size |
| CachePolicy.SecondNoStoreUnseen | internal/cache/policy.go:93-96 | a request and a response whose second Cache-Control line is no-store pass the tests |
| CachePolicy.MaxAgeOfDecimal | internal/cache/policy.go:131-137 | a max-age directive in any letter case is read as its decimal number when that fits int64, and is unusable otherwise |
| CachePolicy.SecondsExactIff | internal/cache/policy.go:136 | seconds become nanoseconds without overflow exactly up to 9223372036, and overflow never lengthens |
| CachePolicy.MaxAgeOverflows | internal/cache/policy.go:124-137 | two max-age headers over the bound whose lifetimes are negative and under a second |
| CachePolicy.NeverFreshTooLong | internal/cache/policy.go:124-159 | the precedence of max-age, Expires and static default, that no lifetime exceeds what its source allows, and that it is exact exactly up to 9223372036 seconds or the int64 range |
| CachePolicy.ExtIsFromLastDot | internal/cache/policy.go:148-156 | the extension that makes a URL static starts at the last dot after the last slash of the path |
| CacheKeys.SameKeyIff | internal/cache/policy.go:163-175 | two requests share a key exactly when method, URL and first Accept-Encoding line are equal, or one URL is the other, a NUL and w, and the first lines differ by w and a NUL in front |
| CacheKeys.KeyInjective | internal/cache/policy.go:163-175 | keys are never empty and are equal exactly for equal method, URL and first Accept-Encoding line, unless one request has a NUL in the URL and the other in that line |
| CacheKeys.KeyIsOwnIff | internal/cache/policy.go:174 | a request shares its key with none of another method, URL or first Accept-Encoding line exactly when neither its URL nor that line has a NUL |
| CacheKeys.SameKeyAgreesOnVary | internal/cache/policy.go:103-115 | once a response passed the filter, requests with equal keys agree on all lines of what its first Vary line selects exactly when it selects nothing or all their Accept-Encoding lines are equal, as they are for one line each |
| CacheKeys.KeyHoldsEncodingsIff | internal/cache/policy.go:163-175 | with the numbers of Accept-Encoding lines requests may have, equal keys mean equal lines exactly when the only number is 1, or the only number is 0 |
| CacheKeys.SecondEncodingLineUnseen | internal/cache/policy.go:170-174 | lines [gzip] and [gzip, br] give one key and do not agree on Accept-Encoding |
| CacheKeys.KeyCoversEveryVaryLineIff | internal/cache/policy.go:103-115 | over all Vary lines and all lines of the selected fields, keys separate requests exactly when nothing is selected, or every field names Accept-Encoding and the requests all have one line of it, or all none |
| CacheKeys.SecondVaryLineUnseen | internal/cache/policy.go:103 | a response whose second Vary line names User-Agent passes the filter |
| ProxyTheorems.HitsReplayRelayedResponses | internal/proxy/http_proxy.go:138-262 | in every interleaving a hit has the status, field values and body of the newest response stored under its key, relayed for the same target by the first Accept-Encoding line, cacheable, still within its lifetime, but for the cache mark and a HEAD body; the requests agree on all lines of what its first Vary line selects when each has one Accept-Encoding line, and otherwise exactly when those lines are equal or nothing is selected |
| ProxyCases.SharedKeyIsServed | internal/proxy/http_proxy.go:138-246 | for any two requests with one key, when the one's answer is stored and the other may use the cache, a run in which the other is served it |
| ProxyCases.OtherFieldsAreUnseen | internal/proxy/http_proxy.go:138-147 | so a difference anywhere but in method, URL and the first lines of four fields does not keep a request from another's answer |
| ProxyCases.SecondEncodingLineServed | internal/cache/policy.go:163-175 | a run in which the answer to lines [gzip, br] is served to a client that sent [gzip] |
| ProxyCases.RangeIsUnseen | internal/cache/policy.go:26-34 | requests that differ in Range only are served each other's answers |
| ProxyTheorems.MissesReturnTheirOwnAnswer | internal/proxy/http_proxy.go:248-261 | in every interleaving any other served reply has the status, body and field values the relay answered to that request, and the mark MISS exactly when the cache is on |
| ProxyText.EveryEventDocumented | internal/proxy/http_proxy.go:105-262 | in every interleaving every event is what its step calls for: 403 when denied, the stored response on a hit, the exit's own status, 429 or 502 when the relay fails, the answer itself else |
| ProxyText.ShouldStoreOnText | internal/proxy/http_proxy.go:212-224 | exactly when an answer is stored, from the settings, method, status, size, first lines and lifetime |
| ProxyPermits.RelayedIsAllowed | internal/proxy/http_proxy.go:131-136 | in every interleaving only requests the policy allows are relayed |
| ProxyPermits.StoredIsPermitted | internal/proxy/http_proxy.go:212-243 | in every interleaving what is stored is permitted by the settings and the messages, for the lifetime the response gives |
| ProxyPermits.NothingPrivateIsKept | internal/proxy/http_proxy.go:214-223 | in every interleaving without CachePrivate no response with a first Set-Cookie line, or private on its first Cache-Control line, is stored; no-store never is |
| ProxyPermits.NothingPrivateIsReplayed | internal/proxy/http_proxy.go:138-160 | the same of every hit's reply |
| ProxyPermits.HitsAreFresh | internal/proxy/http_proxy.go:138-160 | a hit is served only to a request that may ask, and within the max-age its response's own text gives |
| ProxyTheorems.BypassTrafficDoesNotInterfere | internal/proxy/http_proxy.go:131-145 | deleting denied and uncacheable requests from a run leaves the cache, its order, and every other thread and event |
| ProxyTheorems.ProxyCacheIsCacheRun | internal/proxy/http_proxy.go:138-246 | in every interleaving the cache is in a state a run of Get and Put reaches |
| ProxyTheorems.RecentlyUsedIsServed | internal/proxy/http_proxy.go:138-160 | in every interleaving a key used by a store or a hit is served from the cache, without the relay, while it is fresh and the other keys used since leave room |
| ProxyTheorems.ProxyPutsAreAccepted | internal/proxy/http_proxy.go:224-243 | every entry the proxy stores is within the limit, under a non-empty key, and expires after it is stored |
| HttpProxy.HttpProxy.LookUp | internal/proxy/http_proxy.go:138-147 | the lookup step on the cache object |
| HttpProxy.HttpProxy.KeepAnswer | internal/proxy/http_proxy.go:212-246 | the store step on the cache object, also stated on the messages alone: stored exactly when permitted, under method, URL and first Accept-Encoding, every field of the entry given; what it adds to the recency list is fresh |
| HttpProxy.HttpProxy.WriteHeader | internal/proxy/http_proxy.go:248-256 | whatever the order of names, the header written is the stored one with the mark |
| HttpProxy.HttpProxy.ServeHTTP | internal/proxy/http_proxy.go:105-262 | reply and cache are those of the machine when the request's steps run without others between; and on the messages alone: 403 when denied, the stored response on a hit, the exit's status, 429 or 502 on failure, else the answer with its status, body and field values; the list's elements are old or fresh, so requests can follow each other |
| PollLoop.DedupeSet.Add | internal/maxtransport/maxapi.go:49-58 | queue after entering an ID; set and queue stay one duplicate-free window if the ID was not in it |
| PollLoop.MaxTransport.HandleBatch | internal/maxtransport/maxapi.go:332-367 | the message loop refines `Deliver` |
| PollLoop.MaxTransport.HandlePoll | internal/maxtransport/maxapi.go:296-376 | the handling of one poll refines `OnePoll` |
| PollLoop.MaxTransport.PollLoop | internal/maxtransport/maxapi.go:272-378 | messages sent, cursor of every poll and 429 count of the loop are those of `RunPolls`; nothing sent comes from the own handle |
| PollTheorems.RunKeepsWindow | internal/maxtransport/maxapi.go:23-58 | for every server, the window is the last max accepted IDs, and max + 1 accepted in a row are distinct |
| PollTheorems.RedeliveryNeedsFullWindow | internal/maxtransport/maxapi.go:25-26 | between two acceptances of an ID lie max acceptances of distinct other IDs |
| PollTheorems.PollingIsOneFold | internal/maxtransport/maxapi.go:291-377 | window, cursor and output are one fold over the messages received; each 429 is reported twice |
| PollTheorems.BatchingDoesNotMatter | internal/maxtransport/maxapi.go:297-330 | splitting into polls, failures and empty polls change nothing |
| PollTheorems.RunSendsInOrder | internal/maxtransport/maxapi.go:332-367 | in every run the output is a subsequence of the messages received |
| PollTheorems.StopsOnlyOnAuthOrContextErrors | internal/maxtransport/maxapi.go:297-306 | not cancelled, the loop stops exactly on 401, 403 and an error that matches context.Canceled or context.DeadlineExceeded, the client's timeout included |
| PollDelivery.StopsIff | internal/maxtransport/maxapi.go:291-376 | exactly what ends the loop: 401, 403, a context error, or a cancellation that strikes in a wait or at a delivery that is reached |
| PollTheorems.DuplicateIffInWindow | internal/maxtransport/maxapi.go:334-340 | an entry of the server's log is dropped exactly while it is among the last max accepted |
| PollTheorems.ExactlyOnceInOrder | internal/maxtransport/maxapi.go:291-377 | against a log server that re-sends at most max entries, the messages sent are the non-echo entries up to the cursor, in order; on cancellation at most the last is missing |
| PollDelivery.OwnMessagesStay | internal/maxtransport/maxapi.go:342-345 | in every run no message sent on has the own handle as sender, when one is set |
| PollDelivery.OneMessage | internal/maxtransport/maxapi.go:332-367 | what one message does, by its ID, its sender and the last max accepted IDs |
| PollDelivery.SentIffForeign | internal/maxtransport/maxapi.go:332-367 | against such a server an entry is sent exactly when it lies before the cursor and has another sender; each once, in order; all of them when no handle is set |
| PollDelivery.SentUpToTheLast | internal/maxtransport/maxapi.go:362-366 | on a cancelled run the same holds of all entries but the last before the cursor |
| PollTheorems.DeliveredAgainIff | internal/maxtransport/maxapi.go:332-367 | after any such run, an entry sent before and re-sent by the server is sent on a second time exactly when it lies more than max entries back |
| HttpHeader.HeaderMap.AddAll | internal/exit/http_executor.go:159-163 | the header is that of adding every name once, in the order the map was walked in |
| HttpHeader.CanonicalIffFold | internal/exit/http_executor.go:168 | canonical names of tokens are equal exactly when the names are, letter case aside |
| HttpHeader.SeparatorsStay | internal/exit/http_executor.go:159-163 | a name with a separator in it is not changed |
| HttpHeader.WalkIrrelevantIff | internal/exit/http_executor.go:159-163 | every walk fills the same header exactly when the value lists of any two spellings of one name commute |
| HopByHop.UpstreamHeader | internal/exit/http_executor.go:159-173 | the two stripping loops, in place: for token names none of the ten hop-by-hop names, written out, is left in any letter case; of the others exactly those the first Connection line names are gone, and the rest keep their values |
| HopByHop.StrippedExactly | internal/exit/http_executor.go:164-173 | gone are exactly the fields on the fixed list and those the first Connection line names, letter case aside; the rest keep their values |
| HopByHop.ListOnText | internal/exit/http_executor.go:44-58 | a field is on the fixed list exactly when its lower-cased name is one of the ten |
| HopByHop.OptionsOnText | internal/exit/http_executor.go:166-169 | a Connection line names just its elements, white space and letter case aside |
| HopByHop.StrippingIsIdempotent | internal/exit/http_executor.go:164-173 | stripping again changes nothing |
| HopByHop.UpstreamHeaderExactly | internal/exit/http_executor.go:159-173 | for token names that differ in more than case, the final header has exactly the fields with values that are not listed and not on the first Connection line, values unchanged |
| HopByHop.UpstreamHeaderIsDeterminedIff | internal/exit/http_executor.go:159-173 | the final header is the same for every walk exactly when all spellings of Connection leave the same fields and the spellings of each of those commute |
| HopByHop.SpellingOfConnectionDecides | internal/exit/http_executor.go:159-173 | with two spellings of Connection the walk decides which field is sent on |
| HopByHop.EveryLineHonouredIff | internal/exit/http_executor.go:166 | when, and only when, the fields that all Connection lines name are gone |
| HopByHop.SecondConnectionLineUnseen | internal/exit/http_executor.go:166 | a field named on a second Connection line only is sent on |
| HttpExecutor.HTTPExecutor.SendFrame | internal/exit/http_executor.go:253-273 | counter and transport are those of the machine after this sender alone moved; chunks go out in order with consecutive 32-bit numbers up to the first that is not sent; success exactly when every chunk was sent |
| HttpExecutor.HTTPExecutor.SendError | internal/exit/http_executor.go:238-251 | exactly one error frame with the request's IDs is issued |
| HttpExecutor.HTTPExecutor.HandleRequest | internal/exit/http_executor.go:137-236 | whatever happens upstream exactly one frame is issued, the reply to the request under its IDs, with the code and status of each outcome written out; data exactly when the body is read, within the limit (10485760 when none is set) and marshalled |
| ExitTheorems.StatusFollowsTableIff | docs/protocol.md:98-107 | errors carry the documented status, but for a reply that cannot be marshalled, which this payload's types rule out |
| ExitTheorems.NumbersAreUnique | internal/exit/http_executor.go:258 | in every interleaving two chunks share a number only a multiple of 2^32 draws apart |
| ExitTheorems.FailureIsFinal | internal/exit/http_executor.go:260-271 | in every interleaving a sender whose chunk failed sends nothing more |
| ExitTheorems.RepliesAreRecoverable | internal/exit/http_executor.go:253-273 | in every interleaving the trace under a unique session and request ID is that reply's chunks in index order, complete or a prefix, reassembling to its payload |
| Domains.SuffixIsSubdomain | internal/policy/domains.go:26-31 | the string suffix test is the subdomain relation on labels |
| Domains.AllowedIffPermitted | internal/policy/domains.go:8-35 | a host is allowed exactly when the list is empty or an entry names it or a proper ancestor of it, letter case aside |

## Left out

- Put: requires a non-empty key. With "" as a key, eviction takes it for an empty list and the structures part; the proxy's keys are never empty (`ProxyPutsAreAccepted`).
- Put: an entry's header map is a value here; the source copies only the body in Put, and the proxy copies the header before it.
- ServeHTTP: response field names are taken to be in canonical form, as net/http and the exit's JSON give them; with two spellings of one name the reply would depend on map order.
- ServeHTTP: CONNECT, reading the request body (cut at 10 MiB), JSON, metrics and error texts are not modelled; an error reply is its status.
- PollLoop: the endless loop is run on a given sequence of polls; waits take no time, and timestamps are passed through unparsed.
- SendFrame: encryption, base64 and the token bucket are one fate per chunk; chunking itself is taken by its documented contract.
- Text: letter case and white space are those of ASCII (white space also of Latin-1); strings are sequences of characters, not bytes.
- Domains: the port is taken off the host before, and IP literals, ports and schemes are not modelled.
- relaykit and safedialer (framing, reassembly, encryption, sessions, rate limits, dialling) are not part of this model.
- Config: only the cache checks and the dedupe window size are modelled; YAML, environment, CLI and the parsed but unused ACK, WINDOW and retry settings are not.
- The content-type check and the private-address check only decide between outcomes that are modelled as choices.

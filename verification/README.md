# Insanic: verified model

Insanic is a microservice framework over Sanic. This project models the parts of it that keep
state or do arithmetic over whole runs, and proves what those runs guarantee.

| file | models |
|---|---|
| SlidingWindow.dfy | the definition the throttle and the warner refine: a log that forgets nothing, at most `limit` admissions per window (now - D, now], granted greedily |
| Throttle.dfy | `SimpleRateThrottle` and its expiring store, as classes proved against functions |
| ThrottleRuns.dfy | requests that do not overlap: refinement of the window, optimality, `wait()` |
| ThrottleConcurrent.dfy | requests interleaved at their await points |
| ThrottleView.dfy | cache keys, `check_throttles` over several throttles, `Retry-After` |
| Deprecation.dfy | the deprecation warner and its class-level table |
| Text.dfy, UserHeader.dfy | the user printed into a header, parsed by the next service, kept in its task context, printed again |
| Retry.dfy, Ping.dfy, PingLoad.dfy, PingTermination.dfy | the retry loop, the ping traversal of a possibly cyclic mesh, the traffic the two cause together |
| ConfigLayers.dfy, Settings.dfy | layered configuration, and the caching settings proxy over a holder with tombstones |
| Authentication.dfy, RequestAuth.dfy | the authenticator chain, and the request's lazily filled slots |

## Reading guide

Where a class updates itself in the original, the model is a class whose methods are proved
against functions on values; the theorems are lemmas about those functions.

- Times are exact reals and the clock never goes back; one key has one rate.
- The store drops an entry at its expiry. `KeptIsTheWindow` shows the decision would be the same
  if it were kept longer, so the exact instant of eviction does not matter.
- `ThrottleConcurrent.Step` skips an event that is not enabled, so every list of events is a run.
- Where code and documentation disagree the code is followed: `monitoring_and_health_checks.rst`
  says that a ping also visits `REQUIRED_SERVICE_CONNECTIONS`; the code visits `SERVICE_CONNECTIONS` only.

Guarantees that the code does not give in full, with their exact conditions:

- The throttle's bound survives concurrency exactly when at most one request is in flight
  (`BoundIffNoOverlap`); with c in flight a window can hold `limit - 1 + c` admissions (`Overshoot`).
- Two throttles can share a view, whatever their rates, exactly when their scopes cannot collide
  (`RatesKeptIffApart`, `CollideIff`).
- A user survives a hop exactly when the id has no `;` and no `=` (`RoundTripIff`).
- A negative ping depth ends exactly when no cycle is reachable (`NegativeEndsIffAcyclic`).
- `settings.from_object` keeps the settings cache right exactly under `LayerKeepsAgreementIff`.
- The four authentication slots are set together exactly when the user can be turned into a
  dictionary (`SetTogetherIff`); a service header can produce a user that cannot
  (`HeaderCanBeUnprintable`).
- A GET whose effective retry count is negative sends nothing and returns nothing (`SendLimits`).

## Model

| member | source | states |
|---|---|---|
| SlidingWindow.BoundedIffSpaced | insanic/throttles.py:130-136 | for a newest-first log, "no window of D seconds holds more than N" is the same as "every admission is at least D after the one N places before it" |
| SlidingWindow.GreedySafe | insanic/throttles.py:128-149 | granting whenever fewer than N grants lie in (now-D, now] never puts more than N grants in any window, on any prefix of the run |
| SlidingWindow.GreedyOptimal | insanic/throttles.py:128-149 | on every prefix of a run of non-decreasing times, the greedy window admits at least as many requests as any selection with at most N members per window |
| Throttle.KeepCount | insanic/throttles.py:130-133 | every time past the kept count is at or before the cutoff, and the oldest kept time is after it |
| Throttle.Store.Get | insanic/throttles.py:123-126 | an expired or missing entry reads as the empty history |
| Throttle.Store.Set | insanic/throttles.py:146-148 | replaces one entry, expiring after the given duration |
| Throttle.SimpleRateThrottle.ReadHistory | insanic/throttles.py:119-126 | the key and the live history are taken into the object |
| Throttle.SimpleRateThrottle.Decide | insanic/throttles.py:128-136 | the in-place pruning loop keeps exactly the newest part of the history that Prune keeps, and allows exactly when fewer than N times are left |
| Throttle.SimpleRateThrottle.ThrottleSuccess | insanic/throttles.py:138-149 | the new time goes to the head and the whole history is stored with a fresh expiry |
| Throttle.SimpleRateThrottle.AllowRequest | insanic/throttles.py:108-149 | without a rate or key the request is allowed and nothing is stored; otherwise answer, clock, history and store are those of one undisturbed request, a denial leaving the store alone |
| Throttle.SimpleRateThrottle.Wait | insanic/throttles.py:157-170 | computes the recommended wait from the object's history and clock, None when no place is available |
| Throttle.WaitAtTheEnds | insanic/throttles.py:161-170 | no wait for a history longer than the limit N, and D/(N+1) for an empty one |
| ThrottleRuns.PruneIsWindow | insanic/throttles.py:130-133 | pruning a stored prefix that still contains the window leaves exactly the log's times in the window |
| ThrottleRuns.KeptIsTheWindow | insanic/throttles.py:123-135 | the pruned history holds exactly the admissions of the full log in (now-D, now], and store expiry never changes it |
| ThrottleRuns.RequestRefines | insanic/throttles.py:123-149 | one undisturbed request decides by "fewer than N admissions in the window" on the full log and keeps store and log in step, with any delays between read, clock and write |
| ThrottleRuns.SequentialIsSlidingWindow | insanic/throttles.py:108-149 | in every non-overlapping run each request gets the sliding window's decision |
| ThrottleRuns.ThrottleSafeAndOptimal | insanic/throttles.py:108-149 | the throttle's own admissions keep the rate in every window and outnumber any rate-keeping selection, on every prefix |
| ThrottleRuns.DenialWait | insanic/throttles.py:157-170 | after a denial the wait is Some, in (0, D], and ends when the oldest of N stored admissions leaves the window |
| ThrottleRuns.WaitIsExact | insanic/throttles.py:132-170 | with no admission in between, every retry before now + wait is denied and the first from then on is admitted |
| ThrottleRuns.WaitFreesAPlace | insanic/throttles.py:157-170 | after an admission the wait is positive and a place is free once it has passed |
| ThrottleRuns.PoliteIsNeverThrottled | insanic/throttles.py:157-170 | from any store content, a client admitted once that then waits at least as told is never throttled again |
| ThrottleRuns.ObedientSpacing | insanic/throttles.py:157-170 | from an empty history, a client that waits exactly as told is spaced D/N for ever |
| ThrottleConcurrent.HistoriesAreTruthful | insanic/throttles.py:123-149 | under every interleaving each stored, read or pending history is newest-first, at most N long, and a sub-bag of the real admissions |
| ThrottleConcurrent.LogCountsAdmissions | insanic/throttles.py:134-149 | under every interleaving the log holds one admission per admitted request |
| ThrottleConcurrent.DenialIsJustified | insanic/throttles.py:132-135 | under every interleaving a decision that logs no admission ends the request, has N true admissions in the D seconds before it, and its wait is Some and in (0, D] |
| ThrottleConcurrent.AloneIsBounded | insanic/throttles.py:123-149 | with at most one request in flight the bound holds in every reachable state |
| ThrottleConcurrent.Overshoot | insanic/throttles.py:123-149 | for every c >= 1 there is a run with at most c in flight and N - 1 + c admissions in one window |
| ThrottleConcurrent.BoundIffNoOverlap | insanic/throttles.py:123-149 | the at-most-N guarantee holds for all runs with at most c in flight if and only if c <= 1 |
| ThrottleView.CollideIff | insanic/throttles.py:60 | two scopes can produce one cache key exactly when they are equal or one plus "_" starts the other |
| ThrottleView.PlainScopesInjective | insanic/throttles.py:60 | for scopes without "_" the cache key determines scope and identity |
| ThrottleView.PlainScopesApart | insanic/throttles.py:60 | distinct scopes without "_" never collide |
| ThrottleView.Ask | insanic/views.py:88-108 | one fresh throttle object answers, updates only its own slot, and then recommends its wait |
| ThrottleView.CheckThrottles | insanic/views.py:100-113 | every throttle is asked even after a refusal; the request proceeds iff all allow it, and otherwise the first refusing throttle's wait is raised, which RefusalIsExact pins |
| ThrottleView.RefusalIsExact | insanic/views.py:110-113 | in any orderly run a refused request is told a wait that is present, in (0, D], and ends exactly when the oldest of that throttle's N latest admissions for the identity leaves the window; Retry-After is then present and in 1..D |
| ThrottleView.VisitOnKey | insanic/throttles.py:143-149 | a throttle decides on, and records in, its own slot only, whether or not another throttle refuses the request |
| ThrottleView.ServedRespectEveryRate | insanic/views.py:100-113 | over any orderly run the served requests of one identity keep the rate of each throttle of the view |
| ThrottleView.RatesKeptIffApart | insanic/views.py:100-113 | two scopes keep their rates in one view, for all rates and runs, if and only if their keys cannot collide |
| ThrottleView.RetryAfterRange | insanic/exceptions.py:153-156 | a wait in (0, d] rounds up to a header value that is present, whole and in 1..d (the delay-seconds form of section 7.1.3 of RFC 7231) |
| ThrottleView.RetryAfterIsHonoured | insanic/handlers.py:97-98 | after a denial the header is in 1..d; a retry after that many seconds is admitted, and one a second less is not |
| Deprecation.Deprecate.Wrapper | insanic/decorators.py:58-76 | warns and updates the shared table exactly when the key is new or its last warning is at least ttl old |
| Deprecation.WarnsIffNoRecentWarning | insanic/decorators.py:27-76 | for any mixture of ttls on one table, a call warns iff no earlier warning for its key, by any decorator, is younger than the caller's ttl; so warnings are at least the smaller ttl apart |
| Deprecation.WarnerIsWindow | insanic/decorators.py:58-76 | for one key and ttl the warnings are the admissions of the window with limit 1 |
| Deprecation.WarningsAreMaximal | insanic/decorators.py:58-76 | those warnings are at least ttl apart, and no selection of the key's requests that is has more members, on every prefix |
| Deprecation.FirstRequestWarns | insanic/decorators.py:67-70 | the oldest warning of a key is its first request |
| Text.JoinOfSplit | insanic/authentication/__init__.py:196-200 | joining what `split` returns gives the string back |
| Text.SplitAt | insanic/authentication/__init__.py:196-200 | splitting at a separator splits both sides independently |
| Text.ParseOfDecimal | insanic/models.py:30 | `int` reads back every printed integer, sign included |
| Text.ParseDigitsIff | insanic/models.py:30 | exactly the texts with digits at both ends and only digits and single underscores between are numbers |
| Text.SignsAndSpaces | insanic/models.py:30 | surrounding spaces do not matter and a sign applies to the digits after it |
| UserHeader.AuthenticateCredentials | insanic/authentication/__init__.py:192-213 | the dictionary loop computes ParseUser, an absent header is the empty one, and a token for another service is refused |
| UserHeader.HeaderBindings | insanic/models.py:153-160 | the parsed dictionary is what the id's own pieces bind, overridden by the printed level and flag |
| UserHeader.LevelAndFlagSurvive | insanic/authentication/__init__.py:192-203 | whatever the id contains, if the header parses then level and flag are the sender's |
| UserHeader.HeaderParsesIff | insanic/authentication/__init__.py:192-203 | the header parses exactly when every piece of the printed id is empty or one key other than `self` with one value |
| UserHeader.FailureKinds | insanic/authentication/__init__.py:192-203 | how any header fails: a malformed piece first, then the keyword `self`, then a last level that is no number; every other header parses |
| UserHeader.UnboundIsAnonymous | insanic/authentication/__init__.py:194 | an absent header gives id "", level -1, not authenticated; a header with only a plain id adds the id |
| UserHeader.ContextOfUser | insanic/models.py:39-46 | the dictionary form says 0 below level 100, and otherwise 1, 0 or the number the user was constructed with |
| UserHeader.ConstructedUserTravels | insanic/request.py:122-133 | a signed-in user with a plain id is 1 in its own context, after any number of hops, and as parsed by the next service; any other is 0 everywhere |
| UserHeader.RoundTripIff | insanic/models.py:153-160 | id, level and is_authenticated arrive unchanged if and only if the id has neither ";" nor "=" |
| UserHeader.HopsSettle | insanic/services/client.py:125-133 | over any number of hops a plain user is unchanged, and any user that survives the first hop is a fixed point with the original level and flag |
| UserHeader.HeaderCanBeUnprintable | insanic/models.py:40-46 | a concrete header parses to a user whose is_authenticated raises |
| Retry.DispatchSend | insanic/services/client.py:339-377 | all sends but the last failed; the last is returned, re-raised at once if not retriable, or raised after exactly `attempts` sends; the count obeys the limit in numbers; nothing is returned iff nothing was sent |
| Retry.SendsInNumbers | insanic/services/client.py:354-377 | the limit is 1 for non-GET, 1 + min(r, max) for an explicit count r >= 0, 1 + the default otherwise; sends stop before it only at an attempt that is neither a caught error nor a 500..599 |
| Retry.StopsAfterIsExact | insanic/services/client.py:365-377 | all sends lost means exactly the limit, and a first send that is not lost means one more than its index |
| Retry.SendsStopAtFirst | insanic/services/client.py:365-377 | the number of sends is one more than the index of the first attempt that does not fail, or all attempts |
| Retry.SendLimits | insanic/services/client.py:354-363 | non-GET is sent exactly once, an explicit count is capped by the maximum, and nothing is sent iff a GET's effective count is negative |
| Ping.Get | insanic/monitor.py:66-108 | the two dictionary loops produce the reply of the traversal, and the pings sent are as many as Pings lists |
| Ping.Merge | insanic/monitor.py:97-99 | the second loop overlays the finished tasks on the errors |
| Ping.PingsAreWalks | insanic/monitor.py:73-101 | a ping of depth d causes exactly one onward ping per connection walk of length 1..d, cycles included |
| Ping.ReplyShowsEveryWalk | insanic/monitor.py:96-101 | along every walk within the depth the nested reply holds what the service at its end answers |
| Ping.ReplyShape | insanic/monitor.py:73-101 | pong exactly at depth 0 or without connections; otherwise one entry per connection, an error exactly for names that cannot be resolved |
| PingTermination.NonNegativeEnds | insanic/monitor.py:68-101 | a ping of depth d >= 0 ends in every mesh |
| PingTermination.TreeHasWalks | insanic/monitor.py:73-95 | for depth d >= 0 the tree of traffic has exactly the walks of length at most d, that is, the endpoint's onward pings |
| PingTermination.NegativeEndsIffAcyclic | insanic/monitor.py:68-101 | a ping of negative depth ends if and only if no cycle is reachable |
| PingLoad.LoadCountsSends | insanic/services/client.py:365-377 | the load is the size of the set of sends that happen: a walk of length 1..d where at every level the attempt is within the limit, all earlier attempts of that call failed, and the send above ran its peer |
| PingLoad.LoadBound | insanic/monitor.py:77-95 | whatever each send returns and whether or not it ran the peer, a ping of depth d causes at most the sum of (a*k)^i, i = 1..d, of the sends that LoadCountsSends counts |
| PingLoad.DefaultLoadBound | insanic/services/client.py:354-377 | the same with a = 1 plus the default retry count |
| PingLoad.LoadAttained | insanic/services/client.py:365-377 | in a mesh with exactly k connections each, where every send fails after running the peer, the bound is met exactly |
| PingLoad.CalmLoad | insanic/monitor.py:77-95 | without failures the sends are exactly the walks |
| ConfigLayers.LastWriterWins | insanic/conf/config.py:58-74 | a setting exists iff some layer has it, with the value of the last layer that does |
| ConfigLayers.Precedence | insanic/conf/config.py:58-74 | a name is decided by the prefixed environment, else the service's module, else global settings, else Sanic's own layers |
| ConfigLayers.InsanicConfig.constructor | insanic/conf/config.py:76-97 | the dictionary overwritten in place is the merge of the layers in load order |
| ConfigLayers.InsanicConfig.FromObject | insanic/conf/config.py:99-123 | every name of the layer is written and no other |
| Settings.StepRefines | insanic/conf/__init__.py:57-101 | get, set, delete, configure and replacement each keep every cached value equal to the wrapped object's, keep tombstones and local names disjoint, and act on the visible settings as on a plain map |
| Settings.RunRefines | insanic/conf/__init__.py:57-152 | over any sequence of these operations the proxy's answers are the plain map's |
| Settings.OnlyEmptyNamesRefused | insanic/conf/__init__.py:64-71 | a visible setting is returned, except that SERVICE_NAME and SECRET_KEY are refused exactly when falsy |
| Settings.LayerTakesEffectIff | insanic/conf/__init__.py:57-71 | a layer loaded through the proxy shows on a name exactly when it is not cached, not local and not deleted |
| Settings.LayerKeepsAgreementIff | insanic/conf/__init__.py:57-71 | loading a layer keeps the cache right exactly when each cached name in it is local or keeps its value |
| Settings.AppConfigOrder | insanic/app.py:95-96 | for the application's list of layers the last writer wins on untouched names, and touched names do not move |
| Settings.ReadFreezes | insanic/conf/__init__.py:62-71 | a value once read through the proxy stays under any later layers; a refused or missing name does not freeze |
| Settings.UserSettingsHolder.SetAttr | insanic/conf/__init__.py:145-147 | sets the local name and lifts its tombstone |
| Settings.UserSettingsHolder.DelAttr | insanic/conf/__init__.py:149-152 | leaves a tombstone and no local name |
| Settings.LazySettings.LoadModule | insanic/conf/__init__.py:30-47 | wraps the environment's module with an empty cache, if there is one |
| Settings.LazySettings.GetAttr | insanic/conf/__init__.py:57-71 | cache, setup, lookup and the empty-name check, as in the value model |
| Settings.LazySettings.SetAttr | insanic/functional.py:110-117 | drops the cached value, sets up if needed, and sets on the wrapped object |
| Settings.LazySettings.DelAttr | insanic/conf/__init__.py:84-88 | deletes on the wrapped object and then from the cache; an error leaves the cache |
| Settings.LazySettings.Configure | insanic/conf/__init__.py:90-101 | a new holder over the merged defaults with every option set, or an error if already configured |
| Settings.LazySettings.SetTarget | insanic/conf/__init__.py:78-82 | replacing the wrapped object empties the cache |
| Settings.LazySettings.FromObjectThrough | insanic/conf/__init__.py:140-143 | reaches the defaults or the loaded dictionary and leaves the cache |
| Authentication.ClaimantDecides | insanic/authentication/__init__.py:71-87 | if only one authenticator claims the header, the chain's result is that authenticator's |
| Authentication.OrderDoesNotMatter | insanic/request.py:208-228 | every permutation of a list with distinct schemes gives the same success, error or anonymous result |
| Authentication.PairCommutesIff | insanic/authentication/__init__.py:64-87 | two authenticators commute on all requests if and only if their schemes differ or they are the same |
| Authentication.LowerIsCaseless | insanic/authentication/__init__.py:73 | lower-casing maps each capital to its small letter and changes nothing else |
| RequestAuth.FirstReadFromHeaders | insanic/request.py:112-228 | the first read's answer from the headers alone: no claimant is anonymous; a claimed header without exactly two words is an error; the gateway's anonymous or an empty consumer is anonymous; otherwise the verdict on the second word gives user, service, that word and that authenticator, or its error |
| RequestAuth.ReadsFollow | insanic/request.py:112-187 | over any reads in any order the chain runs until its first settling result and never again, and slots and context are then exactly that result's |
| RequestAuth.RunsOnce | insanic/request.py:112-241 | if the first run settles it is the only one; an API error is raised once and every later read is anonymous |
| RequestAuth.EveryReadAgrees | insanic/request.py:112-187 | once the first run settles, every read in any order answers what a first read of its field would, or the anonymous value after an API error |
| RequestAuth.SetTogetherIff | insanic/request.py:122-133 | the four slots are set with the context in step exactly when the user has a dictionary form and nothing crashed |
| RequestAuth.Request.SetUser | insanic/request.py:122-133 | the slot is written first, the context only if the dictionary form exists |
| RequestAuth.Request.ClearAuthentication | insanic/request.py:230-241 | the four slots and the context become anonymous |
| RequestAuth.Request.RunChain | insanic/request.py:208-228 | the loop with early return stores what the chain's result says and raises its error |
| RequestAuth.Request.Get | insanic/request.py:112-187 | a filled slot is returned as it is; an empty one runs the chain first; on a new request the answer is the one read off the headers |

## Left out

- Redis, connection pools and JSON: the store is a map with expiry instants, and histories are sequences of exact reals, without floating-point rounding.
- ThrottleView.CheckThrottles: asks the throttles in list order, although the original starts them together with `asyncio.gather`; with keys that cannot collide they touch different slots, so any order gives the same result.
- Concurrent requests to views with several throttles: interleavings are modelled for one key.
- `get_ident`, the three `get_cache_key` methods and `ScopedRateThrottle`'s late choice of scope: a visit carries the identity each throttle sees, None where it does not apply.
- `parse_rate` and `get_rate`: a rate is given as its number and duration.
- The texts of warnings and of the Throttled description, and the class form of the deprecation decorator.
- Text.ParseInt: reads ASCII text; Unicode digits and spaces are not modelled.
- HTTP's own encoding of header values and case-insensitive header names.
- JWT decoding and signing: any table of verdicts per authenticator and token may apply; `RequestService` keeps source and audience only.
- Authentication.Chain: the Authorization header is already split at whitespace, and lower-casing is ASCII.
- Ping.Get: covers depth >= 0, which must end; for negative depth PingTermination states when the traffic is finite. Services that fail to answer a ping are in PingLoad, not in the reply.
- The `LookupError` of a registry whose settings changed after it was built.
- The translation of httpx errors to API exceptions in `_dispatch_future`, and the other injected headers.
- Sanic's base `Config`: taken to copy names into its dictionary and to have no attribute to delete; `keep_alive` and a settings module that cannot be imported are not modelled.
- Names of the settings holder's own attributes, such as `default_settings` and `SETTINGS_MODULE` on the class, and the bound methods that reading through the proxy also caches.
- Explicit assignments to `request.user`, `service` and `auth` by application code, and a task context that is not set up.
- Permissions, the WWW-Authenticate header, dispatch, metrics, health, logging and application start-up.

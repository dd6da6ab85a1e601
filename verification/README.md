# Orionis: verified model

Orionis gives services OAuth client credentials tokens (section 4.4 of RFC 6749). This project models the parts of it
that keep state or decide authority, and proves what they promise:

- **Scopes, from policy to guard** (`Text`, `StringSet`, `Scopes`, `ServerScopes`, `ServerClient`, `TokenService`,
  `Claims`). Covering of wildcard scopes is shown to decide inclusion of the scopes they denote. Requested scopes are
  resolved against a client's policy, joined into the token's claim, split again and checked by the guard of a resource
  service; the results are stated across that whole chain.
- **The client's token cache** (`ClientRequest`, `Freshness`, `TokenCache`, `TokenCacheRuns`, `TokenCacheTheorems`,
  `Provider`). `TokenCache` says what each region under the mutex does. `TokenCacheRuns` is the protocol: a state holds
  the shared maps, any number of callers and one goroutine per call, and a step is one locked region, one channel receive
  or one answer of the token endpoint. `Provider` holds the classes whose methods are proved to take these steps on maps
  and shared call records.
- **The remote key provider** (`Jwk`, `RemoteKeys`, `RemoteKeysRuns`, `RemoteProvider`). The provider's fields are a
  function of the attempts committed so far; runs interleave `Key` and `Refresh` calls over the refresh gate, with
  arbitrary fetch outcomes and contexts that end at any moment.
- **The rate limiter** (`RateLimiter`, `RateLimiterRuns`). A run is a sequence of requests in lock order; the sweeping
  limiter is compared with one that never forgets, and requests are counted over intervals.

`Options`, `Counting` and `Runs` hold what the others share: missing values, weighted sums over the participants of a
protocol, and runs of any system of moves.

A run property is stated of every `Reachable` state: one that some run of enabled steps leads to from the initial
state. Strings are sequences of code points. Times are nanoseconds since Go's zero time.

Three results show where a promise needs its condition:

- `Freshness.HitsBeforeExp` gives the exact condition under which a cached token is never handed out past its `exp`
  claim (section 4.1.4 of RFC 7519). `Freshness.ShortTokenServedExpired` is a token that fails it: for very short
  lifetimes a tenth of the lifetime is less than what whole-second claims lose. With the default settings the condition
  always holds (`Freshness.DefaultsNeverExpired`).
- The limiter reads its clock before it takes the lock, so times may decrease in lock order. Sweeping is then invisible
  exactly as long as no request falls into a window that a sweep has deleted: `RateLimiterRuns.AgreesExactly` decides
  the next verdict, `RateLimiterRuns.InvisibleExactly` whole runs, and `RateLimiterRuns.BackwardClockDiffers` is a
  run that fails it. Times that do not decrease are enough (`RateLimiterRuns.OrderedForgetsNothing`), and the bounds on
  accepted requests assume them.
- `RemoteKeys.CancellationAttributed` says exactly which failures count as cancelled by the caller. The context is read
  when the transport fails and again after the fetch; an unreadable body, or a transport failure before the context
  ended, counts only if its error wraps the context's own.

## Model

| member | source | states |
|---|---|---|
| `Text.TrimShape` | scopes.go:43-44 | trimming splits a string into a whitespace margin, a middle with no whitespace at either end, and a whitespace margin |
| `Text.FieldsAreRuns` | internal/stringset/stringset.go:43 | a string is a field of `s` if and only if it occurs in `s` as a maximal whitespace-free run |
| `Text.FieldsOfJoin` | scopes.go:39 | splitting a space-joined list gives the fields of its items, in order |
| `Text.JoinOneMore` | scopes.go:39 | joined items are separated by exactly one space, with nothing before the first or after the last |
| `StringSet.NormalizeValues` | internal/stringset/stringset.go:34-56 | the nested loops over `seen` and `result` and the final sort compute `Normalize`, whose meaning the next rows state |
| `StringSet.LessExactly` | internal/stringset/stringset.go:53 | the order puts a proper prefix first and otherwise decides at the first difference |
| `StringSet.SortCorrect` | internal/stringset/stringset.go:53 | sorting is a permutation, and of distinct strings gives a strictly sorted list |
| `StringSet.NormalizeMeaning` | internal/stringset/stringset.go:32-56 | the result is strictly sorted and holds exactly the maximal whitespace-free runs of the values |
| `StringSet.NormalizeCanonical` | internal/stringset/stringset.go:32-56 | two inputs normalize alike if and only if they have the same token set |
| `StringSet.NormalFormFixed` | internal/stringset/stringset.go:32-56 | a list is its own normal form if and only if it is strictly sorted and made of tokens |
| `StringSet.NormalizeIdempotent` | internal/stringset/stringset.go:32-56 | normalizing twice is normalizing once |
| `StringSet.NormalizeOrder` | internal/stringset/stringset.go:32-56 | order and repetition of the values do not matter |
| `StringSet.NormalizeGrouping` | internal/stringset/stringset.go:32-56 | passing the values as one space-joined string gives the same result |
| `StringSet.ScopeStringRoundTrip` | scopes.go:38-40 | splitting a scope string on whitespace gives the normal form back unchanged |
| `StringSet.ScopeStringInjective` | scopes.go:38-40 | scope strings are equal if and only if the token sets are |
| `Scopes.PartsShape` | scopes.go:110-128 | what is recognised is written as a wildcard, with the prefix and kind reported |
| `Scopes.PartsExactly` | scopes.go:110-128 | a scope is taken apart into a prefix and a kind exactly when it is written as that star-free nonblank prefix, a dot and one or two stars |
| `Scopes.ValidSyntaxExactly` | scopes.go:85-98 | a scope is valid exactly when it has no star or is written as a wildcard |
| `Scopes.CoversDecidesInclusion` | scopes.go:42-83 | for every `a` and every nonblank `b` without a star or written as a wildcard, `ScopeCovers(a, b)` if and only if every concrete scope denoted by `b` is denoted by `a`; what a scope denotes is told from how wildcards are written, not from the parser |
| `Scopes.SetCoversDecidesInclusion` | scopes.go:100-108 | the test on a set of owned scopes decides inclusion in their union: for every nonblank concrete or validly wildcarded `b`, some owned scope covers `b` if and only if every concrete scope denoted by `b` is denoted by some owned scope |
| `Scopes.SetCoversExactly` | scopes.go:42-108 | the set test for all inputs: false for blank requirements, inclusion in the union for well-formed ones, and listing for malformed ones |
| `Scopes.MalformedCoveredByItself` | scopes.go:50-58 | a malformed wildcard denotes nothing and is covered only by itself |
| `Scopes.CoversReflexive` | scopes.go:46-52 | every nonblank string covers itself |
| `Scopes.CoversTransitive` | scopes.go:42-83 | covering is transitive on all strings, malformed wildcards included |
| `Scopes.CoversAntisymmetric` | scopes.go:42-83 | strings that cover each other are equal once trimmed |
| `Scopes.ConcreteCovers` | scopes.go:60-64 | a scope without a star covers itself and nothing else |
| `ServerScopes.ExpandWildcardScopeRequest` | server/scopes.go:78-88 | the expansion loop computes `Expand` |
| `ServerScopes.ExpandMeaning` | server/scopes.go:78-88 | the expansion is empty if and only if no concrete policy entry is covered by the request, and holds exactly the tokens of those entries |
| `ServerScopes.ResolveRequestedScopes` | server/scopes.go:48-76 | the resolving loop, with both refusals, computes `Resolve` |
| `ServerScopes.ResolveMeaning` | server/scopes.go:48-98 | for all inputs, resolution succeeds if and only if every wildcard is valid and matches a concrete policy entry and every other request is covered by the policy; the result is strictly sorted and holds exactly the granted tokens |
| `ServerScopes.ResolveTokens` | server/scopes.go:48-88 | for token lists, the result is exactly the concrete requests plus the concrete policy entries under a requested wildcard, with no star anywhere |
| `ServerScopes.IssuedIsCovered` | server/scopes.go:38-76 | each issued scope is allowed by the policy and covered by one of the requests |
| `ServerScopes.ResolveIdempotent` | server/scopes.go:48-76 | resolving the issued scopes again against the same policy returns them unchanged |
| `ServerScopes.ConcreteResolves` | server/scopes.go:48-76 | a sorted token list resolves to itself if and only if each is concrete and allowed |
| `ServerScopes.ResolveMonotone` | server/scopes.go:48-88 | a larger policy keeps every success and takes no issued scope away |
| `ServerClient.NormalizedIdempotent` | server/client.go:110-119 | normalizing a client twice is normalizing it once |
| `ServerClient.NormalizedKeeps` | server/client.go:110-119 | normalizing keeps secrets, the disabled flag and every token, and trims the id and each digest |
| `ServerClient.ValidationExactly` | server/client.go:121-156 | Validate accepts exactly the clients without any fault as configured, and otherwise names the first fault |
| `ServerClient.PolicyExactly` | server/client.go:158-175 | ValidateScopePolicy accepts exactly the clients whose allowed wildcards are well formed and whose defaults hold no star, and otherwise names the first fault |
| `ServerClient.ValidPolicy` | server/client.go:122-175 | after Validate, allowed wildcards are well formed and every default is concrete and allowed |
| `ServerClient.DefaultsResolve` | server/client.go:149-172 | requesting the defaults yields exactly the defaults if and only if no default is a wildcard and each is allowed |
| `ServerClient.ValidClientDefaults` | server/client.go:121-175 | for a client that passes Validate, the defaults resolve to exactly themselves |
| `TokenService.IssuedExactly` | server/token_service.go:66-173 | a token is issued if and only if grant type, credentials and audience pass, every scope of the request, or every default scope where it names none, can be honoured, and the random id and the signature succeed |
| `TokenService.RefusedExactly` | server/token_service.go:66-118 | each refusal, with its status and code, happens exactly for its own cause |
| `TokenService.IssuedScopes` | server/token_service.go:104-120 | the scope claim of an issued token splits into exactly what the request's scopes, or the default scopes where it names none, resolve to |
| `TokenService.PolicyToGuard` | server/token_service.go:104-158 | end to end: `HasAllScopes(R)` holds of an issued token if and only if every token of `Normalize(R)` was issued; the issued scopes are exactly the concrete ones asked for and the concrete policy entries under a wildcard asked for, each allowed by the policy and covered by a scope asked for; the default scopes count only where the request names none |
| `TokenService.RequestedConcreteGranted` | server/token_service.go:110-171 | every concrete scope requested passes the guard, and the response reports the claim's scope |
| `TokenService.ValidClientGetsDefaults` | server/token_service.go:104-120 | a validated client that requests no scope is never refused for scopes and is issued exactly its defaults |
| `TokenService.IssuedStamped` | server/token_service.go:140-172 | `exp` is the expiry instant, and `expires_in` the lifetime, each cut to whole seconds |
| `Claims.ScopesAreFields` | claims.go:46-52 | the scopes of a claim are the fields of its string, blank claims included |
| `Claims.GuardsMonotone` | claims.go:54-104 | a token whose scopes cover another's passes every `HasScope`, `HasAnyScope` and `HasAllScopes` check the other passes |
| `Claims.DominatesExactly` | claims.go:54-60 | one token passes every `HasScope` check of another if and only if its scopes cover the other's |
| `Claims.CheckDecidesPermission` | claims.go:54-60 | for every string, `HasScope` holds if and only if it is not blank and each concrete scope it denotes is denoted by some scope of the claim, or, for a malformed wildcard, the claim lists it |
| `Claims.GuardsDecidePermission` | claims.go:62-104 | `HasAllScopes` holds if and only if every normalized requirement is permitted in that sense, `HasAnyScope` if and only if one is or none is required, for any mix of concrete and wildcard scopes |
| `Claims.ConcreteGuard` | claims.go:84-104 | for concrete claims `HasAllScopes` is inclusion of the normalized requirement |
| `ClientRequest.ResolveTarget` | client/provider.go:122-139 | the reassigned locals compute `TargetFor`, whose meaning the next row states |
| `ClientRequest.TargetExactly` | client/provider.go:122-139 | the caller's audience unless blank, its scopes unless it gives none, each from the provider's defaults otherwise, as a sorted list of exactly those tokens; no target exactly when both audiences are blank |
| `ClientRequest.ResolvedTargetTrimmed` | client/provider.go:122-139 | a resolved target has a nonblank trimmed audience and scopes in normal form |
| `ClientRequest.BuildForm` | client/token_http.go:46-52 | the form sent for a trimmed audience is a function of the cache key alone |
| `ClientRequest.KeysAgree` | client/cache.go:223-228 | two targets share a cache key if and only if trimmed audiences and scope token sets are equal |
| `ClientRequest.KeyFormInjective` | client/token_http.go:46-52 | different cache keys send different forms |
| `Freshness.EffectiveSkew` | client/cache.go:213-218 | the skew applied is below the lifetime and at most the configured one |
| `Freshness.FreshExactly` | client/cache.go:208-221 | a token is fresh exactly while it has more than the skew left, or more than a tenth of its lifetime where the skew would swallow it |
| `Freshness.FreshnessAntitone` | client/cache.go:208-221 | a token that is fresh later was fresh earlier |
| `Freshness.ArrivesFresh` | client/cache.go:208-221 | a token is fresh at the moment it arrives |
| `Freshness.HitsBeforeExp` | client/cache.go:208-221 | no cache hit is at or past `exp` if and only if the skew, or a tenth of a lifetime it would swallow, is at least how much later than `exp` the client believes the token to end; that is less than the latency plus one second |
| `Freshness.LatencyWithinSkew` | client/token_http.go:89-92 | latency plus one second covered by the skew is enough |
| `Freshness.DefaultsNeverExpired` | client/client.go:36-37 | with the default skew, request timeout and token lifetime no hit on an issued token is expired |
| `Freshness.ShortTokenServedExpired` | client/cache.go:216-220 | the condition is needed: a five-second token can be served after its `exp` |
| `TokenCacheRuns.InvStep` | client/cache.go:94-198 | every step of every interleaving keeps the cache invariant |
| `TokenCacheTheorems.WaitersExact` | client/cache.go:94-198 | in every reachable state a call is neither completed nor abandoned if and only if it is the one in flight for its key; its waiter count is then the number of callers on it, at least one; nobody is on an abandoned call |
| `TokenCacheTheorems.OneRequestPerKey` | client/cache.go:103-125 | two awaited requests for one key are the same request, and its key is not cached |
| `TokenCacheTheorems.LateCompletionInert` | client/cache.go:156-172 | completing an abandoned call changes no cache entry, no call in flight, no other call and no caller |
| `TokenCacheTheorems.CancellationIsolated` | client/cache.go:139-198 | one waiter leaving cancels, ends or removes no call another waiter is on |
| `TokenCacheTheorems.NoInheritedCancellation` | client/cache.go:115-198 | no caller returns the error of a shared request that was cancelled |
| `TokenCacheTheorems.TokenForOwnTarget` | client/cache.go:56-82 | every token returned, cached or shared, was obtained by a request that was never abandoned and carried the audience the caller gave, or the default where it was blank, and exactly the scope tokens the caller gave, or the default ones where it gave none |
| `TokenCacheTheorems.FailureForOwnTarget` | client/cache.go:128-139 | an error a caller is answered with is how an unabandoned request for its own key failed |
| `TokenCacheTheorems.LeaversGetTheirContextError` | client/cache.go:71-143 | a caller whose context ends can leave from wherever it is, and is answered with its own context's error |
| `TokenCacheTheorems.CompletionCached` | client/cache.go:156-170 | the answer to an awaited request leaves flight, and is cached exactly when it is a token |
| `TokenCacheTheorems.LastWaiterCancels` | client/cache.go:175-198 | releasing an awaited call cancels and abandons it if and only if the leaver was the only caller on it |
| `TokenCacheTheorems.WorkDecreases` | client/cache.go:128-198 | every step but a new arrival brings some caller or request nearer its end |
| `TokenCacheTheorems.RunsAreBounded` | client/cache.go:128-198 | without new callers, every prefix of a run uses up at least one unit of work a step, so no run is longer than the work at its start |
| `TokenCacheTheorems.NoDeadlock` | client/cache.go:128-173 | while some caller has not returned, a step other than a cancellation is possible |
| `TokenCacheTheorems.EverybodyReturns` | client/cache.go:128-173 | from every reachable state some run without arrivals and cancellations brings every caller to its return |
| `Provider.Provider.constructor` | client/provider.go:60-61 | a new provider has nothing cached and nothing in flight |
| `Provider.Provider.PurgeStaleLocked` | client/cache.go:200-206 | the deleting loop keeps exactly the fresh entries |
| `Provider.Provider.Cached` | client/cache.go:84-92 | purges, then answers from the cache |
| `Provider.Provider.JoinOrStartCall` | client/cache.go:94-126 | on the maps and shared call records, does exactly the joining step of the runs |
| `Provider.Provider.FinishCall` | client/cache.go:156-172 | does exactly the completing step; a call's channel is closed exactly when the call is completed, so that of a call not yet completed is open and closing it cannot panic |
| `Provider.Provider.ReleaseWaiter` | client/cache.go:175-198 | does exactly the releasing step |
| `RateLimiter.FixedWindowRateLimiter.SweepExpired` | internal/authapp/ratelimit.go:121-134 | the deleting loop keeps exactly the unexpired windows and schedules the next sweep |
| `RateLimiter.FixedWindowRateLimiter.Allow` | internal/authapp/ratelimit.go:94-119 | state, verdict and delay are those of the step the runs are made of |
| `RateLimiterRuns.SweepingIsInvisible` | internal/authapp/ratelimit.go:104-133 | with a nondecreasing clock every request of every run gets the verdict and delay of a limiter that never sweeps |
| `RateLimiterRuns.AgreesExactly` | internal/authapp/ratelimit.go:94-119 | with nothing forgotten before, the next verdict and delay agree with those of a limiter that never sweeps if and only if the request does not fall into a window already deleted, or that window still had room |
| `RateLimiterRuns.NeverForgottenAgrees` | internal/authapp/ratelimit.go:94-133 | while no request falls into a deleted window every verdict and delay agrees, whatever the clock does |
| `RateLimiterRuns.InvisibleExactly` | internal/authapp/ratelimit.go:94-133 | for every run: repeating the current request never tells the two limiters apart, at any point, if and only if no request of the run falls into a deleted window |
| `RateLimiterRuns.OrderedForgetsNothing` | internal/authapp/ratelimit.go:99-133 | a nondecreasing clock is enough for that: no request falls into a deleted window |
| `RateLimiterRuns.BackwardClockDiffers` | internal/authapp/ratelimit.go:99-104 | a witness: one backward clock reading that falls into a deleted full window changes a verdict |
| `RateLimiterRuns.SweepingIsPrompt` | internal/authapp/ratelimit.go:121-133 | after a counted request every stored window has been expired for less than a minute |
| `RateLimiterRuns.UnlimitedPasses` | internal/authapp/ratelimit.go:95-97 | a request without a limit or window passes and leaves no trace |
| `RateLimiterRuns.SweepExactly` | internal/authapp/ratelimit.go:121-134 | a sweep that is due deletes exactly the expired windows and is next due after the window length, at most a minute |
| `RateLimiterRuns.VerdictByPosition` | internal/authapp/ratelimit.go:105-118 | a request passes if and only if its place in its window is within the limit; otherwise the delay is the rest of the window |
| `RateLimiterRuns.KeyIsIndependent` | internal/authapp/ratelimit.go:105-112 | the window of a key depends on the times of its own requests only |
| `RateLimiterRuns.IntervalBound` | internal/authapp/ratelimit.go:105-118 | an interval of one window length holds at most 2*limit - 1 accepted requests, and at most limit if it is a single instant |
| `RateLimiterRuns.IntervalBoundSharp` | internal/authapp/ratelimit.go:105-118 | for every limit and window there are request times that attain the bound |
| `RateLimiterRuns.RateBound` | internal/authapp/ratelimit.go:94-119 | the same bound for a key in every run over many keys |
| `RateLimiterRuns.RateBoundSharp` | internal/authapp/ratelimit.go:94-119 | for every key, limit and window there is a run of requests that attains it |
| `RateLimiterRuns.WindowQuota` | internal/authapp/ratelimit.go:105-118 | a window holding n requests of a key let through exactly min(n, limit) |
| `Jwk.DecodeExponent` | jwk/decode.go:126-144 | the shifting loop never overflows and yields the big-endian value if and only if the encoding is at most eight bytes and the value is odd, at least three and fits an int |
| `Jwk.DecodesExactly` | jwk/decode.go:44-188 | an entry decodes to a key exactly when it stands for it: its fields hold the raw bytes, the shortest bytes of modulus and exponent after any zeros, or the two coordinates in order |
| `Jwk.RSARoundTrip` | jwk/decode.go:109-147 | an RSA key published with the shortest encodings of its numbers decodes to itself |
| `Jwk.AcceptableExactly` | jwk/decode.go:65-86 | an entry is accepted exactly when it is named, for signing, stands for some key and declares no algorithm that key is not for; it is stored as that key with its declared algorithm |
| `Jwk.DecodeKeySet` | jwk/decode.go:57-90 | the loop over the entries computes `DecodeSet`, first objection included |
| `Jwk.SetMeaning` | jwk/decode.go:57-90 | a set decodes if and only if it is nonempty, every entry is usable on its own and kids are distinct; the map then has exactly one entry per kid, the key its entry stands for with its declared algorithm |
| `Jwk.RejectionCause` | jwk/decode.go:64-87 | a rejection names a fault of the first entry that cannot be taken |
| `Jwk.OrderIrrelevant` | jwk/decode.go:57-90 | permuting a set changes neither success nor the map |
| `Jwk.KidsCount` | jwk/decode.go:69-71 | kids are distinct if and only if there are as many as keys |
| `Jwk.DeclaredAlgorithmMatchesKey` | jwk/key.go:80-91 | an accepted key is well formed for the algorithm it declares, and is given out for no other |
| `RemoteKeys.ReplayMeaning` | jwk/remote.go:286-296 | stored keys and times are those of the last successful attempt; the counters count attempts and successes; the remembered error is the last attempt's |
| `RemoteKeys.DecideExactly` | jwk/remote.go:238-257 | what refreshIfUnchanged decides against any snapshot, told from the attempts alone: fetch, nil, or the error of the last attempt |
| `RemoteKeys.FetchExactly` | jwk/remote.go:303-342 | a fetch succeeds exactly with a good response, and a transport error is replaced by the context's own once that has ended |
| `RemoteKeys.NilMeansRefreshed` | jwk/remote.go:238-257 | against a snapshot, nil is returned without a fetch if and only if an attempt since has succeeded |
| `RemoteKeys.FetchOnlyWhenNeeded` | jwk/remote.go:238-257 | a fetch is launched if and only if nothing was attempted since the snapshot, or all since failed, the last one cancelled by its own caller, and this context is live |
| `RemoteKeys.LiveCallerInheritsNoCancellation` | jwk/remote.go:249-255 | a live caller is handed no error of an attempt cancelled by its caller |
| `RemoteKeysRuns.InvStep` | jwk/remote.go:186-301 | every step of every interleaving keeps the history invariant |
| `RemoteKeysRuns.NilAfterSuccess` | jwk/remote.go:227-258 | in every run, a nil from refreshIfUnchanged means a refresh succeeded and was committed after the caller's snapshot |
| `RemoteKeysRuns.KeyProvenance` | jwk/remote.go:186-215 | every key returned comes from a set unexpired at the first snapshot, committed after it, or fetched at most maxStale before the second, and only for a matching algorithm |
| `RemoteKeysRuns.StoredSetIsLastDecoded` | jwk/remote.go:286-296 | in every run, the stored set and times are those of the last decoded set |
| `RemoteKeysRuns.OneAtATime` | jwk/remote.go:260-279 | at most one caller is inside the gate |
| `RemoteKeysRuns.FetchesCoalesce` | jwk/remote.go:238-257 | callers whose snapshots saw the same attempts launch together at most one fetch plus one per later attempt cancelled by its own caller |
| `RemoteKeysRuns.SameVersionSameGeneration` | jwk/remote.go:344-358 | snapshots with the same refreshVersion have the same generation |
| `RemoteKeysRuns.NoPoisoning` | jwk/remote.go:249-255 | a caller live when it reads leaves only with the error of the last attempt, one not cancelled by its caller |
| `RemoteKeysRuns.ImmediateExactly` | jwk/remote.go:191-195 | Key answers without a refresh, with the last decoded set's key, if and only if that set holds the kid and has not expired |
| `RemoteKeysRuns.AnsweredExactly` | jwk/remote.go:208-214 | after a successful refresh Key answers with the last decoded set's key for the kid, or that there is none |
| `RemoteKeysRuns.FallbackExactly` | jwk/remote.go:197-206 | after a failed refresh Key answers with the last decoded set's key if and only if that set holds the kid and is at most maxStale old, and otherwise with the error |
| `RemoteKeysRuns.RefreshFetches` | jwk/remote.go:217-225 | Refresh always launches a fetch of its own |
| `RemoteKeysRuns.AnswersAreReal` | jwk/remote.go:186-258 | Refresh reports success, and Key a missing key, only after an attempt since the call arrived succeeded; every error is that of an attempt since then or of the call's own context |
| `RemoteKeysRuns.FetchJudged` | jwk/remote.go:281-318 | whether a fetch counts as cancelled by its caller, for a context ending before the exchange, between exchange and judgment, or not at all |
| `RemoteKeysRuns.SomebodyMoves` | jwk/remote.go:260-279 | while a call has not returned, some call can take a step |
| `RemoteKeysRuns.RunsAreBounded` | jwk/remote.go:186-301 | without arrivals and ending contexts, every prefix of a run uses up at least one unit of work a step, so no run is longer than the work at its start |
| `RemoteKeysRuns.WorkDecreases` | jwk/remote.go:186-301 | every step but an arrival or the end of a context brings some call nearer its end |
| `RemoteKeysRuns.EverybodyReturns` | jwk/remote.go:186-301 | from every reachable state some run without arrivals and ending contexts brings every call to its return |
| `RemoteProvider.RemoteProvider.LockRefresh` | jwk/remote.go:260-275 | whichever ready case of the select runs: the gate is taken and nil returned, or nothing changes and the context's error is returned |
| `RemoteProvider.RemoteProvider.RefreshLocked` | jwk/remote.go:281-301 | one attempt, committed as the runs commit it |
| `RemoteProvider.RemoteProvider.RefreshIfUnchanged` | jwk/remote.go:238-257 | returns or fetches as `Decide` says, and always frees the gate |

## Left out

- HTTP, form and JSON encoding, request headers and the token endpoint's handler (`client/transport.go`,
  `server/http.go`, `internal/httpjson`): a request or fetch becomes an arbitrary outcome. The handler passes normalized
  scopes to the token service; theorems about issued scopes assume the request's scopes are tokens, which is less.
- Cryptography, base64 and the P-256 curve check: parameters of `Jwk.Codec`; signing is a parameter of
  `TokenService.Service`, and the store lookup and secret comparison are one of `TokenService.Issue`.
- Gin integration, configuration loading, builders, aliases, nil receivers and nil contexts: easy members.
- Audit logging, the site, scripts and the examples in other languages: no core logic.
- The difference between a nil and an empty slice, which no modelled code observes.
- Ill-formed UTF-8: sorting by code point is sorting by byte only for well-formed strings.
- Overflow of int64 durations (`ExpiresIn * time.Second` is assumed to fit) and of the uint64 counters.
- Rounding in `Seconds()` and `retryAfterSeconds`: durations are exact, and a nonnegative one is cut to whole seconds.
- Leeway in JWT verification: `exp` is compared exactly.
- `jwt.NewNumericDate` is taken with its default precision of one second.
- Platforms where `int` has 32 bits: the bound on RSA exponents is that of a 64-bit `int`.
- The goroutine of a call: in `Provider` a call record carries the form it sends as a ghost value; what the form is,
  `ClientRequest.BuildForm` states.
- The checks `requestToken` makes of a token response (`client/token_http.go:83-87`): an answer is an arbitrary token or
  an arbitrary error, and tokens that fail the checks are among the errors.
- Error texts: errors carry what their callers branch on.
- Blocking: the selects of `waitForCall` and `lockRefresh` are steps of the runs; the class methods are the regions that
  run under the mutex or the gate.
- StringSet.SortCorrect: models `slices.Sort` by insertion; any sort gives the same list of distinct strings.
- RemoteProvider.RemoteProvider.LockRefresh: which ready case of the select runs is a parameter, and waiting is not
  expressed; both are in the runs, where taking the gate and failing on the context are separate steps.
- RateLimiterRuns.WindowQuota: for a key whose limit and window stay the same.
- RateLimiterRuns.RateBound: for a key whose limit and window stay the same.
- TokenCacheTheorems.RunsAreBounded: says nothing of a token endpoint that never answers; the source leaves that to the
  request timeout and to the callers' contexts.
- RemoteKeysRuns.FetchesCoalesce: counts fetches of `Key`; every `Refresh` call fetches on its own.
- RemoteKeysRuns.LastSetHas: a fetch time equal to Go's zero time reads as never fetched, as in the source.

# reverse-proxy: a verified model

A Dafny 4.11 model of the parts of the reverse proxy in which state, arithmetic or interleavings
decide what happens, with proofs of what they promise. `dafny verify dfyconfig.toml` checks the
whole project.

- **Rate limiting** (`TokenBucket`, `Admission`, `RateLimiter`, `Eviction`, `Limits`). A per-client
  token bucket, counted exactly in units of 1e-9 token. Over every sequence of calls and every
  change of rate and burst, the bucket's admissions stay within burst plus refill in every window,
  and no other choice that does so is ever ahead of it. In the keyed limiter, with sweeps, reloads
  and other clients in between, each client gets the answers of such a bucket, exactly when the
  sweep age lets an empty bucket refill.
- **Connections** (`IdleTracking`, `Watchdog`, `ConcurrentWatchdog`, `WatchdogRaces`,
  `RequestLives`, `Lifecycle`, `Shutdown`, `Draining`, `AcceptErrors`, `FdBudget`). State machines
  whose every sequence of events is a run: idle accounting and the idle watchdog of one connection;
  listeners, permits, sockets and tasks across the server; draining; and the rate-limited error log.
- **Configuration** (`Text`, `Hosts`, `Hostnames`, `Config`, `Validation`, `ErrorRules`,
  `ErrorCounts`, `Routing`, `Reload`, `ReloadProgress`, `Utf8`, `FileRead`). Validation is exact
  against declarative rules; the routing table refines a scan over the sites; reloads interleave
  freely with readers and none is shut out; a read of the file that passes its check is torn only by
  a write that restores the modification time. Routing and reloads meet in
  `Reload.RoutingCorrectUnderReload`.
- **Rewriting** (`Headers`, `Redirect`). The header pipeline as an exact multimap transformation;
  the redirect and upstream URLs against a parser.

Objects that the source updates in place are classes whose methods are proved against functions of
the old state; the state machines are built from the same functions. Protocols between tasks are
state machines over their steps; what the network, the clock and other tasks do arrives as events.

**Granularity.** `Watchdog` takes one step per poll, as both branches of the connection's `select!` run
when requests share its task. `ConcurrentWatchdog` takes one step per access to the shared cells, for
requests that hyper runs in tasks of their own (HTTP/2), and says exactly what is lost there; the runs
in `WatchdogRaces` show that it is.

**Where the code and its documentation disagree**, the model follows the code:

- docs/architecture/operations.md wants the in-flight count raised before the connection task is
  spawned; the task raises it on its first poll (`Lifecycle.ZeroCountWithOpenSocket`).
- docs/architecture/config.md calls `max_connections` the process-wide cap; each listener can hold one
  more socket while it waits for a permit (`Lifecycle.SocketBound`, reached by
  `Lifecycle.SocketBoundIsReached`).
- The comment at src/proxy/handler.rs:231-233 says that a stale Host header cannot override the routed
  host; routing reads the Host header first (`Headers.ForwardedHostFindsSameSiteIff`).
- src/main.rs:279 logs that a listener task is aborted; its handle is only dropped, so a parked listener
  stays in the model.
- `validate` accepts a burst of zero, which rejects every request (`Admission.ZeroBurstRejectsAll`).

## Model

| member | source | states |
|---|---|---|
| TokenBuckets.TokenBucket.constructor | src/rate_limit/bucket.rs:13-21 | a new bucket is full |
| TokenBuckets.TokenBucket.RefillTokens | src/rate_limit/bucket.rs:35-47 | adds elapsed time times the new rate, caps at the new burst, adopts both parameters |
| TokenBuckets.TokenBucket.Consume | src/rate_limit/bucket.rs:23-33 | refills, then admits and takes one token if a whole one is there; tokens stay within the burst now in force |
| TokenBuckets.TryConsumeKeepsCapacity | src/rate_limit/bucket.rs:23-47 | whatever the bucket held: level in [0, burst], admitted iff a whole token is available, exactly that token is taken |
| Admission.LevelIsLeastSlack | src/rate_limit/bucket.rs:35-47 | the level any choice of calls leaves is the least unused allowance over all windows ending there |
| Admission.ConformsIffNeverOverdrawn | src/rate_limit/bucket.rs:23-47 | a choice of calls meets every window bound iff it never overdraws the bucket |
| Admission.GreedyConforms | src/rate_limit/bucket.rs:23-48 | under any changes of rate and burst, admissions in calls i..j stay within burst_i plus the refill after call i |
| Admission.GreedyIsOptimal | src/rate_limit/bucket.rs:23-48 | no choice that meets all window bounds has admitted more calls after any prefix |
| Admission.SteadyGreedyOptimality | src/rate_limit/bucket.rs:23-48 | the same for a fixed configuration, with the bound burst + rate * (t_j - t_i) |
| Admission.NeverRejectedIff | src/rate_limit/bucket.rs:23-33 | a client is never rejected iff every window of its calls fits its allowance |
| Admission.PacedClientNeverRejected | src/rate_limit/bucket.rs:23-48 | with burst at least 1 and gaps of at least 1/rate, no call is rejected |
| Admission.ZeroBurstRejectsAll | src/rate_limit/bucket.rs:23-33 | with burst 0 every call is rejected |
| Limits.LimiterEnforcesFile | src/rate_limit/mod.rs:31-49 | a client under one file gets, in every window, at most the file's burst plus the file's rate for the duration, and no choice within that ever admits more |
| RateLimiting.ShareBucketIff | src/rate_limit/bucket.rs:50-68 | two addresses share a bucket iff equal IPv4, or IPv6 with equal first four segments; normalising is idempotent |
| RateLimiting.RateLimiter.CheckAndConsume | src/rate_limit/mod.rs:31-49 | answers from the key's bucket, or a new full one, and changes no other key |
| RateLimiting.RateLimiter.EvictStale | src/rate_limit/mod.rs:51-54 | in the shard swept, keeps exactly the entries accessed after the cutoff |
| RateLimiting.RateLimiter.ContainsIp | src/rate_limit/mod.rs:56-58 | true iff the normalised address has an entry |
| RateLimiting.KeptIffRecentlyUsed | src/rate_limit/mod.rs:51-54 | in every trace the table holds exactly the keys whose last request no later sweep of their shard found at or before its cutoff |
| RateLimiting.NonInterference | src/rate_limit/mod.rs:31-54 | the answers to one key in any trace are those of the trace projected to that key |
| RateLimiting.UnsweptIsGreedy | src/rate_limit/mod.rs:37-48 | without sweeps, a key's answers are those of one bucket serving its calls |
| Eviction.StaleServesLikeNew | src/rate_limit/bucket.rs:35-47 | a bucket untouched for an age in which it refills serves the next call exactly like a new one |
| Eviction.EvictionIsInvisible | src/rate_limit/mod.rs:31-54 | over every trace of requests, sweeps and reloads, the limiter answers as one that never evicts, if each configuration in force has rate * max_age >= burst |
| Eviction.EvictionInvisibleIff | src/rate_limit/mod.rs:51-54 | under one configuration that condition is exact: otherwise some trace tells the two apart |
| Eviction.EvictionInvisibleUnderReloadsIff | src/rate_limit/mod.rs:51-54 | over any set of configurations that reloads choose from: invisible in every trace iff each member meets the condition |
| Eviction.DeployedEvictionInvisibleIff | src/main.rs:216-221 | with the deployed 300 s age: invisible iff burst <= 300 * rate |
| Eviction.LimiterIsGreedyPerKey | src/rate_limit/mod.rs:31-54 | the whole limiter gives each key the window bound and the optimality of a single bucket |
| IdleTracking.IdleState.RequestStarted | src/server.rs:328-330 | a request start touches and counts |
| IdleTracking.IdleState.RequestFailed | src/server.rs:344-347 | a handler error uncounts and touches |
| IdleTracking.IdleTrackingBody.Release | src/server.rs:249-255 | the first release uncounts and touches, later ones do nothing |
| IdleTracking.IdleTrackingBody.PollFrame | src/server.rs:270-295 | end and error release, a frame touches, pending does nothing; the poll result is passed through |
| IdleTracking.IdleTrackingBody.Drop | src/server.rs:257-261 | dropping a body releases it |
| IdleTracking.BodyDecrementsExactlyOnce | src/server.rs:234-295 | over any sequence of polls and drops a body takes exactly one from the counter, at the first end, error or drop |
| Watchdog.InFlightAccounting | src/server.rs:234-351 | in every run the counter is non-negative and equals pending handlers + unreleased bodies + abandoned futures |
| Watchdog.WatchdogSafety | src/server.rs:354-373 | in every run it returns only with no handler pending, no body unreleased and the timeout elapsed since the last request start, frame or release |
| Watchdog.WatchdogDeadline | src/server.rs:354-373 | once nothing is in flight or happens: at most two polls, no return before last activity + timeout, and time cannot pass that point by more than the timer lateness without a return |
| Watchdog.WatchdogReturns | src/server.rs:354-373 | it does return: such a run of effective steps is no longer than two polls plus the time to the deadline, it is stuck iff the watchdog has returned, and then within [deadline, deadline + lateness] |
| Watchdog.WatchdogProgress | src/server.rs:354-373 | never stuck; a poll returns iff idle for the timeout with nothing in flight, else sleeps a positive time, and exactly how long |
| Watchdog.AbandonedHandlerDisablesWatchdog | src/server.rs:335-350 | after one abandoned handler future the watchdog returns in no continuation |
| Watchdog.CanReturnIffNoneAbandoned | src/server.rs:335-350 | from every reachable state some continuation returns iff no handler future has been abandoned |
| RequestLives.PolledRequestLeavesOnlyItsTouch | src/server.rs:328-351 | from every reachable state a request that is answered or fails leaves the connection as it was but for its touch |
| RequestLives.PolledAbandonedRequestHoldsOpen | src/server.rs:335-350 | one that is abandoned stays counted and holds the connection open in every continuation |
| ConcurrentWatchdog.ClosesEarlyIff | src/server.rs:215-255 | whatever steps of requests, their starts included, fall between its loads: it closes within the timeout of a start, frame or release step iff it saw the cell idle, its count at the top of the loop is zero, and a use within the timeout was stored after its first load, stored and overwritten by an older clock reading, or not stored yet |
| ConcurrentWatchdog.ClosesOverRequestIff | src/server.rs:356-371 | it closes over a counted request iff the count rose after the load that woke it to zero and the cell is idle; at the top of the loop it never does |
| ConcurrentWatchdog.UseBetweenLoadsSuffices | src/server.rs:356-365 | with the two loads at the top of the loop less than a timeout apart, any use between them that leaves the count at zero makes the close early |
| ConcurrentWatchdog.CanReturnIff | src/server.rs:335-350 | from every reachable state some continuation closes the connection iff no handler future was abandoned or the watchdog has already loaded a zero count |
| ConcurrentWatchdog.AbandonedHandlerDisablesWatchdog | src/server.rs:335-350 | otherwise no continuation does |
| ConcurrentWatchdog.SleepIsExact | src/server.rs:356-367 | it never sleeps beyond the timeout from now; over a counted request it sleeps exactly the timeout, over none until the timeout after the activity it saw, put off by the time between its loads, or it returns |
| ConcurrentWatchdog.QuietConnectionCloses | src/server.rs:354-373 | with nothing in flight and no request stepping, a sleeping watchdog closes after at most six loads, no earlier than stored activity + timeout, no later than the timer lateness after that or the sleep it was in, and so within a timeout and a lateness from now |
| RequestLives.RequestLeavesOnlyItsTouch | src/server.rs:249-351 | at any point of the watchdog's loop a request that is answered or fails leaves only its touch; a frame after its release still touches |
| RequestLives.AbandonedRequestHoldsOpen | src/server.rs:335-350 | an abandoned one stays counted and, unless the watchdog has already loaded a zero count, holds the connection open in every continuation |
| WatchdogRaces.ClosesRightAfterRelease | src/server.rs:249-255 | stored after the first load, for every timeout: a run that closes at the instant of the last release |
| WatchdogRaces.ClosesWithinRelease | src/server.rs:249-255 | not stored yet, for every timeout: a run that closes between the decrement and the touch of a release |
| WatchdogRaces.ClosesOverStart | src/server.rs:328-330 | not stored yet, for every positive timeout: a run that closes at the instant a request starts |
| WatchdogRaces.ClosesAfterStaleStore | src/server.rs:215-217 | stored and overwritten, for every positive timeout: a run that closes at the instant of a start whose touch was overwritten |
| WatchdogRaces.ClosesOverHandler | src/server.rs:369-371 | for every positive timeout, a run that closes over a counted handler |
| Lifecycle.PermitConservation | src/server.rs:177-199 | in every run, across all listeners, free permits + tasks holding one = max_connections |
| Lifecycle.SocketConservation | src/server.rs:389-415 | in every run the open sockets are those accepted and not closed by a failed acquisition, a finished task or a task never polled |
| Lifecycle.ConnectionLeavesNothing | src/server.rs:389-415 | served, dropped unpolled or refused a permit, a connection leaves permits, counter, listeners and other tasks as they were |
| Lifecycle.SocketBound | src/server.rs:389-415 | open client sockets <= max_connections + number of listeners |
| Lifecycle.SocketBoundIsReached | src/server.rs:389-415 | for every size and number of listeners some run reaches that bound |
| Lifecycle.SocketsFitDescriptorBudget | src/config/fd_budget.rs:28-37 | an accepted budget without overflow gives client sockets + 64 <= soft limit + listeners |
| Lifecycle.InFlightCounter | src/server.rs:135-172 | the counter equals the tasks polled and not finished; zero means no connection is left iff none waits for its first poll |
| Lifecycle.ZeroCountWithOpenSocket | src/server.rs:413-415 | a reachable state with a zero count, an unpolled task and an open socket |
| Lifecycle.ClosingOnlyDrains | src/server.rs:515-541 | once all listeners have stopped and all tasks have been polled, the counter only falls and zero is final |
| Lifecycle.StoppedServerDrains | src/server.rs:515-541 | with all listeners stopped every run is bounded by the work left, and where it cannot go on all permits are free, the counter is zero and no task remains |
| Lifecycle.CanShutDown | src/server.rs:515-541 | from every reachable state of a server with a permit some continuation, without failed acquisitions, stops all listeners and frees all permits, with counter zero and no task |
| FdBudget.AcceptedIff | src/config/fd_budget.rs:28-37 | accepts iff max_connections + 64 <= soft limit, or, where the sum wraps, iff the wrapped sum is |
| FdBudget.WithinNofileIff | src/config/fd_budget.rs:39-54 | with no readable limit everything passes, otherwise exactly what the check accepts |
| FdBudget.BudgetSoundIffNoOverflow | src/config/fd_budget.rs:28-37 | an accepted max_connections fits the limit iff the 64-bit sum did not wrap |
| FdBudget.OverflowIsAccepted | src/config/fd_budget.rs:28-37 | as an argument of `check_fd_budget` alone, 2^64 - 64 is accepted under every limit; no configuration file can hold it, because TOML integers are signed |
| Shutdown.DrainInFlight | src/server.rs:527-541 | stops at the first round that reads zero or is past the timeout; non-zero only after the timeout; done within timeout + 100 ms |
| Draining.DrainServer | src/server.rs:527-541 | over a run of the server that goes on meanwhile: the result is the number of tasks polled and unfinished at the deciding load; zero of a closing server means no connection then or later, non-zero comes only after the timeout |
| Shutdown.WaitEndsWithTask | src/main.rs:275-281 | a task ending before the timeout ends its wait there, or at once if it has ended; one that never ends is waited for until the timer fires |
| Shutdown.JoinedAllBounds | src/main.rs:275-281 | joining takes at most one timeout and one timer lateness per listener |
| Shutdown.WaitedInFull | src/main.rs:275-281 | a listener still running after the joins was waited for in full |
| Shutdown.JoinAll | src/main.rs:275-281 | the loop over the handles ends when the in-order waits, each ended by the task or by its timer, add up |
| Shutdown.ShutDown | src/main.rs:275-283 | the whole shutdown takes at most (listeners + 1) * (timeout + lateness) + 100 ms; leftovers are reported only when the drain used up its timeout |
| AcceptErrors.AcceptErrorReporter.ReportError | src/server.rs:57-97 | counts the report under its signature and emits at most one line, leaving other signatures alone |
| AcceptErrors.ReportsConserved | src/server.rs:57-78 | in every run, reports = lines + suppressed counts printed + count held, per signature |
| AcceptErrors.LogRateBounded | src/server.rs:57-78 | in every run, a span T holds at most T / 10 s + 1 lines of a signature |
| AcceptErrors.EmittedIff | src/server.rs:57-78 | a report is logged iff it is the first of its signature or at least 10 s after its last line, printing the number suppressed in between; other signatures are unaffected |
| Text.LowerCharCodes | src/config/dynamic_config.rs:52-61 | lower case by ASCII codes |
| Hosts.NormalizePlain | src/config/dynamic_config.rs:52-61 | a plain name with or without a port normalises to its lower case |
| Hosts.NormalizeBracketed | src/config/dynamic_config.rs:52-61 | a bracketed literal, whatever follows it, normalises to its inside |
| Hosts.StripPortIdentityIff | src/utils.rs:1-13 | exactly which hosts have nothing to strip |
| Hosts.NormalizeFixedPointIff | src/config/dynamic_config.rs:52-61 | exactly which hosts normalisation leaves alone |
| Hosts.NormalizeIdempotentIff | src/config/dynamic_config.rs:52-61 | exactly on which hosts normalising twice is normalising once, stated on the host |
| Hosts.BracketedAddressNotIdempotent | src/config/dynamic_config.rs:52-61 | it is not for any bracketed IPv6 literal, with or without a port |
| Hosts.NormalizeNotIdempotent | src/config/dynamic_config.rs:52-61 | nor for `::1` and `a]]` |
| Hostnames.LabelCharCodes | src/config/validation.rs:338-352 | the characters of a label by ASCII codes |
| Hostnames.IsValidHostname | src/config/validation.rs:325-354 | both branches accept exactly dot-separated labels that do not spell an IP address |
| Hostnames.HostnameGrammar | src/config/validation.rs:325-354 | the accepted names are exactly labels joined by dots |
| Hostnames.IsValidUpstream | src/config/validation.rs:356-382 | accepts exactly host, colon and port 1-65535, with no scheme and a valid host part |
| Hostnames.NamedUpstreamIff | src/config/validation.rs:356-382 | a valid hostname with a port is accepted iff the port is 1-65535 |
| Hostnames.BracketedUpstreamIff | src/config/validation.rs:356-382 | a bracketed text with a port is accepted iff it is an IPv6 address and the port is 1-65535 |
| Text.ParseU16Iff | src/config/validation.rs:366-369 | a port text is accepted for a number iff it is its decimal form behind zeros and perhaps a plus sign, and fits 16 bits |
| Text.ValuePositional | src/config/validation.rs:366-369 | a decimal text is read positionally |
| Text.DigitsCanonical | src/tls/redirect.rs:21-25 | a number is written without leading zeros |
| Config.SitesOfMembers | src/config/mod.rs:82-90 | the dynamic half has exactly the listeners' sites |
| Validation.Validate | src/config/validation.rs:97-323 | returns every error, and none iff the configuration satisfies the declarative rules |
| Validation.ValidationExact | src/config/validation.rs:97-323 | the list of errors is empty iff all rules hold |
| ErrorRules.ErrorsNameBrokenRules | src/config/validation.rs:97-323 | each error, with its listener, site, port or path, is reported iff the configuration breaks the rule it names |
| ErrorCounts.ErrorsSummarized | src/config/validation.rs:110-249 | duplicate errors = keys minus distinct keys, for hosts, HTTPS and HTTP binds; the wildcard flag removes the wildcard errors and nothing else |
| Routing.TableHoldsLastMatch | src/config/dynamic_config.rs:45-50 | for any sites the table holds the last one for each lower-case host |
| Routing.RoutingRefinesScan | src/config/dynamic_config.rs:34-50 | for every accepted file, lookup equals the scan over all sites for the normalised host, and the table has as many entries as sites |
| Routing.SiteFoundByAnyVariant | src/config/dynamic_config.rs:34-61 | every site is found under any case variant of its host, with or without a port |
| Reload.DiffStaticConfig | src/config/dynamic_config.rs:183-215 | exactly the fields that differ; empty iff equal |
| Reload.FileChangesReported | src/config/mod.rs:70-92 | a field is reported between two files iff the files differ in it |
| Reload.ConfigReloadHandle.ReloadLocked | src/config/dynamic_config.rs:144-180 | stores both halves iff validation and descriptor check pass, else changes nothing; reports exactly what changed |
| Reload.VisibleConfigWasAccepted | src/config/dynamic_config.rs:144-180 | under every interleaving a reader sees the initial configuration or the newest one that passed both checks |
| Reload.VisibleSettingsAreOneFiles | src/config/mod.rs:70-92 | what a reader sees are the sites, rate, burst and body limit of one file |
| Reload.CommittedBudgetFits | src/config/dynamic_config.rs:151-172 | every committed max_connections is positive and, with a readable limit and no wrap-around, fits it with 64 to spare |
| ReloadProgress.CheckFailsIff | src/config/dynamic_config.rs:151-172 | the checking step of a reload fails iff its proposal is not acceptable |
| ReloadProgress.UndisturbedReload | src/config/dynamic_config.rs:144-180 | undisturbed, the steps of a reload do to the stored configuration what the critical section does, with the same report |
| ReloadProgress.MutexComesFree | src/config/dynamic_config.rs:144-180 | from every reachable state steps of the holder alone free the mutex |
| ReloadProgress.WaitingReloadCanCommit | src/config/dynamic_config.rs:144-180 | from every reachable state a waiting reload with an acceptable proposal has a continuation in which it succeeds and is what is stored |
| Reload.HalvesAgreeWhenFree | src/config/dynamic_config.rs:174-177 | whenever the mutex is free both halves come from one reload |
| Reload.StaticAtMostOneBehind | src/config/dynamic_config.rs:174-177 | the dynamic half is always the newest; the static half is too, except that it is the one before exactly while the holder is between its two stores |
| Reload.FailedReloadChangesNothing | src/config/dynamic_config.rs:149-172 | a failed reload owns no commit and its failing step leaves the cells alone |
| Reload.ReportedChangesExact | src/config/dynamic_config.rs:174-215 | each report lists exactly the fields in which a reload differs from the one before; empty iff equal |
| Reload.EveryDriftReported | src/config/dynamic_config.rs:174-215 | a static field that differs from start-up has been reported by some reload |
| Reload.LogOnlyGrows | src/config/dynamic_config.rs:132-134 | readers see configurations in commit order |
| Reload.RoutingCorrectUnderReload | src/config/dynamic_config.rs:34-36 | under every interleaving the visible table routes every host like the scan over its file's sites |
| Utf8.TextIff | src/config/mod.rs:100 | the bytes accepted as text are exactly the UTF-8 encodings of sequences of Unicode scalar values |
| FileRead.UntornRead | src/config/mod.rs:99-111 | what is returned is the content at the first stat, unless the last write between the two stats restored the mtime; writes outside the two stats do not matter |
| FileRead.AdvancingWritesDoNotRestore | src/config/mod.rs:99-111 | where the writes between the stats advance the mtime, none restores it |
| FileRead.AdvancingReadIsUntorn | src/config/mod.rs:99-111 | so there a returned read is the content at the first stat |
| FileRead.EverySpliceReturned | src/config/mod.rs:99-111 | for every file, every restoring write and every offset, some read gets the two contents spliced there, and returns them iff they are UTF-8 |
| FileRead.TearsIff | src/config/mod.rs:99-111 | one restoring write can make a read return text the file never held iff some splice of the two contents is UTF-8 and neither of them |
| FileRead.SomeWriteTearsIff | src/config/mod.rs:99-111 | a UTF-8 file has such a write, itself UTF-8, iff it is not empty |
| Headers.RemoveHopByHop | src/proxy/headers.rs:4-19 | exactly the eight names go, all else keeps its values in order |
| Headers.InjectProxyHeaders | src/proxy/headers.rs:21-41 | x-real-ip and x-forwarded-for become the peer address, or 0.0.0.0 where that is no header value, x-forwarded-proto becomes https, all else stays |
| Headers.BuildUpstreamRequest | src/proxy/handler.rs:218-256 | copies every name in order; Host is the authority, else the first Host value; fails iff the authority is no header value |
| Headers.AuthorityReadsBack | src/proxy/handler.rs:234-240 | host and port can be read back from the forwarded authority |
| Headers.ForwardHeaders | src/proxy/handler.rs:59-60 | the whole pipeline at the literal names: peer address and protocol, the forwarded Host, nothing under the eight names, all else in order |
| Headers.StripResponse | src/proxy/handler.rs:130-135 | the eight names and Server go, all else stays |
| Headers.ForwardedHostRoutesAlikeIff | src/proxy/handler.rs:39-44 | exactly when the routed and the forwarded host normalise to one name |
| Headers.ForwardedHostFindsSameSiteIff | src/proxy/handler.rs:39-44 | for every accepted file, a routed request is forwarded with a Host that looks up the same site exactly then |
| Headers.ForwardedHostCanDiffer | src/proxy/handler.rs:234-244 | a request for which they do not |
| Redirect.RedirectRoundTripIff | src/tls/redirect.rs:18-38 | parsing the URL by the delimiters of RFC 3986 recovers host, port, the path (behind a slash if it has none) and query, with no user information or fragment, iff the stripped host is one an authority can carry (no slash, question mark, number sign or at sign; colons only in brackets), the path has no question mark or number sign and the query no number sign |
| Redirect.HostWithAtSign | src/tls/redirect.rs:41-67 | a Host with an at sign: the URL names what follows the sign |
| Redirect.HostWithNumberSign | src/tls/redirect.rs:41-67 | a Host with a number sign: the URL names what precedes the sign, and port, path and query end up in the fragment |
| Redirect.RebuildFromParsed | src/tls/redirect.rs:18-38 | where the round trip holds, rebuilding from the parsed authority gives the same URL |
| Redirect.UpstreamUriRoundTripIff | src/proxy/handler.rs:206-212 | scheme, address, path and query read back from the upstream URI unchanged, as the library reads it (fragment dropped, empty path as a slash), iff the path starts with a slash, has no question mark or number sign, and the query no number sign |

## Left out

- Floating point: the bucket computes in `f64`; the model is exact, so rounding of token counts is not captured.
- Clock readings: one reading per bucket call and per log report, where the source takes two in a row; the panic of `Instant - Duration` near the clock's origin is not modelled.
- Counter width: the in-flight counters are integers, so that underflow would show; wrap-around at 2^64 concurrent requests is not modelled.
- Watchdog.WatchdogSafety: holds where requests share the connection's task; where they do not, ConcurrentWatchdog.ClosesEarlyIff and ConcurrentWatchdog.ClosesOverRequestIff are exact about what is left of it, because a start, frame or release can fall between two loads, and its touch can be stored late.
- ConcurrentWatchdog.ClosesEarlyIff: `idle_for` reads clock and cell in one step; a delay between the two would only make the idle time it computes smaller.
- ConcurrentWatchdog.QuietConnectionCloses: the loads of one poll take no time; only timers are late.
- The accept loop and the watchdog loop are steps of state machines rather than loops, because they interleave with other tasks; accept errors and their back-off do not change the lifecycle state and are left out there.
- Connections upgraded out of their task, and poisoned locks.
- Text is ASCII: `to_lowercase` on other characters is not modelled. Header values and URI hosts that reach routing are ASCII.
- Parsing of IP address literals, and which strings are header values, are oracles; so is file existence.
- Redirect.UpstreamUriRoundTripIff: takes the absence of slash, question mark and number sign in the upstream address as given, because IP literals are an oracle; which characters the library's parser refuses is not modelled.
- Redirect.RedirectRoundTripIff: the parser splits at delimiters, as the expression in appendix B of RFC 3986 does, and does not check the character set of each part.
- Text of error messages and of the reported field names; fields are an enumeration.
- The capacity limit of the header map.
- TLS and ACME set-up, the upstream clients and their timeouts, logging and log reopening, health and admin endpoints, the command line and TOML parsing: library wrappers or single branches, which would only add easy members.

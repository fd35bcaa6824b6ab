# Verified models of the security library's stateful protocols

This project models, in Dafny 4.11, the parts of the library that keep state or transform data, and
proves what they guarantee over every input, every history and every interleaving:

- **A store with expiry** (`TtlStore.dfy`, `StoreKeys.dfy`): the key-value store all services share, with
  a whole-second clock, and the keys the services build on it.
- **The rate limiter** (`RateLimit.dfy`, `RateLimitProtocol.dfy`, `RateLimitTheorems.dfy`): `isAllowed` run
  alone, and as a transition system in which any number of callers, clock ticks, crashes and other
  services' writes come between INCR, EXPIRE and TTL.
- **Tenant verification** (`Tenant.dfy`, `TenantProtocol.dfy`): the positive cache run alone, and as a
  transition system against a tenant service whose answers change and whose positive answers are
  written late.
- **Zero trust** (`RiskMemory.dfy`, `RiskEngine.dfy`, `ZeroTrust.dfy`, `History.dfy`,
  `HistoryTheorems.dfy`, `StepUpTheorems.dfy`, `Deployment.dfy`): failures, addresses, devices and step-up
  marks in the store, the risk score, and the theorem that the decision is a pure function of the history
  of events.
- **The active-event cookie** (`Json.dfy`, `JsonGrammar.dfy`, `JsonDocument.dfy`, `Percent.dfy`,
  `EventId.dfy`): a complete JSON reader and a percent decoder, each proved to accept exactly its grammar,
  the cookie parser, and the round trip of an event id through all of them.
- **Key rotation and sessions** (`Jwe.dfy`, `Session.dfy`, `Fleet.dfy`): tokens over a key ring, session
  metadata and expiry, and a fleet of nodes whose rings are rotated.
- **Role extraction** (`Roles.dfy`).

Classes and methods follow the services that update state; each is proved equal to a function of the
old state, and also states its effect outright: keys, lifetimes, weights, thresholds and codes are written
out in the contracts. The theorems are about those functions and about runs of the transition systems.

## Assumptions about the world outside

The store is not part of the repository, which shows only its interface
(src/rate-limit/rate-limit.store.ts, src/zero-trust/risk/risk-memory.store.ts,
src/zero-trust/device/device.store.ts). INCR, EXPIRE, TTL, GET, SET and DEL follow Valkey: INCR of an absent
key gives 1 without a deadline, EXPIRE of an absent key does nothing, TTL is -2 or -1 for an absent key
or one without a deadline, and an entry is gone from its deadline on. The tenant service's replies,
failures of the cache, GeoIP lookups, the HMAC, the clock and the fresh session id are parameters.

## Where code and expectation differ

The proofs follow the code. These statements are false of it, and the project says exactly when they hold:

- Admissions are bounded exactly when the rate limiter's window is positive or its limit lets nobody
  through (`BoundedIffWindowPositive`); with a window of zero or less every call starts over. With a
  positive window W, a span of T seconds lets through at most limit * ceil(T / W) callers when T - 1 is a
  multiple of W and limit * (ceil(T / W) + 1) - 1 otherwise (`AdmissionBound`), and for every T some run
  reaches that number (`BoundIsReached`). So one window can let through almost twice the limit, and one
  second never more than the limit.
- The retry time a denied caller is told is enough (`RetryTimeIsEnough`) unless its ttl was -1, read while the
  key still waited for its deadline: then the epoch may outlast it (`OwedDeadlineOutlastsRetry`).
- A key is locked without a deadline for good exactly when a caller crashed between its INCR and its
  EXPIRE (`LockedIffCrashedOwing`); `CrashLocksTheKey` bounds all later admissions by what was left of
  the limit.
- The tenant cache key does not tell a user `a:b` of tenant `c` from a user `a` of tenant `b:c`. Backing of
  acceptances by answers for exactly that pair, revocation and transparency hold for a pair in every run
  precisely when neither the user id after its first character nor the tenant id holds a colon
  (`ExactGuarantees`). They hold for every pair in a run whose user ids are all free of colons
  (`PlainUsersAreSafe`), and in general in runs that ask about no other pair with the same key.
- Two users can own one key of the shared store exactly when one id is the other followed by a colon and
  more (`CollisionsAreExact`); all other users' keys are told apart.
- Decisions follow from the history of events, for every history, exactly for users whose id does not
  hold `:stepup:` (`HistoryDecidesExactly`). For any other user a step-up of the user named before it, for
  the address `failures`, takes the place of the failure counter, and lets the user in where the
  history asks for a second factor (`StepUpWipesFailures`).
- A valid step-up was marked, in every history in which nobody else's events work on its key, exactly for
  the contexts `Unmixable` describes (`SoundExactly`). All contexts with both a device id and an address
  are among them, and all with neither. A context with the device `unknown-device:foo` and no address
  is not: a mark without a device, for the address `foo:unknown-ip`, is taken for it.
- A step-up is valid exactly when it was marked and kept, in every history, precisely for contexts whose
  device id and address hold no colon and whose address is neither `failures` nor `last-ip`, and users
  whose id followed by a colon does not hold `:stepup:` (`ExactIffPlain`). IPv6 addresses hold colons; a
  mark for another context with the same key text then replaces the first (`TwinReplacesMark`).
- Rotation never loses a session precisely when the clock plus the lifetime is past the instant 0
  (`StartTimeIsExact`): an expiry of 0 is read as no expiry (`ExpiryIsFinal`).
- An active-event cookie is the id itself exactly when it is not blank, holds no brace, plain or encoded,
  and is not a JSON value other than null (`PlainCookieIsKept`); one that holds a number yields nothing
  (`NumericCookieIsLost`). The raw text is judged before the decoded one, so a percent-encoded id comes
  back only when encoding changed nothing or when it holds a closing brace (`EncodedPlainIdIsKept`):
  `my%20event` yields `my%20event`.
- The ignored role `Default user role` is compared with lower-cased names and can never match
  (`DefaultUserRoleIsNotIgnored`).
- The repository's README.md calls the rate limiter memory-based by default; the code fails when it is
  enabled without a store, and so does `RateLimitService.IsAllowed`.

## Model

| member | source | states |
|---|---|---|
| RateLimit.RateLimitService.constructor | src/rate-limit/rate-limit.service.ts:44-45 | the limit defaults to 100 and the window to 60000 ms |
| RateLimit.RateLimitService.IsAllowed | src/rate-limit/rate-limit.service.ts:35-107 | disabled: let through without touching the store; enabled without a store: an error; otherwise the counter goes up by one, the first hit sets a deadline the least number of seconds away that covers the window, and a denied caller waits until the deadline, or that many seconds if there is none |
| RateLimitProtocol.RunKeepsInv | src/rate-limit/rate-limit.service.ts:48-61 | in every interleaving with ticks, crashes and other keys' writes: counters run 1, 2, 3, ... in each epoch, epochs begin a window apart, and one caller at most owes a deadline |
| RateLimitTheorems.EpochServesLimit | src/rate-limit/rate-limit.service.ts:48-71 | the values handed out in one key lifetime are exactly 1..n, each once, and exactly min(limit, n) callers are let through |
| RateLimitTheorems.AdmissionBound | src/rate-limit/rate-limit.service.ts:44-71 | any span of T seconds lets through at most limit * ceil(T / W) callers when T - 1 is a multiple of W and limit * (ceil(T / W) + 1) - 1 otherwise, so fewer than twice the limit in one window |
| RateLimitTheorems.BoundIsReached | src/rate-limit/rate-limit.service.ts:44-71 | for every limit, positive window and span some run lets exactly that many callers through |
| RateLimitTheorems.AnswerBound | src/rate-limit/rate-limit.service.ts:61-101 | the same by the time of the answer, with the span grown by the longest delay since INCR |
| RateLimitTheorems.DeadlineIsOwed | src/rate-limit/rate-limit.service.ts:57-59 | at most one caller owes the key its deadline, and it sets it on the epoch its own INCR began |
| RateLimitTheorems.LockedIffCrashedOwing | src/rate-limit/rate-limit.service.ts:48-59 | over every run, the key is live without a deadline and with nobody to set one exactly when some caller crashed while it owed it |
| RateLimitTheorems.DeadlineComes | src/rate-limit/rate-limit.service.ts:48-59 | otherwise a live key lacks its deadline exactly while some caller owes it, whatever other crashes there are |
| RateLimitTheorems.CallersAreServed | src/rate-limit/rate-limit.service.ts:48 | INCR never fails on the limiter's key, whatever the window |
| RateLimitTheorems.AnswersAreSound | src/rate-limit/rate-limit.service.ts:70-101 | let through exactly when the own count is within the limit; remaining plus the own count is the limit; a denied caller waits for the ttl, or W seconds when it is not positive |
| RateLimitTheorems.RetryTimeIsEnough | src/rate-limit/rate-limit.service.ts:61-94 | after the retry time it was told, the epoch that denied the caller is over, unless the ttl was -1 |
| RateLimitTheorems.OwedDeadlineOutlastsRetry | src/rate-limit/rate-limit.service.ts:57-94 | for every positive window a run in which the ttl was -1 and the epoch outlasts the retry time |
| RateLimitTheorems.CrashLocksTheKey | src/rate-limit/rate-limit.service.ts:48-59 | a crash between INCR and EXPIRE leaves the key without a deadline in every continuation, and at most limit - count more callers are ever let through |
| RateLimitTheorems.EmptyWindowAdmitsAll | src/rate-limit/rate-limit.service.ts:46-59 | with a window of zero or less, any number of calls at one instant all get the value 1 |
| RateLimitTheorems.BoundedIffWindowPositive | src/rate-limit/rate-limit.service.ts:44-59 | some bound on admissions per second exists exactly when the configured milliseconds are positive or the limit is not |
| RateLimitTheorems.CallIsThreeSteps | src/rate-limit/rate-limit.service.ts:48-101 | a call run alone is the protocol's steps in a row, with the same store and answer |
| Tenant.JudgeMembership | src/tenant/tenant-verifier.service.ts:127-263 | the first failing check decides; a call that failed with code 3, the error's own or else that of the error it wraps, is an unverified context, and any other failure an unavailable service |
| Tenant.JudgeTenant | src/tenant/tenant-verifier.service.ts:158-263 | only an active tenant is accepted; by the same rule code 5 is a missing tenant and code 3 an unverified context, and any other failure an unavailable service |
| Tenant.KeyOwnership | src/tenant/tenant-verifier.service.ts:111-113 | a pair shares its cache key with no other pair exactly when only one separator is possible |
| Tenant.TenantVerifierService.CachedHit | src/tenant/tenant-verifier.service.ts:83-97 | a hit needs the cache on, a read that works and a live entry |
| Tenant.TenantVerifierService.CachePositive | src/tenant/tenant-verifier.service.ts:99-109 | one entry for 45 seconds, unless the cache is off or the write fails |
| Tenant.TenantVerifierService.Verify | src/tenant/tenant-verifier.service.ts:65-81 | with a user, a live entry under `tenant:membership:user:tenant` accepts at once, and otherwise the service's answer decides and a yes is kept for 45 seconds; without a user the tenant's own answer decides and the cache is left alone |
| TenantProtocol.RunKeepsInv | src/tenant/tenant-verifier.service.ts:65-113 | in every interleaving each live cache entry, caller and outcome rests on a recorded answer of the right age |
| TenantProtocol.AcceptanceIsFresh | src/tenant/tenant-verifier.service.ts:65-113 | every acceptance rests on a positive answer less than 45 + delay seconds old for the same cache key |
| TenantProtocol.SharedKeyLetsIn | src/tenant/tenant-verifier.service.ts:111-113 | two pairs with one key: a reachable run accepts one though the service was only asked about the other, against every revocation and constant refusal |
| TenantProtocol.ExactGuarantees | src/tenant/tenant-verifier.service.ts:65-113 | backing by a recent positive answer for exactly that pair, revocation and transparency each hold for a pair in every run if and only if the pair has one possible separator |
| TenantProtocol.UnmixedIsBacked | src/tenant/tenant-verifier.service.ts:65-113 | acceptances rest on a recent positive answer for exactly that pair in every run that asked about no other pair with its key |
| TenantProtocol.PlainUsersAreSafe | src/tenant/tenant-verifier.service.ts:65-113 | all three hold for any tenant id in every run whose user ids are free of colons |
| TenantProtocol.OneSeparatorIsSafe | src/tenant/tenant-verifier.service.ts:65-113 | all three hold for a pair with one possible separator, whoever else is verified |
| TenantProtocol.RevocationTakesEffect | src/tenant/tenant-verifier.service.ts:65-113 | in such a run, once the service stops saying yes at r, the pair is rejected from r + 45 + delay on |
| TenantProtocol.CacheIsTransparent | src/tenant/tenant-verifier.service.ts:65-109 | in such a run or without a cache, if the service's answer about a pair is constant, every verification ends as without a cache, rejections included |
| TenantProtocol.VerifyIsSteps | src/tenant/tenant-verifier.service.ts:65-77 | a verification run alone, cache on or off, is the protocol's steps in a row |
| StoreKeys.KeysTellOwners | src/zero-trust/risk/risk-memory.service.ts:120-125 | a key determines its kind and its user, across all services, unless one user id is the other followed by a colon and more |
| StoreKeys.CollisionsAreExact | src/zero-trust/risk/risk-memory.service.ts:120-125 | two users can own one key exactly when one id is the other followed by a colon and more |
| StoreKeys.PlainUsersAreSeparable | src/zero-trust/risk/risk-memory.service.ts:120-125 | ids free of colons never collide |
| StoreKeys.WritesStayApart | src/zero-trust/device/device.service.ts:37-38 | for users that do not collide, a write for one user and kind changes nothing another user or kind reads |
| StoreKeys.ColonsMixOwners | src/zero-trust/risk/risk-memory.service.ts:43-47 | such a collision across kinds: a last-address key that is another user's step-up key |
| StoreKeys.WordKeyIsOwn | src/zero-trust/risk/risk-memory.service.ts:23-47 | a counter or address key is nobody else's unless the user id holds `:stepup:` |
| StoreKeys.DeviceKeyIsOwn | src/zero-trust/device/device.service.ts:37-38 | a device key is nobody else's, whatever the ids, as hexadecimal digests hold no colon |
| StoreKeys.StepUpKeyIsOwn | src/zero-trust/risk/risk-memory.service.ts:120-125 | a plain step-up key is nobody else's |
| RiskMemory.RiskMemoryService.DoIncrementFailures | src/zero-trust/risk/risk-memory.service.ts:21-27 | INCR and a fresh 900-second deadline; 0 without a store |
| RiskMemory.RiskMemoryService.DoGetFailures | src/zero-trust/risk/risk-memory.service.ts:29-34 | the live counter, or 0 |
| RiskMemory.RiskMemoryService.DoResetFailures | src/zero-trust/risk/risk-memory.service.ts:36-39 | deletes the counter |
| RiskMemory.RiskMemoryService.DoStoreLastIp | src/zero-trust/risk/risk-memory.service.ts:41-44 | stores the address for a day |
| RiskMemory.RiskMemoryService.DoGetLastIp | src/zero-trust/risk/risk-memory.service.ts:46-48 | the live address, if any |
| RiskMemory.RiskMemoryService.DoMarkStepUpVerified | src/zero-trust/risk/risk-memory.service.ts:56-70 | stores the context's address and device for 600 seconds |
| RiskMemory.RiskMemoryService.DoIsStepUpValid | src/zero-trust/risk/risk-memory.service.ts:75-103 | a live mark whose given fields do not contradict the context |
| RiskMemory.RiskMemoryService.DoClearStepUp | src/zero-trust/risk/risk-memory.service.ts:108-112 | deletes the mark |
| RiskMemory.DeviceService.DoIsKnown | src/zero-trust/device/device.service.ts:32-42 | a live, non-empty entry under the fingerprint's hash |
| RiskMemory.DeviceService.DoRegister | src/zero-trust/device/device.service.ts:48-57 | trusts the hash for the configured time |
| RiskMemory.DeviceService.DoRevoke | src/zero-trust/device/device.service.ts:62-71 | deletes the trust |
| RiskEngine.AddDeviceAndIp | src/zero-trust/risk/risk-engine.service.ts:27-37 | 20 for an unknown device, 15 for a changed address, each with its reason |
| RiskEngine.AddGeo | src/zero-trust/risk/risk-engine.service.ts:39-51 | 30 for a changed country, a missing code counting as a country of its own, and 40 for a high-risk one |
| RiskEngine.AddFailures | src/zero-trust/risk/risk-engine.service.ts:53-62 | 20 from three failures, 30 more from six |
| RiskEngine.AddFlow | src/zero-trust/risk/risk-engine.service.ts:64-73 | 15 for a reset, 10 for a passwordless login |
| RiskEngine.Conclude | src/zero-trust/risk/risk-engine.service.ts:75-91 | the clamp and the three thresholds, with the texts as collected |
| RiskEngine.RiskEngineService.Evaluate | src/zero-trust/risk/risk-engine.service.ts:13-92 | the score is the clamped sum of eight weights, each under its condition on the context, the previous address, the device store and the two lookups; it alone decides by 85, 60 and 35; the texts follow in order |
| RiskEngine.AssessmentMeans | src/zero-trust/risk/risk-engine.service.ts:13-92 | score, decision and texts in the context's own fields, with the eight weights and three thresholds |
| RiskEngine.ReasonsMean | src/zero-trust/risk/risk-engine.service.ts:27-73 | when each of the eight texts is returned |
| RiskEngine.ReasonsAreSignals | src/zero-trust/risk/risk-engine.service.ts:27-73 | the texts returned are exactly those of the signals that are on |
| RiskEngine.TextTellsReason | src/zero-trust/risk/risk-engine.service.ts:30-72 | no two reasons have the same text |
| RiskEngine.MoreSignalsNeverWeaken | src/zero-trust/risk/risk-engine.service.ts:27-91 | further signals never lower the score and never weaken the decision |
| RiskEngine.TwoSignalsNeverBlock | src/zero-trust/risk/risk-engine.service.ts:27-91 | one signal asks for a TOTP at most, and no two signals block |
| RiskEngine.MoreFailuresNeverWeaken | src/zero-trust/risk/risk-engine.service.ts:54-91 | nor do more failures |
| ZeroTrust.ZeroTrustService.DoEvaluate | src/zero-trust/core/zero-trust.service.ts:14-25 | the assessment follows from the risk memory's store and the device store, be they one, two or missing, and each text about them from what they hold |
| ZeroTrust.EvaluateMeans | src/zero-trust/core/zero-trust.service.ts:14-25 | the texts about failures, address and device in terms of the two stores |
| History.CounterIsTail | src/zero-trust/risk/risk-memory.service.ts:21-39 | for a user id without `:stepup:`, the counter with sliding expiry holds the length of the unbroken tail of failures, and is gone exactly when the tail is empty |
| History.FailuresAreTail | src/zero-trust/risk/risk-memory.service.ts:29-34 | getFailures after any history is that length |
| History.IpIsRecent | src/zero-trust/risk/risk-memory.service.ts:41-48 | the stored address is the last one of the past day |
| History.KnownIsTrusted | src/zero-trust/device/device.service.ts:32-71 | a device is known exactly when the last word on it was a registration still in force |
| History.EvaluationIsHistory | src/zero-trust/core/zero-trust.service.ts:14-25 | score, decision and reasons computed from the stores, shared, separate or missing, equal a pure function of the events that reached them |
| History.HistoryDecidesExactly | src/zero-trust/core/zero-trust.service.ts:14-25 | that holds for every history and evaluation of a user if and only if the user id does not hold `:stepup:` |
| History.StepUpWipesFailures | src/zero-trust/risk/risk-memory.service.ts:56-70 | for any other user id, a history that lets the user in where its events ask for a second factor |
| HistoryTheorems.SplitStoresDecideAlike | src/zero-trust/zero-trust.module.ts:21-38 | giving the devices a store of their own makes no difference to any decision |
| HistoryTheorems.TailIsLongest | src/zero-trust/risk/risk-memory.service.ts:21-39 | that tail is the longest run of failures since the last reset whose gaps, the one to now included, are all under 900 seconds |
| HistoryTheorems.InsertedFailure | src/zero-trust/risk/risk-memory.service.ts:21-34 | one more failure anywhere in a history never lowers a later count |
| HistoryTheorems.ExtraFailureNeverHelps | src/zero-trust/risk/risk-engine.service.ts:54-91 | nor does it move a later decision towards letting the user in |
| HistoryTheorems.ExtraFailureNeverHelpsShared | src/zero-trust/risk/risk-engine.service.ts:54-91 | the same when one store serves both |
| StepUpTheorems.StepUpKeyHolds | src/zero-trust/risk/risk-memory.service.ts:56-112 | a step-up key on which only its user works holds what its last mark left, for 600 seconds, unless cleared |
| StepUpTheorems.ApartIsUndisturbed | src/zero-trust/risk/risk-memory.service.ts:120-125 | only its user works on it when all other ids are apart |
| StepUpTheorems.StepUpIsSound | src/zero-trust/risk/risk-memory.service.ts:56-125 | a valid step-up of an unmixable context was marked for this address and device less than 600 seconds ago and not cleared since, colons or not |
| StepUpTheorems.SoundExactly | src/zero-trust/risk/risk-memory.service.ts:75-125 | that holds in every undisturbed history if and only if the context is unmixable |
| StepUpTheorems.SoleIsExact | src/zero-trust/risk/risk-memory.service.ts:56-125 | where only step-ups of this context work on the key, it is valid exactly then |
| StepUpTheorems.StepUpIsExact | src/zero-trust/risk/risk-memory.service.ts:56-125 | with device ids of this user free of colons it is valid exactly then |
| StepUpTheorems.ExactIffPlain | src/zero-trust/risk/risk-memory.service.ts:56-125 | it is valid exactly then in every history if and only if device id, address and user id are plain |
| StepUpTheorems.TwinReplacesMark | src/zero-trust/risk/risk-memory.service.ts:120-125 | for every context with a device id, an address and a colon, a mark for another context makes a kept mark invalid |
| Deployment.Services.Handle | src/zero-trust/zero-trust.module.ts:54-82 | handing an event to its service keeps the shared store equal to the replayed history; a counted request touches `rate-limit:ip` alone |
| Deployment.Services.Evaluate | src/zero-trust/core/zero-trust.service.ts:14-25 | the running services decide by the pure function of everything that happened, for a user whose id does not hold `:stepup:`; the texts about failures, address and device follow from the events |
| Json.StringRoundTrip | src/auth/utils/extract-event-id.util.ts:53 | an escaped text is read back up to its closing quote |
| JsonDocument.ParserIsExact | src/auth/utils/extract-event-id.util.ts:53 | the reader accepts exactly the texts of the JSON grammar, spaces, escapes, surrogate pairs and number forms included, and gives each its value, a later member of the same name replacing an earlier one |
| JsonDocument.TreeIsRead | src/auth/utils/extract-event-id.util.ts:53 | every syntax tree is read from its text, with what follows left over |
| JsonDocument.ReadIsTree | src/auth/utils/extract-event-id.util.ts:53 | whatever is read is the text of a syntax tree |
| JsonDocument.ReferenceRoundTrip | src/auth/utils/extract-event-id.util.ts:53 | parsing a printed `{id}` gives an object with exactly that id |
| Percent.DecodeIsExact | src/auth/utils/extract-event-id.util.ts:46 | the decoder accepts exactly the texts made of plain characters and percent-encoded UTF-8, in either case of the digits, and gives what they spell |
| Percent.RoundTrip | src/auth/utils/extract-event-id.util.ts:46 | decoding gives back every encoded text of Unicode scalar values |
| EventId.ReadCookie | src/auth/utils/extract-event-id.util.ts:6-36 | a parsed cookie wins; otherwise the first piece between semicolons whose trimmed text before its first `=` is the name, well-formed or not, and nothing exactly when there is none |
| Prelude.SplitIsExact | src/auth/utils/extract-event-id.util.ts:20 | the pieces joined by semicolons are the header, and none holds one |
| Prelude.TrimIsExact | src/auth/utils/extract-event-id.util.ts:29-32 | trimming takes away white space at both ends, all of it and nothing else |
| EventId.CookieRoundTrip | src/auth/utils/extract-event-id.util.ts:13-35 | a printed cookie header gives the first value with the name, values with `=` included, or nothing |
| EventId.ParseActiveEventCookie | src/auth/utils/extract-event-id.util.ts:38-68 | the raw text, then the decoded one: an object yields its non-blank text `id`, other JSON values but null yield nothing, and a text that is not JSON yields itself unless blank or with a brace, plain or encoded |
| EventId.EncodedNeverWins | src/auth/utils/extract-event-id.util.ts:51-65 | the undecoded candidate is never taken where a brace was encoded |
| EventId.RecordIsRead | src/auth/utils/extract-event-id.util.ts:38-68 | from the encoded text of any JSON object, however laid out and whatever else it holds, the cookie gives its last `id`, if that is a text and not blank |
| EventId.ReferenceIsRead | src/auth/utils/extract-event-id.util.ts:38-68 | an id is read from its encoded reference exactly when it is not blank |
| EventId.UnencodedRecordIsRead | src/auth/utils/extract-event-id.util.ts:51-57 | an object that holds an id is read without encoding as well |
| EventId.CookieIdIsNeverBlank | src/auth/utils/extract-event-id.util.ts:55-63 | whatever a cookie yields is not blank |
| EventId.PlainCookieIsKept | src/auth/utils/extract-event-id.util.ts:38-68 | a cookie is the id itself exactly when it is not blank, holds no brace, plain or encoded, and is not a JSON value other than null |
| EventId.EncodedPlainIdIsKept | src/auth/utils/extract-event-id.util.ts:38-68 | a percent-encoded id comes back exactly when it is such a text and either needs no encoding or holds a closing brace |
| EventId.NumericCookieIsLost | src/auth/utils/extract-event-id.util.ts:52-64 | a plain cookie holding a number yields nothing |
| EventId.ExtractEventId | src/auth/utils/extract-event-id.util.ts:77-119 | the variable `eventId`, then that of `input` or of its first item, then that of `filter`, then the trimmed header or its first value, then the cookie, parsed or in the header |
| EventId.Precedence | src/auth/utils/extract-event-id.util.ts:77-119 | the same of the function the theorems use |
| EventId.RecordRoundTrip | src/auth/utils/extract-event-id.util.ts:6-118 | any JSON object, percent-encoded and put anywhere into a well-formed cookie header, gives its id as the event id |
| EventId.EventIdRoundTrip | src/auth/utils/extract-event-id.util.ts:6-118 | so an id printed as JSON comes back exactly when it is not blank |
| Jwe.Decrypt | src/jwe/core/jwe.service.ts:29-45 | trying every key opens a token exactly when some key is the material it was sealed with and its content is JSON; an empty ring and a failure are told apart |
| Jwe.Encrypt | src/jwe/core/jwe.service.ts:17-27 | tokens are sealed with the first key's material and name its kid; an empty ring fails |
| Jwe.OpensElsewhere | src/jwe/core/jwe.service.ts:17-45 | sealed under one ring, a token opens under another exactly when that ring holds the first one's active key |
| Session.MetadataRoundTrip | src/session/secure-session.service.ts:34-92 | the metadata asked for comes back whatever the payload holds, up to and including the expiry, and is refused after it |
| Session.MetadataIsExact | src/session/secure-session.service.ts:51-92 | for any token that opens: when it is expired, when its metadata is invalid, and otherwise just its fields |
| Session.PayloadRoundTrip | src/session/secure-session.service.ts:34-62 | all other claims come back unchanged |
| Session.ExpiryIsFinal | src/session/secure-session.service.ts:51-62 | past its expiry a session is rejected, except when the expiry is the instant 0 |
| Fleet.RunKeepsInv | src/jwe/core/keyring.provider.ts:41-49 | issuing, waiting, starting nodes and appending, promoting and dropping keys keep every current session's key in every ring, by guards on rings, clock and last issue alone |
| Fleet.SessionsAreReadEverywhere | src/jwe/core/jwe.service.ts:17-45 | in every interleaving of those steps every node reads every current session as it was issued, and rejects it afterwards |
| Fleet.DropTimeIsExact | src/session/secure-session.service.ts:38-45 | dropping a key no node seals with loses no session exactly when its last issue plus one lifetime is past |
| Fleet.StartTimeIsExact | src/session/secure-session.service.ts:51-62 | rotation never loses a session exactly when no session can expire at the instant 0 |
| Fleet.RestartConditionIsExact | src/jwe/core/jwe.service.ts:17-45 | given any ring at all, a node loses no session, current or issued next by any node, exactly when the ring holds every current session's key and shares active keys with the other nodes |
| Fleet.UnsharedHeadLosesSessions | src/jwe/core/jwe.service.ts:17-27 | a node whose active key another node lacks issues sessions the other cannot read |
| Fleet.AppendIsSafe | src/jwe/core/keyring.provider.ts:46-49 | a key may be appended to any ring at any time |
| Fleet.PromoteIsSafe | src/jwe/core/keyring.provider.ts:41-44 | a key every node holds may be put first in any ring |
| Fleet.DropIsSafe | src/session/secure-session.service.ts:38-45 | a key may be dropped once it is active nowhere and its last issue plus one lifetime is past |
| Roles.ExtractUserRoles | src/auth/utils/extract-roles.util.ts:10-24 | without repeats, exactly the valid names outside the five technical ones that some realm or resource role trims to, realm before resources and these in turn |
| Roles.EarlyDedupeIsHarmless | src/auth/utils/extract-roles.util.ts:21-23 | deduplicating before trimming changes nothing |
| Roles.ExtractedIsExact | src/auth/utils/role-filter.util.ts:34-50 | the same members for the one-line specification |
| Roles.ExtractedOrder | src/auth/utils/extract-roles.util.ts:11-21 | and the same order |
| Roles.LowerIsExact | src/auth/utils/role-filter.util.ts:41 | lower case changes the letters A to Z and nothing else |
| Roles.FilterIsIdempotent | src/auth/utils/role-filter.util.ts:34-50 | filtering again changes nothing |
| Roles.FilterKeepsOrder | src/auth/utils/role-filter.util.ts:39-49 | names keep the order of their first occurrence |
| Roles.DefaultUserRoleIsNotIgnored | src/auth/utils/role-filter.util.ts:6-13 | the entry with a capital letter can never match |

## Left out

- NestJS modules, decorators, guards, Passport and JWKS: wiring without an algorithm of its own.
- Argon2, AES-GCM, HMAC and jose: foreign cryptography. A token opens with its own material only, and the HMAC is any function whose digests hold no colon.
- src/hash/encryption.service.ts, token cookies, token extraction, principal resolution and the event guards: they keep no state, and each takes one branch on one value.
- `resolvePrimaryRole` and `PolicyService.enforce`: a lookup in a fixed list and the identity.
- Logging, tracing spans, audit events and exception metadata: only which rejection occurred is kept.
- The text of stored values: a counter, a text and a step-up record are distinct values, so INCR of a text of digits and the JSON text of a step-up record are not modelled; a text found under a step-up key counts as unreadable, and a step-up record found under an address key as no address. Under keys that are nobody else's (`WordKeyIsOwn`, `StepUpKeyIsOwn`) no service writes such values.
- RiskMemory.RiskMemoryService.DoGetFailures: a value that is not a counter reads as 0 where JavaScript gives NaN; both fail every comparison made with it.
- Fractions of a second in the store's clock and fractional settings: times, limits and windows are whole numbers.
- SET with a lifetime of zero or less, which Valkey refuses: the model writes an entry that is already past its deadline.
- Interleaving inside one risk-memory operation: each runs as a whole. Interleaving is studied for the rate limiter and the tenant cache.
- TenantProtocol: verifications without a user are not steps of it, since they never touch the cache.
- History.EvaluationIsHistory: one GeoIP answer per address within an evaluation.
- RateLimitTheorems.AdmissionBound: counts a caller when its INCR runs; AnswerBound counts it when it is answered.
- JsonDocument.ParserIsExact: texts are sequences of Unicode scalar values, so lone surrogates, and escapes that would make one, are not modelled.
- Session.PayloadRoundTrip: claims are JSON values already; what serialising does to others (undefined is dropped, NaN becomes null, a date becomes text) is not modelled.
- Session.MetadataIsExact: an `exp` that is a text, which only a token sealed elsewhere can hold, is not compared.
- Roles.ExtractUserRoles: the role enumeration lives in another package and is a parameter; lower-casing covers the letters of ASCII, which are all that the ignored names contain.

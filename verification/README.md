# Throttle, verified

A Dafny model of Throttle's rate limiter: the four limiting algorithms, the expiring key/value store they share,
and the service that configures them per key. The algorithms are classes over a mutable store, as in Go; each
method is proved equal to a pure step, and the theorems speak about whole runs of such steps.

- `Storage`, `StoreHistory`, `SortedSets`, `Decimal`: the store (values with expiration, counters, sorted sets) and its
  histories.
- `Limiters`: the decision of each algorithm, one `Allow` on the cell of its key, and runs of events on that cell:
  calls, resets, sweeps of the cleanup goroutine, corruption of the stored string, failing store accesses. Bounds on
  what an interval admits share one induction, `Amortize`, and differ in their potential function. Both buckets'
  states live for a day; `BusyNeverForgets` says when that is long enough.
- `SlidingWindows`, `TokenBuckets`, `LeakyBuckets`, `FixedWindows`: each class and what it guarantees.
- `Interleavings`: calls that overlap, `Get` and `Set` being separate store accesses, and what still holds whatever the
  interleaving. `Turns`: when the limit itself is kept. `Overlaps`: how far it can be overrun at one instant.
- `Service`, `ServiceRuns`: the service as object and as state machine, and runs of operations on many keys.
  `ServiceResponses`: what each operation answers and which configuration a history leaves in force. `Cleanups`: that no
  client can tell when the store is swept. `ConfiguredLimits`: how many requests the numbers of a configuration allow.
- `Int64`: where int64 arithmetic cannot overflow, and where it does.

## Reading the model

Instants and durations are integers in nanoseconds, and the clock does not run backwards. One call reads the clock
several times: `Reading` has the instant the decision uses (`now`), those at which the store executes `Get` and
`Set`, the reading in between that a new token bucket and the fixed window's TTL use, and whether the store
accesses succeed. `stall` bounds how long a call takes from its clock reading to its `Get`. A failing access has no
effect. `Backend` says how the store reads a TTL: `Memory` and `Redis` differ in a TTL of zero, which `Redis` takes
for "never"; `Eternal` never forgets and serves as the reference in the theorems on expiry. Token counts are reals.

## Where the code differs from its documentation

- Fixed window: the remark that twice the limit is possible (line 29) is off by one for half-open intervals of one
  window length. Windows start with a request of their own, so `n` window lengths admit at most `(n+1)*max - 1`
  calls, and for every `n` some run reaches that (`IntervalBound`, `BoundIsReached`).
- Leaky bucket: requests are said to leak at a fixed rate. `LastLeakTime = now` drops the remainder of the interval
  at every call, denied ones included, so the bucket is never more permissive than one that leaks at fixed instants
  (`IdealGrantsAsMuch`). For calls at multiples of some spacing it is equal to that one exactly if the spacing is a
  number of whole intervals or long enough to drain the bucket (`AgreementIsExact`; `DroppedRemainderDenies` is the
  run that fails otherwise), and under polling faster than the interval it never leaks at all
  (`PollingStopsTheLeak`).
- Both buckets forget their state a day after its last write. That changes decisions exactly for buckets that a day
  and a nanosecond (for the leaky bucket, less the stall) neither refill nor drain (`ExpiryIsTransparent`), and only
  in runs that pause for a day (`BusyNeverForgets`).
- Under concurrent calls the limit itself is not kept: `Get` and `Set` are separate, and the clock is read before
  both. The sliding window keeps it when calls take turns and each reads its clock after the `Set` before it, at most
  a second and a nanosecond before its `Get` (`FreshReadingsKeepTheLimit`). Taking turns between `Get` and `Set` alone
  is not enough: a clock reading one nanosecond older than the `Get` can break a limit of two or more
  (`TurnsKeepTheLimit`, `OldReadingOverrunsTheLimit`). For the fixed window it is enough as long as no reading is more
  than a window and a second older (`TurnsKeepTheFixedLimit`). At one instant, k calls at a time admit up to a
  binomial coefficient less one (`OverrunIsBinomial`).
- Sliding and fixed window: the extra second of the TTL covers calls that stall between clock and store; the
  tolerated stall is exactly that second and a nanosecond (`StallBoundIsExact`).
- A key keeps the limiter of the first configuration it is checked or reset under (`FirstConfigGoverns`,
  `RaisedLimitIsIgnored`), and `ResetLimit` clears only the algorithm now configured (`ResetUndoes`).
- `ValidateConfig` has no upper bounds: a leaky bucket whose `window_seconds` is a multiple of 2^55 divides by zero
  on its first check, and no other accepted one does (`LeakyCheckIsDefined`).
- `ZAdd` does not look at the expiration: unless a sweep came first, it brings back the members of an expired set
  (`SweepEndsExpiredSets`), as `Increment` does a counter (`SweepVisibleToCounters`).
- When only the metadata cannot be written, `SetConfig` reports failure though the configuration is in force, and the
  status tells of the one before (`AcceptableConfigsAreStored`, `StatusTellsMetadata`).
- Under `MemoryStore` a configuration expires at once, because its TTL of zero is added to the clock
  (`ConfigIsReadBack`); the run theorems of the service that need a lasting configuration exclude it.

## Model

| member | source | states |
|---|---|---|
| SlidingWindows.SlidingWindow.Allow | internal/limiter/sliding_window.go:70-128 | the scan, copy and append write back exactly what the pure step writes, to this key only, and return its decision; fails open |
| SlidingWindows.SlidingWindow.Reset | internal/limiter/sliding_window.go:131-138 | deletes this key's state unless the store fails |
| SlidingWindows.ExactRefinement | internal/limiter/sliding_window.go:70-128 | in every run with resets, corruption, sweeps, expiry and failures, the replies are those of an unbounded log of admissions that lets a call through iff fewer than max lie in the window |
| SlidingWindows.KeptIsTail | internal/limiter/sliding_window.go:89-107 | pruning a sorted list keeps exactly the logged admissions inside the window |
| SlidingWindows.WindowBound | internal/limiter/sliding_window.go:13-36 | any interval no longer than the window admits at most max calls, plus the failed ones, plus max per reset or corruption in it |
| SlidingWindows.GreedyIsOptimal | internal/limiter/sliding_window.go:89-112 | on every prefix of every run at least as many calls are admitted as by any policy that keeps max per window, even a clairvoyant one |
| SlidingWindows.DenialIsForced | internal/limiter/sliding_window.go:106-107 | where the log denies a call a conforming policy takes, that policy has admitted strictly fewer calls before |
| SlidingWindows.StallBoundIsExact | internal/limiter/sliding_window.go:122 | the refinement holds for all runs with a given bound on stalls iff the bound is at most one second and one nanosecond |
| SlidingWindows.StalledCallDisagrees | internal/limiter/sliding_window.go:72-75 | a full window, and a call that reads the clock inside it but reaches the store after expiry: granted, though the log denies it |
| SlidingWindows.SecondWindowful | internal/limiter/sliding_window.go:86-118 | of max calls that come after max calls none is admitted while those are in the window, and all are from then on |
| TokenBuckets.TokenBucket.GetBucketState | internal/limiter/token_bucket.go:128-156 | the stored state, or a full bucket when it is missing or unreadable |
| TokenBuckets.TokenBucket.Allow | internal/limiter/token_bucket.go:74-110 | lazy refill with cap, one token per granted call: writes and returns what the pure step does |
| TokenBuckets.TokenBucket.Reset | internal/limiter/token_bucket.go:113-120 | deletes this key's state unless the store fails |
| TokenBuckets.LevelAdvances | internal/limiter/token_bucket.go:85-93 | the lazily computed level at any instant is that of a bucket filled continuously and capped |
| TokenBuckets.CallTakesToken | internal/limiter/token_bucket.go:92-100 | over any store, a successful call is granted iff the level of what its Get finds holds a token, and leaves a level one lower |
| TokenBuckets.BurstBound | internal/limiter/token_bucket.go:12-24 | where the store never forgets, or a day refills the bucket, or traffic never pauses for a day: any interval admits at most a full bucket plus the inflow between its ends, plus failures and a bucketful per reset |
| TokenBuckets.TokensAreConserved | internal/limiter/token_bucket.go:85-100 | in every run over every store, a full bucket plus inflow plus tokens given back equal tokens at the end plus tokens spent plus tokens spilled over the cap, the end being the state stored; nothing is given back where the store remembers and nobody resets or corrupts |
| TokenBuckets.BooksBalance | internal/limiter/token_bucket.go:85-100 | the same balance over any stretch of a run, from any state |
| TokenBuckets.DeniedCallsLeaveNoTrace | internal/limiter/token_bucket.go:86-100 | deleting any denied calls from a run changes no other reply; nor the level any later Get finds, unless the store can forget a bucket that has not refilled |
| TokenBuckets.GreedyIsOptimal | internal/limiter/token_bucket.go:92-98 | on every prefix of every run at least as many calls are admitted as by any policy that pays from a bucket with the same refill and cap |
| TokenBuckets.ExpiryIsTransparent | internal/limiter/token_bucket.go:165-170 | the 24h expiry changes no reply in any run iff a day and a nanosecond refill the bucket |
| TokenBuckets.ForgettingIsHarmless | internal/limiter/token_bucket.go:136-142 | for such a bucket a run over the expiring store and one over a store that never forgets reply alike, from any related states |
| TokenBuckets.SecondBurstGranted | internal/limiter/token_bucket.go:136-142 | a day and a nanosecond after a full burst the expiring store grants another |
| TokenBuckets.SecondBurstDenied | internal/limiter/token_bucket.go:85-98 | a remembered bucket that has not refilled by then does not |
| TokenBuckets.SecondBucketful | internal/limiter/token_bucket.go:85-98 | of a bucketful of calls that comes after a bucketful exactly as many are admitted as whole tokens have flowed in since, or all of them more than 24 hours later on a store that forgets |
| LeakyBuckets.LeakyBucket.Allow | internal/limiter/leaky_bucket.go:76-136 | whole-interval leak, floor at zero, capacity check: writes and returns what the pure step does |
| LeakyBuckets.LeakyBucket.Reset | internal/limiter/leaky_bucket.go:139-146 | deletes this key's state unless the store fails |
| LeakyBuckets.DripSplits | internal/limiter/leaky_bucket.go:102-104 | splitting a stretch of time never lets more leak out of it |
| LeakyBuckets.CallAddsRequest | internal/limiter/leaky_bucket.go:101-120 | over any store, a successful call is granted iff what its Get finds has drained below capacity, and adds one |
| LeakyBuckets.RateBound | internal/limiter/leaky_bucket.go:101-120 | where the store never forgets, or a day less the stall drains the bucket, or traffic never pauses for a day: any interval admits at most a bucketful plus the whole intervals' leak between its ends, plus failures and a bucketful per reset |
| LeakyBuckets.IdealGrantsAsMuch | internal/limiter/leaky_bucket.go:101-120 | under the same condition every call granted is granted by an ideal bucket that leaks at fixed instants, and the count stored at the end is at least the ideal one |
| LeakyBuckets.AgreesOnGrid | internal/limiter/leaky_bucket.go:101-120 | under the same condition, when all calls fall on those instants the two reply alike |
| LeakyBuckets.AgreesWhenSparse | internal/limiter/leaky_bucket.go:101-120 | under the same condition, the two reply alike when the bucket drains between any two instants calls come at |
| LeakyBuckets.AgreementIsExact | internal/limiter/leaky_bucket.go:101-120 | for g up to a day, or a store that never forgets: all remembered runs with calls at multiples of g agree with the ideal bucket iff nothing leaks, g is a number of whole intervals, or the bucket drains within g |
| LeakyBuckets.DroppedRemainderDenies | internal/limiter/leaky_bucket.go:113 | for any other spacing, over any such store, the ideal bucket grants a call that this one denies at the first multiple by which the dropped remainders add up to an interval |
| LeakyBuckets.PollingStopsTheLeak | internal/limiter/leaky_bucket.go:102-113 | if successive calls are less than an interval apart, and interval and stall together no longer than a day (or the store remembers), a run of any length admits one bucketful |
| LeakyBuckets.ExpiryIsTransparent | internal/limiter/leaky_bucket.go:129-130 | for stalls up to a bound below the interval, the 24h expiry changes no reply in any run iff a day and a nanosecond less that bound drain the bucket |
| LeakyBuckets.ForgettingIsHarmless | internal/limiter/leaky_bucket.go:81-99 | with stalls up to a bound, it changes none if a day less that bound drains it |
| LeakyBuckets.SecondBurstGranted | internal/limiter/leaky_bucket.go:81-99 | after a full burst and a day, a stalled call and another burst: the expiring store grants them all |
| LeakyBuckets.SecondBurstDenied | internal/limiter/leaky_bucket.go:101-106 | a remembered bucket that had not drained when that call read its clock does not |
| LeakyBuckets.SecondBucketful | internal/limiter/leaky_bucket.go:101-120 | of a bucketful of calls that comes after a bucketful exactly as many are admitted as have leaked in the whole intervals since, or all of them more than 24 hours later on a store that forgets |
| FixedWindows.FixedWindow.Allow | internal/limiter/fixed_window.go:72-132 | window rollover, count and computed TTL: writes and returns what the pure step does |
| FixedWindows.FixedWindow.Reset | internal/limiter/fixed_window.go:135-142 | deletes this key's state unless the store fails |
| FixedWindows.CallCounts | internal/limiter/fixed_window.go:83-126 | a call counts in the window open at its instant, or opens one; the TTL outlives the window by a second |
| FixedWindows.IntervalBound | internal/limiter/fixed_window.go:28-29 | n window lengths admit at most (n+1)*max - 1 calls in every run, plus failures and max per reset |
| FixedWindows.BoundIsReached | internal/limiter/fixed_window.go:28-29 | for every positive n, and windows of two nanoseconds or more, some run admits exactly that many |
| FixedWindows.WindowAdmitsTheFirst | internal/limiter/fixed_window.go:106-111 | with sweeps and failing calls in between, of the calls in one window whose store accesses succeed the first max are granted and no others; so it admits the smaller of their number and max, plus those that fail open |
| FixedWindows.StallBoundIsExact | internal/limiter/fixed_window.go:120-124 | expiry changes no reply in any run with a given bound on stalls iff the bound is at most one second and one nanosecond |
| FixedWindows.SecondWindowful | internal/limiter/fixed_window.go:83-111 | of max calls that come after max calls none is admitted before the window's end, and all are from then on |
| Limiters.BucketsLiveADay | internal/limiter/token_bucket.go:165-170 | what a successful call leaves of a token or leaky bucket is found at an instant iff that is at most 24 hours after the Set, or the store never forgets |
| Limiters.ListsOutliveTheirWindow | internal/limiter/sliding_window.go:122 | a sliding window's list is found for a window and one second after its Set, and no longer |
| Limiters.CountsOutliveTheirWindow | internal/limiter/fixed_window.go:120-126 | a fixed window's count is found for the rest of the window and one second after its Set, or for a whole window and a second when the clock has passed that, and no longer unless Redis is given a TTL of zero |
| Limiters.BusyNeverForgets | internal/limiter/token_bucket.go:165-170 | a bucket whose every call reaches the store within a day of the write before it behaves over any expiring store as over one that never expires, in replies and in what is stored |
| Interleavings.SlidingDenialsAreJustified | internal/limiter/sliding_window.go:72-125 | for any interleaving of overlapping calls, stored and pending lists hold at most max distinct real admissions, and a denial is backed by max of them in the window, up to the clock skew |
| Interleavings.FixedDenialsAreJustified | internal/limiter/fixed_window.go:74-129 | for any interleaving, stored and pending counts never exceed the admissions made under their window end, and a denial is backed by max of them |
| Turns.TurnsKeepTheLimit | internal/limiter/sliding_window.go:72-125 | in every interleaving without failures and resets, with at most k calls in flight between Get and Set and clock readings up to `skew` older than the Get, every window records at most max admissions, iff k is zero, or k is one and skew is zero or the limit one (with skew up to a second and a nanosecond, or a store that never forgets) |
| Turns.TurnsKeepTheFixedLimit | internal/limiter/fixed_window.go:74-129 | with separate clock readings before Get and before Set, no fixed window records more than max admissions in any such interleaving, iff k is zero, or k is one and the store never forgets or skew is at most a window and a second |
| Turns.ExpiryOverrunsTheFixedLimit | internal/limiter/fixed_window.go:120-124 | one call at a time, whose reading lies in a full window that has expired by its Get: that window records max + 1 |
| Turns.TurnsAreSerial | internal/limiter/sliding_window.go:72-125 | when calls take turns and read their clocks after the Set before, what is on record is what a sequential run of whole calls admits |
| Turns.FreshReadingsKeepTheLimit | internal/limiter/sliding_window.go:72-125 | calls that take turns and read their clocks after the Set before keep the limit in every window, with readings up to a second and a nanosecond older than the Get |
| Turns.ExpiryOverrunsTheLimit | internal/limiter/sliding_window.go:122 | the same with a reading so old that the list has expired |
| Turns.OldReadingOverrunsTheLimit | internal/limiter/sliding_window.go:72-75 | one call at a time, but with a clock reading a nanosecond older than the Set before it: a run that puts max + 1 admissions into one window |
| Turns.TwoOverrunTheLimit | internal/limiter/sliding_window.go:75-122 | with two calls at a time, max - 1 calls in turn and two at once put max + 1 admissions into one window |
| Overlaps.OverlappingCallsAreAllAdmitted | internal/limiter/sliding_window.go:75-122 | with n calls in flight at once on a fresh key all n are admitted, whatever the limit |
| Overlaps.OverrunIsBinomial | internal/limiter/sliding_window.go:75-122 | of the interleavings at one instant on a fresh key with at most k calls in flight, none admits more than the binomial coefficient of max + k over k less one, and one admits that many |
| Storage.Store.Get | internal/storage/memory.go:142-157 | the value of a present, unexpired key; nothing otherwise |
| Storage.Store.Set | internal/storage/memory.go:160-171 | stores the value with its expiration under this key only |
| Storage.Store.Delete | internal/storage/memory.go:174-182 | removes the key from values and sorted sets |
| Storage.Store.RemoveExpiredKeys | internal/storage/memory.go:66-85 | leaves exactly the unexpired values and sets, in whatever order the maps are visited |
| Storage.Store.Increment | internal/storage/memory.go:88-112 | returns the scanned value plus one, wrapped to int64, and stores its decimal text |
| Storage.Store.IncrementBy | internal/storage/memory.go:115-139 | returns the scanned value plus the amount, wrapped to int64, and stores its decimal text |
| Storage.Store.ZAdd | internal/storage/memory.go:185-201 | sets the member's score and the set's expiration |
| Storage.Store.ZRemRangeByScore | internal/storage/memory.go:204-226 | removes exactly the members in range, and the set when it becomes empty |
| Storage.Store.ZCount | internal/storage/memory.go:229-251 | the number of members in range of an unexpired set, independent of the order of visits |
| Storage.Store.Expire | internal/storage/memory.go:254-269 | resets the expiration of what the key holds and nothing else |
| StoreHistory.SweepsAreInvisible | internal/storage/memory.go:66-85 | deleting all sweeps from a history changes no Get, and the swept store is the unexpired part of the unswept one |
| StoreHistory.GetFindsLastSet | internal/storage/memory.go:142-182 | after any history on any keys a Get finds the value last set and not deleted since, until its TTL is over, which Redis takes for "never" when it is zero; an empty string counts as missing |
| StoreHistory.SweepVisibleToCounters | internal/storage/memory.go:92-102 | a sweep changes what Increment sees exactly when it removes a counter that scans to something other than zero |
| StoreHistory.CounterIsExact | internal/storage/memory.go:88-139 | on an absent key every Increment or IncrementBy returns the exact running sum as an int64 holds it, and the text stored is its decimal form |
| StoreHistory.CounterIsExactAmongOthers | internal/storage/memory.go:88-139 | the same among calls on any keys, as long as nothing else writes the key and no sweep runs after its entry has expired |
| StoreHistory.CounterContinues | internal/storage/memory.go:92-126 | on a key that holds text the running sums start at the number it scans to, or at zero if it does not scan |
| SortedSets.RemovalPartitionsCount | internal/storage/memory.go:204-251 | removing a range splits the count of any range into what is still counted and what was removed; disjoint ranges and other keys are untouched |
| SortedSets.CountsLastScores | internal/storage/memory.go:185-251 | after any history of additions, removals, deletions, renewals and sweeps a range counts exactly the members whose last score, read off the history, lies in it, bounds included, up to the instant the set's last ZAdd or Expire names |
| SortedSets.AddedIsCounted | internal/storage/memory.go:185-251 | after any history a newly added member is counted by exactly the ranges that include its score, up to and including its TTL |
| SortedSets.RemovalTakesRange | internal/storage/memory.go:204-226 | after a removal a member is still there, with its score, iff its score lies below min or above max; the set's entry is gone iff no such member is left; other sets are untouched |
| SortedSets.SweepEndsExpiredSets | internal/storage/memory.go:185-201 | a ZAdd after expiry brings the expired members back unless a sweep came between |
| Decimal.ScanPrint | internal/storage/memory.go:97-107 | scanning the printed form of any int64 gives it back |
| Decimal.PrintIsCanonical | internal/storage/memory.go:105-107 | the printed form of an int64 is the only numeral without leading zeros that scans to it |
| Decimal.ScanReads | internal/storage/memory.go:97-103 | blanks, at most one sign and digits scan to the number they denote if it fits an int64, whatever follows |
| Decimal.ScannedHasForm | internal/storage/memory.go:97-103 | nothing else scans |
| Service.RateLimiter.Allow | internal/limiter/interface.go:12 | dispatches to the algorithm: one Allow on the cell under its own prefix |
| Service.RateLimiter.Reset | internal/limiter/interface.go:15 | dispatches to the algorithm: deletes the cell under its own prefix |
| Service.RateLimitService.GetConfig | internal/service/ratelimit.go:100-117 | the stored configuration, or why there is none |
| Service.RateLimitService.GetOrCreateLimiter | internal/service/ratelimit.go:121-153 | the cached limiter if there is one, else the one the configuration describes, which is then cached |
| Service.RateLimitService.SetConfig | internal/service/ratelimit.go:210-243 | the state and response of the pure operation |
| Service.RateLimitService.CheckLimit | internal/service/ratelimit.go:246-278 | the state and response of the pure operation |
| Service.RateLimitService.ResetLimit | internal/service/ratelimit.go:281-312 | the state and response of the pure operation |
| Service.RateLimitService.GetStatus | internal/service/ratelimit.go:315-341 | the response of the pure operation |
| ServiceRuns.StoreKeysAreDistinct | internal/service/constants.go:14-18 | the six prefixes are pairwise no prefix of one another: a store key tells what it holds and for which key |
| ServiceRuns.LimiterKeysAreDistinct | internal/service/ratelimit.go:205-207 | a limiter key tells key and algorithm apart even when the key contains colons |
| ServiceRuns.ServiceIsSafe | internal/service/ratelimit.go:63-312 | for configurations whose durations fit an int64: in every run everything stored is what its key says, every cached limiter is of the algorithm its key names with positive parameters, and nothing divides by zero, fails to parse or is unsupported |
| ServiceRuns.KeysDoNotInterfere | internal/service/ratelimit.go:194-341 | the responses to a key's operations are those of the run in which no other key is used |
| Service.ValidateConfig | internal/service/ratelimit.go:63-97 | no complaint iff the algorithm is known and limit, window and, for the token bucket, refill are positive |
| ServiceResponses.WrongConfigsAreRefused | internal/service/ratelimit.go:63-97 | in every state a configuration with a wrong field is refused, whatever the store does, for the first field that is wrong in the order algorithm, limit, window, refill rate, refill interval, and nothing changes |
| ServiceResponses.AcceptableConfigsAreStored | internal/service/ratelimit.go:210-243 | any other is stored with its metadata as far as the store lets it; the answer is success iff both writes succeed, a store failure otherwise; limiters and all other entries are untouched |
| ServiceResponses.RefusalsLeaveNoTrace | internal/service/ratelimit.go:211-213 | deleting every refused configuration from a history changes neither the state at its end nor any other response |
| ServiceResponses.UnconfiguredIsNotFound | internal/service/ratelimit.go:100-117 | a check, reset or status query that finds no configuration in the store answers "not found" and changes nothing, and answers with the failure when the store fails or the document does not parse; it answers "not found" in no other case |
| ServiceResponses.LastConfigIsInForce | internal/service/ratelimit.go:210-341 | on a store that keeps configurations, after any history on any keys, a check, reset or status query is answered "not found" iff the configuration last accepted for its key has been reset or there was none, and the status reports that configuration |
| ServiceResponses.NeverSetIsNotFound | internal/service/ratelimit.go:246-251 | on any store, in every run from nothing, a key never configured successfully is always answered "not found", or with the store's failure |
| ServiceResponses.StrangeConfigsAreReported | internal/service/ratelimit.go:121-153 | a stored configuration that SetConfig would have refused: an unknown algorithm is reported and changes nothing; checks and status queries divide by zero for a zero window, resets only where no limiter is cached, and checks of a cached bucket also for a zero interval once the Get succeeds |
| ServiceResponses.StatusTellsMetadata | internal/service/ratelimit.go:315-341 | after a configuration the status tells the second it was made if the metadata was written, else that of the metadata found, else the current one |
| ServiceRuns.ConfigIsReadBack | internal/service/ratelimit.go:210-243 | a stored configuration is found and reported at any later instant, except under MemoryStore, where only at the same one |
| ServiceRuns.LimitersAreForever | internal/service/ratelimit.go:122-124 | a cached limiter is never replaced, in any run |
| ServiceRuns.FirstConfigGoverns | internal/service/ratelimit.go:121-153 | from nothing: configured, checked or reset, anything, then configured anew under the same algorithm, a key still uses the limiter of the first configuration, which is the one the newer describes iff they agree in limit and window (token bucket: limit and refill) |
| ServiceRuns.RaisedLimitIsIgnored | internal/service/ratelimit.go:121-124 | under every algorithm and store, raising a limit of one to two after the first check leaves the second denied, though the raised one alone would allow it |
| ServiceRuns.ResetUndoes | internal/service/ratelimit.go:281-312 | a reset removes this key's configuration, metadata and current algorithm's state, as far as the store's deletes succeed, and no other entry under any prefix |
| ServiceRuns.ChecksAreLimiterRun | internal/service/ratelimit.go:246-278 | the checks of a configured key are a run of its limiter on its cell; status queries and checks that cannot read the configuration leave it alone |
| ServiceRuns.ConfiguredKeyRunsItsLimiter | internal/service/ratelimit.go:210-278 | on a store that keeps configurations, a configured key's checks are answered by the algorithm from an empty cell, whatever happens to other keys and however often its status is asked |
| ServiceRuns.SlidingWindowKeepsItsLimit | internal/service/ratelimit.go:138-139 | end to end, on such a store: of a sliding-window key's checks in any window length at most limit are allowed, plus those whose store access failed |
| ConfiguredLimits.ConfiguredLimitsAreKept | internal/service/ratelimit.go:121-153 | end to end, on such a store and whatever happens to other keys: of the checks after a configuration the first limit at one instant are allowed, and of limit more exactly as many as its fields say: none within window_seconds and then all (windows), elapsed times refill_rate by refill_interval (token bucket), limit / window_seconds or else one per whole window (leaky bucket), all once a bucket is forgotten |
| ConfiguredLimits.OneIntervalLater | internal/service/ratelimit.go:126-145 | one window or refill interval later these are: the limit under the windows, refill_rate tokens, one window's leak; or the limit for an interval of more than a day on a store that forgets |
| Cleanups.CleanupsAreInvisible | internal/storage/memory.go:45-85 | deleting all cleanups from a run of operations on any keys changes no other response, when the operations come in order of time |
| Int64.NoOverflow | internal/limiter/leaky_bucket.go:102-110 | for limits up to 10^14, windows and refill intervals below 2^31 seconds, clocks below 2^62 and calls of at most an hour, every intermediate result of every run is an int64, the durations included |
| Int64.WrapsToZero | internal/service/ratelimit.go:126 | a number of seconds becomes a zero duration iff it is a multiple of 2^55 |
| Int64.LeakyCheckIsDefined | internal/service/ratelimit.go:126-145 | an accepted leaky-bucket configuration divides by zero on its first check iff its window is such a multiple |

## Left out

- HTTP and gRPC transports, handlers, health checks, configuration loading, logging, `Close` and `Ping`: plumbing.
- The Redis client: only the contract of Get, Set, Delete and TTL is modelled, with failures that have no effect; its expiry is taken to the nanosecond, and its counters and sorted sets are not modelled.
- JSON: a stored document is the value it decodes to, and a string that does not decode is one unreadable value; another document under a limiter's key, which Go would decode to zero fields, is not modelled (`ServiceRuns.ServiceIsSafe` shows that the service never stores one).
- Rounding of float64 token counts and scores, NaN and infinities: both are reals; a token bucket with a zero refill interval is outside the model.
- Clocks that run backwards: the steps cover them, the run theorems do not.
- CalculateRemaining beyond the limit-or-zero it returns, CalculateResetAt and CalculateRetryAfter: epoch-aligned estimates unrelated to the algorithms; only that their division is defined is modelled.
- Concurrent changes to the service's limiter map, which Go leaves unsynchronised.
- Overlaps.OverrunIsBinomial: is about one instant; how far overlapping calls overrun the limit across moving time is not bounded.
- LeakyBuckets.ExpiryIsTransparent: is exact for stalls below the interval; for longer ones `ForgettingIsHarmless` gives a sufficient condition.
- LeakyBuckets.AgreementIsExact: over an expiring store leaves out calls more than a day apart.
- TokenBuckets.BurstBound: asks for a store that remembers the bucket, because without that the bound is false (`SecondBurstGranted`); the same holds for LeakyBuckets.RateBound.
- TokenBuckets.DeniedCallsLeaveNoTrace: says nothing of later levels where only steady traffic keeps the state, because a deleted call no longer renews its expiration.
- Service.RateLimitService.CheckLimit: leaves ResetAt and RetryAfter out of the response, and Service.RateLimitService.GetStatus leaves out NextReset: the estimates named above.
- ServiceRuns.ServiceIsSafe: asks that accepted durations fit an int64, because beyond that it is false (`LeakyCheckIsDefined`).
- ServiceRuns.ConfiguredKeyRunsItsLimiter: leaves out MemoryStore, whose clock outruns the configuration at once, and runs in which the key itself is reset or configured again, for which `ResetUndoes` and `FirstConfigGoverns` say what one such operation does; the same holds for ServiceRuns.SlidingWindowKeepsItsLimit.
- ServiceResponses.LastConfigIsInForce: leaves out MemoryStore for the same reason; `NeverSetIsNotFound` includes it.
- ConfiguredLimits.ConfiguredLimitsAreKept: is about two bursts of working checks with no cleanup between (`CleanupsAreInvisible` covers those); `ConfiguredKeyRunsItsLimiter` covers other runs.
- Decimal: of the blanks Sscanf skips only space and tab are modelled.

# Multi-period rate limiter: the counting and decision core

This project models the core of the `amineware/rate-limiter` Laravel package in Dafny and proves properties about it. The package has two parts:

- **The `MultiPeriodRateLimiter` middleware.** It keeps three fixed-window counters for each client identity: minute, hour and day. It checks them in the order minute, hour, day. The first counter whose window already holds its limit denies the request, with status 429 and a retry delay, and no counter is touched. Otherwise it hits all three counters and reports the quota left in each period.
- **The `RateLimiterManager`.** It builds the counter key for a (period, identity) pair. It offers `remaining`, `tooManyAttempts`, `attempts`, `hit` and `clear` on that pair.

Both parts sit on the framework's `RateLimiter` facade, a counter store. Here that store is a pure value (`Counters.Store`): a map from key to `(count, expiresAt)` plus the store's clock `now`. A record is live while `now < expiresAt`. `attempts` reads 0 for an absent or expired key. `hit` opens a window `(1, now + decay)` on a key with no live record; otherwise it adds one and keeps the expiry. `clear` deletes the key. `tooManyAttempts` holds when the live count reaches the maximum and the window is open. `availableIn` gives the seconds left until the window closes.

The middleware's counter windows are a parameter of `Handle`:

- `AsWrittenTtls` is what the code does. Each of the three hits passes no decay, so each gets the store's default of 60 seconds.
- `PeriodTtls` gives windows of 60, 3600 and 86400 seconds, matching the periods.

The package's own text intends windows as long as the periods. The service provider's hour limiter is commented as a 60-minute decay (src/RateLimiterServiceProvider.php:64), and its day limiter uses `Limit::perDay` (src/RateLimiterServiceProvider.php:75). The middleware's code gives every counter 60 seconds. This model follows the code and records the gap under "Findings".

For a period it does not know, `getLimiterKey` falls back to the minute prefix. The model keeps that behaviour (`RateLimiterManager.UnknownPeriodAliasesMinute`).

Modules:

| file | module | models |
|---|---|---|
| `wrappers.dfy` | `Wrappers` | `Option` |
| `settings.dfy` | `Settings` | the `rate-limiter.limits` configuration and its lookup with a fallback |
| `counters.dfy` | `Counters` | the counter store behind the `RateLimiter` facade |
| `text.dfy` | `Text` | decimal rendering of integers in the denial message |
| `manager.dfy` | `RateLimiterManager` | `src/RateLimiterManager.php` |
| `middleware.dfy` | `MultiPeriodRateLimiter` | `src/Middleware/MultiPeriodRateLimiter.php` |
| `requests.dfy` | `RequestRuns` | runs of consecutive requests, the scenarios of `tests/RateLimiterTest.php`, and the effect of the counters' windows |

## Model

| member | source | states |
|---|---|---|
| `Counters.Attempts` | src/Middleware/MultiPeriodRateLimiter.php:128 | A nonzero count comes from an open window and is that record's count. On a valid store the count is never negative, and positive exactly when the window is open. |
| `Counters.TooManyAttempts` | src/Middleware/MultiPeriodRateLimiter.php:124 | For a maximum of at least 1 it holds exactly when the live count reaches the maximum. On a valid store, for a maximum below 1 it holds exactly when the window is open. |
| `Counters.AvailableIn` | src/Middleware/MultiPeriodRateLimiter.php:52 | The wait is never negative. For a live counter it is positive and ends exactly when the window closes. It is 0 when there is no open window. |
| `Counters.Hit` | src/RateLimiterManager.php:62 | A hit on a key with no live record opens a window of `decaySeconds` with count 1. A hit on a live key adds one and keeps its expiry. The clock and every other key are unchanged, and counts stay at least 1. |
| `Counters.Clear` | src/RateLimiterManager.php:70 | After a clear the key has no record and reads 0 attempts. Every other key and the clock are unchanged. |
| `Counters.ExpiryResets` | src/RateLimiterManager.php:62 | Once the clock reaches a record's expiry the key reads 0. The next hit opens a fresh window of count 1 from the new instant. |
| `Counters.HitKeepsExpiresWithin` | src/Middleware/MultiPeriodRateLimiter.php:59-61 | Hits whose decay is at most `horizon` keep every window closing within `horizon` seconds of the clock. |
| `Counters.AvailableInWithin` | src/Middleware/MultiPeriodRateLimiter.php:52 | When every window closes within `horizon`, the reported wait is at most `horizon`. |
| `Text.ParseDecimalInvertsDecimal` | src/Middleware/MultiPeriodRateLimiter.php:143 | Reading the decimal text of `n` back gives `n`. |
| `Text.IntToString` | src/Middleware/MultiPeriodRateLimiter.php:143 | The text is canonical decimal: digits only (after a `-` for a negative integer) with no leading zero. It reads back to the integer, or to its magnitude after the sign. |
| `Text.IntToStringInjective` | src/Middleware/MultiPeriodRateLimiter.php:143 | Distinct integers render to distinct text. |
| `RateLimiterManager.GetLimiterKey` | src/RateLimiterManager.php:76-82 | The keys of minute, hour and day are `throttle-minute:key`, `throttle-hour:hour:key` and `throttle-day:day:key`. An unknown period gets `throttle-minute:period:key`. |
| `RateLimiterManager.LimiterKeyInjective` | src/RateLimiterManager.php:14-18 | Two (known period, identity) pairs with the same key are the same pair. |
| `RateLimiterManager.UnknownPeriodAliasesMinute` | src/RateLimiterManager.php:78-79 | An unknown period's counter is the minute counter of the identity `period:key`. |
| `RateLimiterManager.Remaining` | src/RateLimiterManager.php:23-33 | For a maximum of at least 0 (60 when none is configured), the result is 0 once the live count reaches the maximum and the maximum less the count otherwise. On a valid store it lies in [0, max]. |
| `RateLimiterManager.TooManyAttempts` | src/RateLimiterManager.php:38-41 | It holds only when the pair's window is open. For a maximum of at least 1, a live count that reaches the maximum makes it hold. |
| `RateLimiterManager.TooManyAttemptsIffAtLimit` | src/RateLimiterManager.php:38-41 | For every maximum of at least 1, `tooManyAttempts` holds exactly when the pair's live count reaches it. |
| `RateLimiterManager.Attempts` | src/RateLimiterManager.php:46-49 | On a valid store the count is never negative. It is positive exactly when the pair's window is open. |
| `RateLimiterManager.Hit` | src/RateLimiterManager.php:54-63 | When the pair's window is still open, or `decaySeconds` is positive, its count goes up by one. A new window lasts `decaySeconds` whatever the period. No other key changes. |
| `RateLimiterManager.HitIsolated` | src/RateLimiterManager.php:54-63 | Hitting one (known period, identity) pair leaves every other pair's count unchanged. |
| `RateLimiterManager.Clear` | src/RateLimiterManager.php:68-71 | Afterwards the pair reads 0 attempts. Every other key is unchanged. |
| `RateLimiterManager.ClearIdempotentAndIsolated` | src/RateLimiterManager.php:68-71 | Clearing twice is clearing once. Clearing one pair leaves every other pair's count unchanged. |
| `RateLimiterManager.HitIgnoresDecayMinutes` | src/RateLimiterManager.php:56-62 | The day's decay is 1440 minutes. Even so, a first default `hit` on the day counter is forgotten 60 seconds later. |
| `RateLimiterManager.HitForPeriod` | src/RateLimiterManager.php:56-62 | With the period's own decay, a hit counts one more and opens a window of `decayMinutes * 60` seconds. |
| `RateLimiterManager.HitForPeriodSpansWindow` | src/RateLimiterManager.php:56-62 | With the period's own decay, a first hit still counts at every instant of that period's window and is forgotten once the window has passed. |
| `MultiPeriodRateLimiter.CounterKey` | src/Middleware/MultiPeriodRateLimiter.php:37-39 | The minute, hour and day counters of an identity are `throttle-minute:id`, `throttle-hour:hour:id` and `throttle-day:day:id`. |
| `MultiPeriodRateLimiter.RemainingAll` | src/Middleware/MultiPeriodRateLimiter.php:72-74 | Each period's report is `getRemainingAttempts` on that period's key and limit. On a valid store, every period with a limit of at least 0 reports a figure between 0 and its limit. |
| `MultiPeriodRateLimiter.CounterKeyIsManagerKey` | src/Middleware/MultiPeriodRateLimiter.php:51 | The middleware's key for each period is the manager's key for that period's name. |
| `MultiPeriodRateLimiter.CounterKeyInjective` | src/Middleware/MultiPeriodRateLimiter.php:18-22 | No two (period, identity) pairs share a counter. |
| `MultiPeriodRateLimiter.CounterKeyDistinct` | src/Middleware/MultiPeriodRateLimiter.php:37-39 | The three counters of one identity are pairwise distinct. |
| `MultiPeriodRateLimiter.HitIsolatesPeriods` | src/Middleware/MultiPeriodRateLimiter.php:59-61 | Hitting one period's counter never changes another period's count for the same identity. |
| `MultiPeriodRateLimiter.GetRemainingAttempts` | src/Middleware/MultiPeriodRateLimiter.php:122-129 | For a maximum of at least 0, the result is 0 once attempts reach it and the maximum less attempts otherwise. With attempts at least 0 it lies in [0, max]. |
| `MultiPeriodRateLimiter.FirstViolation` | src/Middleware/MultiPeriodRateLimiter.php:47-56 | The check loop over the `tooManyAttempts` answers in the order minute, hour, day returns the first position whose counter is full. Every position before it has room. `None` means every counter has room. |
| `MultiPeriodRateLimiter.HitAll` | src/Middleware/MultiPeriodRateLimiter.php:59-61 | Each of the identity's three counters goes up by exactly one. A live window keeps its expiry. A new window lasts that period's TTL. Every other key is unchanged. |
| `MultiPeriodRateLimiter.RetryDelay` | src/Middleware/MultiPeriodRateLimiter.php:143 | Waits of at most 60 seconds are stated in seconds. Longer waits are stated as the ceiling of seconds/60 in minutes: never short of the real wait and less than a minute over it. |
| `MultiPeriodRateLimiter.RetryMessage` | src/Middleware/MultiPeriodRateLimiter.php:141-145 | The message opens with "Too many attempts. Please try again in " and ends with the period name and a full stop. |
| `MultiPeriodRateLimiter.RetryMessageDeterminesDelay` | src/Middleware/MultiPeriodRateLimiter.php:141-145 | For one period, equal messages mean equal stated waits. |
| `MultiPeriodRateLimiter.BuildTooManyAttemptsResponse` | src/Middleware/MultiPeriodRateLimiter.php:139-151 | Status 429, Retry-After equal to the seconds, reset at now plus the seconds. The message opens with "Too many attempts", ends with the period, and states the wait in the unit `RetryDelay` picks for those seconds. |
| `MultiPeriodRateLimiter.TwoMinuteWaitInMinutes` | src/Middleware/MultiPeriodRateLimiter.php:141-145 | A 120-second wait is stated as "2 minutes". |
| `MultiPeriodRateLimiter.SixtySecondWaitInSeconds` | src/Middleware/MultiPeriodRateLimiter.php:141-145 | A 60-second wait is stated as "60 seconds". |
| `MultiPeriodRateLimiter.Handle` | src/Middleware/MultiPeriodRateLimiter.php:31-76 | A request is denied exactly when some period has no room left, and a denial leaves the store exactly as it was. An allowed request reports the configured limits, and its store is the three-counter hit. |
| `MultiPeriodRateLimiter.RoomAllows` | src/Middleware/MultiPeriodRateLimiter.php:58-75 | With room in every period the request is allowed. All three counters are hit and the report is read after the hits. |
| `MultiPeriodRateLimiter.DenialNamesFirstViolation` | src/Middleware/MultiPeriodRateLimiter.php:47-55 | A denial names a full period, and no period before it in the order minute, hour, day is full. Retry-After is that period's positive remaining wait, and the reset is now plus that wait. |
| `MultiPeriodRateLimiter.RemainingAfterHit` | src/Middleware/MultiPeriodRateLimiter.php:72-74 | After the hits, a period that found `n` live hits reports its limit less `n + 1`, clamped at 0. |
| `MultiPeriodRateLimiter.AllowedReportsRemaining` | src/Middleware/MultiPeriodRateLimiter.php:59-75 | An allowed request reports, per period, the limit less the hits in the window including this one, clamped at 0. |
| `Counters.AtLaterKeepsExpiresWithin` | src/Middleware/MultiPeriodRateLimiter.php:51-52 | Moving the clock forward keeps every window within the horizon. |
| `MultiPeriodRateLimiter.HandleKeepsExpiresWithin` | src/Middleware/MultiPeriodRateLimiter.php:47-61 | When no period's window is longer than `horizon`, a request keeps every window of the store within `horizon` seconds of the clock. |
| `MultiPeriodRateLimiter.DenialWaitWithin` | src/Middleware/MultiPeriodRateLimiter.php:51-54 | On such a store a denial's Retry-After is positive and at most `horizon`. |
| `MultiPeriodRateLimiter.AsWrittenDenialsStateSeconds` | src/Middleware/MultiPeriodRateLimiter.php:59-61 | With the code's 60-second windows, a store kept within 60 seconds stays so, and every denial states its wait in seconds. The minutes form of the message (line 143) is never used for the middleware's own counters. |
| `RequestRuns.HitAllExtendsRun` | src/Middleware/MultiPeriodRateLimiter.php:59-61 | Hitting counters that hold `n` hits in windows opened at `start` leaves `n + 1` hits in the same windows. |
| `RequestRuns.ReportAfterRunHit` | src/Middleware/MultiPeriodRateLimiter.php:72-74 | After one more hit on counters holding `n` hits below every limit, each period reports its limit less `n + 1`. |
| `RequestRuns.AllowedStep` | src/Middleware/MultiPeriodRateLimiter.php:47-75 | A request that finds `n` hits below every limit is allowed, reports each limit less `n + 1`, and hits the three counters. |
| `RequestRuns.FullWindowDenies` | src/Middleware/MultiPeriodRateLimiter.php:47-55 | Counters holding the smallest limit's worth of hits, in windows opened at `start`, deny on the strictest period. Retry-After is the time left until that period's window closes, the reset is that closing instant, and the store is unchanged. |
| `RequestRuns.AllowedExtendsRun` | src/Middleware/MultiPeriodRateLimiter.php:47-75 | An allowed request extends the run by one hit in the same windows and leaves every key outside the identity's counters alone. |
| `RequestRuns.RunStateAtLater` | src/Middleware/MultiPeriodRateLimiter.php:51 | A run's counts and windows read the same at any later instant before its windows close. |
| `RequestRuns.StepWithinQuota` | src/Middleware/MultiPeriodRateLimiter.php:47-75 | A request below the smallest limit, arriving before any window closes, is allowed with each limit less the hits including it, and the run grows by one. |
| `RequestRuns.StepPastQuota` | src/Middleware/MultiPeriodRateLimiter.php:47-55 | A request once the smallest limit is used up, arriving before any window closes, is denied on the strictest period until its window closes, and the counters stay put. |
| `RequestRuns.ExtendRun` | src/Middleware/MultiPeriodRateLimiter.php:31-76 | Answering the next request with the middleware, on the store the previous request left, extends a run by one outcome. |
| `RequestRuns.RunStep` | src/Middleware/MultiPeriodRateLimiter.php:31-76 | The middleware's answer to the (i+1)-th request of a run, at any instant before the shortest window closes, is the expected decision. The counters advance by one while quota lasts and stay put afterwards. Nothing else changes. |
| `RequestRuns.RunFollowsExpected` | src/Middleware/MultiPeriodRateLimiter.php:31-76 | In a run of middleware outcomes from fresh counters, the first `k` decisions are the expected ones. After them the counters hold one hit per allowed request, and no key outside the identity's counters has changed. |
| `RequestRuns.Serve` | src/Middleware/MultiPeriodRateLimiter.php:31-76 | The outcomes are the middleware's own answers to consecutive requests, each seeing the store the previous one left. The requests come from fresh counters at nondecreasing instants, all within the shortest window that the first request opens. The j-th allowed one reports each limit less j. Once the smallest limit is used up, every further request is denied on the strictest period, retrying when that window closes, and consumes nothing. Keys outside the identity's counters never change. |
| `RequestRuns.FirstRequestReports` | tests/RateLimiterTest.php:46-51 | Under limits 10/100/1000 the first request reports 9, 99 and 999 left. |
| `RequestRuns.SecondRequestReports` | tests/RateLimiterTest.php:72-74 | The second request reports 8 left in the minute (98 and 998 in the hour and day). |
| `RequestRuns.HitTimes` | tests/RateLimiterTest.php:86-88 | `k` default hits on one key add `k` to its count, open a 60-second window on a key with none, and change no other key. |
| `RequestRuns.TestExhaustsUnreadKey` | tests/RateLimiterTest.php:86-96 | Ten hits on `amineware-minute:127.0.0.1` leave the middleware's counters fresh, so the request the test expects to be refused is allowed with 9 left. |
| `RequestRuns.ExhaustedMinuteDenies` | tests/RateLimiterTest.php:86-99 | Ten hits on the middleware's own minute key deny on the minute, retry after 60 seconds, and reset at now + 60. The store is unchanged, and the response has status 429 and a message opening with "Too many attempts". |
| `RequestRuns.ZeroLimitAdmitsFirst` | config/rate-limiter.php:17 | With a minute limit of 0, the first request on fresh counters is still allowed, reporting 0, 99 and 999 left. Only the second is denied on the minute, retrying after 60 seconds. |
| `RequestRuns.AsWrittenHourCounterForgets` | src/Middleware/MultiPeriodRateLimiter.php:59-61 | With the 60-second windows of the code, a request a minute after any run reports every limit less one, as if the run had never happened. |
| `RequestRuns.PeriodTtlsRemember` | src/Middleware/MultiPeriodRateLimiter.php:59-61 | With windows as long as their periods, a request between one minute and one hour after a run of `n` reports the minute limit less 1 and the hour and day limits less `n + 1`. |

## Left out

- The HTTP layer is not modelled: `Request`, `Response`, the JSON body, the call to `$next`, and the setting of headers (`addHeaders`). The report the headers carry is kept in `Decision.Allowed`.
- How the identity is derived (`$request->user()?->id ?: $request->ip()`). The identity is an opaque string parameter.
- The real cache backend is not modelled. Laravel stores a count and a timer as two cache entries, each with its own TTL; the model keeps them as one record. Increments are not atomic under concurrency, and that is not modelled either. The wall clock is the store's explicit `now`.
- Laravel's key cleaning is not modelled; keys are used as given. The facade HTML-escapes a key and then collapses every `&xxx;` entity to its first letter. That map is not injective: identities `é` and `e` both reach `throttle-minute:e`, and `a&b` and `aab` collide. So `RateLimiterManager.LimiterKeyInjective` and `MultiPeriodRateLimiter.CounterKeyInjective`, and the isolation lemmas built on them, hold for keys before cleaning only.
- Counters.TooManyAttempts: when the count reaches the maximum but the timer has gone, the facade also deletes the count. The model only reads such a count as 0.
- MultiPeriodRateLimiter.GetRemainingAttempts: the contract says nothing for a negative maximum. The computation follows the code in that case too.
- RateLimiterManager.Remaining: for a negative configured maximum the contract gives no closed form. The computation follows the code.
- RequestRuns.Serve: every limit must be at least 1, since a limit of 0 still admits the first request of each window (`RequestRuns.ZeroLimitAdmitsFirst`). `RequestRuns.RunStep`, `RequestRuns.RunFollowsExpected`, `RequestRuns.StepPastQuota` and `RequestRuns.FullWindowDenies` carry the same bound. The run ends before the shortest window closes. Requests that span a window boundary are covered one at a time, by `Counters.ExpiryResets` and `RequestRuns.AsWrittenHourCounterForgets`, not as one run.
- RateLimiterManager.TooManyAttemptsIffAtLimit: the plain "count reaches max" equivalence is proved only for maxima of at least 1. For maxima of 0 or less, the open window also matters.
- Integers are unbounded. PHP's 64-bit integer overflow, and the float that `ceil` returns, are not modelled.
- The configuration file's `env(...)` lookups and header-name maps are not modelled. Only the default limits 60/1000/10000 are kept, as constants.
- `src/RateLimiterServiceProvider.php` (its named `Limit` limiters) and the facade accessor are not modelled. The middleware never calls them.
- The return values of `RateLimiter::hit` and `RateLimiter::clear` are not used by the code, so they are not modelled.
- Errors from a store that is unavailable are not modelled.

## Findings

| source | as written | input that shows it | evidently intended | confidence | as-written member | corrected member |
|---|---|---|---|---|---|---|
| src/Middleware/MultiPeriodRateLimiter.php:59-61 | The three counters are hit without a decay, so each gets the 60-second default | A run of 10 requests at `t` under limits 10/100/1000, then one request at `t + 60`: it reports 99 left in the hour, not 89 | The hour and day windows last 3600 and 86400 seconds | not executed | `RequestRuns.AsWrittenHourCounterForgets` | `RequestRuns.PeriodTtlsRemember` |
| src/RateLimiterManager.php:56-62 | `$decayMinutes` is computed per period and never used; `hit` passes `decaySeconds` (default 60) | `hit("day", k)` at `t`, then `attempts("day", k)` at `t + 60` reads 0 | The window lasts the period's decay, 1440 minutes for a day | not executed | `RateLimiterManager.HitIgnoresDecayMinutes` | `RateLimiterManager.HitForPeriod` |
| tests/RateLimiterTest.php:86-96 | The test exhausts `amineware-minute:127.0.0.1`, a key the middleware never reads (its key is `throttle-minute:127.0.0.1`). Its setup likewise clears `amineware-*` keys | Ten hits on `amineware-minute:127.0.0.1`, then one request: it is allowed with 9 left, not refused with 429 | The test fills the middleware's own minute counter, and the request is refused | not executed | `RequestRuns.TestExhaustsUnreadKey` | `RequestRuns.ExhaustedMinuteDenies` |

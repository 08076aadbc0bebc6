# yoinker: a Dafny model of the flag-yoinking bot's decision core

The yoinker bot plays a capture-the-flag game. A stats task polls the game's scores and the
current flag holder, and keeps a rolling window of snapshots with the score gain ("diff")
across it. It forwards the window to the scheduler whenever the scores change. The scheduler
decides on each state whether to yoink the flag. It does nothing while we hold the flag. It
yoinks unconditionally once its impatience deadline has passed. Otherwise it asks a strategy.
After a yoink it sleeps for a cooldown, or until the rate-limit end the game reports.

This project models that core with the network, clocks, randomness and the async runtime
turned into parameters:

- `Utils` (src/utils.rs): `subtract_hashmaps`. It is a loop-based method, proved equal to a
  specification function. Lemmas give that function's properties: positive values only, keys
  drawn from the newer map, exact differences, `X - X = {}` and `X - {} = X` filtered to
  positive values.
- `AppState` (src/main.rs): `State<N>` as a class. Its `stats` field is the bounded window
  and its `diff` field the delta. The class invariant holds that the window never exceeds
  its capacity, that neighbouring snapshots differ in their scores, and that `diff` always
  equals newest minus oldest (or newest minus nothing, while one snapshot is held).
  `PushStats` is `push_stats`.
- `GameStats` and `StatsFeed` (src/stats.rs): the `Stats`/`StatsFlag` data. Also the flag
  overlay of `fetch_stats`, and `stats_to_state`, with the channel as an outbox. A state is
  sent exactly when the push changed it.
- `Iter`, `Strategy` and `Rng` (src/strategy/). `filter` + `max_by_key` take the hash map's
  iteration order as an input. `Strategy` holds the red shell, the blue shell and the
  mostly-nice strategy as one closed datatype with a single `Decide`. Random draws are raw
  inputs mapped into the source's ranges.
- `Sleep` (src/sleep.rs): the cancellable sleep as "the smaller of the duration and the time
  to cancellation", plus the three jitter ranges.
- `ParseInt` and `Yoinker` (src/yoinker.rs). `ParseInt` is `str::parse::<i64>`, proved to
  invert decimal formatting. `Yoinker` holds the rate-limit classification of `yoink_flag`,
  the initial deadline of `main_loop`, and one step of `main` as a method on a `Scheduler`
  class that owns `impatient_fire`.

Notable behaviour of the code, which the model follows:

- The rate-limit end that lies in the past is an error of that yoink. It does not fall back to
  the cooldown (src/yoinker.rs:145-157).
- The deadline moves only after a successful yoink, to exactly one cooldown after it, with no
  jitter (src/yoinker.rs:76, 85).
- Holding the flag returns at once, without a jittered sleep (src/yoinker.rs:59-63).
- The red shell ranks by diff and excludes us. The blue shell ranks by absolute time and
  excludes only `platform:farcaster`. Ties fall to the hash map's iteration order, not to a
  deterministic order.
- The mostly-nice threshold (six hours) and roll bound (75 of 0..100) are constants.
- The model gives every strategy the four-argument form the scheduler calls
  (src/yoinker.rs:77-78); mostly nice ignores the diff.

## Model

| member | source | states |
|---|---|---|
| `Utils.Positive` | src/utils.rs:71 | `retain(v > 0)`: the kept keys are exactly those with a positive value, unchanged |
| `Utils.Subtract` | src/utils.rs:56-74 | every value of the difference is strictly positive and its keys are among `newer`'s |
| `Utils.SubtractHashmaps` | src/utils.rs:56-74 | the clone-subtract-in-place-retain loop computes exactly `Subtract(newer, older)` |
| `Utils.SubtractShared` | src/utils.rs:63-66 | a key in both maps is present iff `older[k] < newer[k]`, holding `newer[k] - older[k]` |
| `Utils.SubtractFresh` | src/utils.rs:61-71 | a key only in `newer` passes through unchanged iff positive |
| `Utils.SubtractStale` | src/utils.rs:63-68 | a key only in `older` is never inserted |
| `Utils.SubtractSelf` | src/utils.rs:61-71 | `subtract(X, X)` is empty |
| `Utils.SubtractEmpty` | src/utils.rs:61-71 | `subtract(X, {})` is X filtered to positive values |
| `GameStats.FetchStats` | src/stats.rs:92-120 | succeeds iff both requests do; the stats request's error wins; the result has the fresh flag and the cached `user_times` and `users` |
| `AppState.PushBack` | src/main.rs:55 | the buffer grows by one until full, then keeps the last `capacity` elements of the old contents followed by the new snapshot |
| `AppState.WindowDiff` | src/main.rs:57-71 | the stored diff has only positive values, on keys of the newest snapshot |
| `AppState.State.constructor` | src/main.rs:39-43 | the default state: empty window, empty diff, a capacity of at least one |
| `AppState.State.Value` | src/stats.rs:79 | the cloned state carries the window and diff as they are |
| `AppState.State.PushStats` | src/main.rs:46-75 | returns true iff the window was empty or its newest `user_times` differ (the flag is ignored); pushes exactly then, evicting the oldest when full; otherwise window and diff are unchanged; keeps the invariant that the diff spans the window |
| `AppState.PushKeepsInvariant` | src/main.rs:47-55 | a change pushed into the window leaves no two neighbours with equal scores, puts the new snapshot at the back, and keeps newest-over-oldest scores ordered |
| `AppState.FirstPushDiff` | src/main.rs:59-64 | with one snapshot, the diff is its positive scores, as if subtracted from an empty map |
| `AppState.RepeatPushIgnored` | src/main.rs:47-54 | after a push, a snapshot with the same scores is not a change, whatever its flag |
| `AppState.DiffSpansWindow` | src/main.rs:65-70 | with two or more snapshots, the diff is newest minus oldest |
| `StatsFeed.Channel.constructor` | src/main.rs:109 | a fresh channel has sent nothing and its receiver is alive |
| `StatsFeed.Channel.Send` | src/stats.rs:83 | `send` appends the value iff the receiver is alive, and fails otherwise |
| `StatsFeed.StatsToState` | src/stats.rs:64-89 | a failed fetch pushes and sends nothing; otherwise the snapshot is pushed, and the post-push state is sent exactly when the push changed it |
| `Rng.GenerateRange` | src/sleep.rs:23 | an inclusive ranged draw lies in `[lo, hi]` |
| `Rng.GenerateRangeBelow` | src/strategy/mostly_nice.rs:40 | a half-open ranged draw lies in `[lo, hi)` |
| `Rng.GenerateRangeReaches` | src/sleep.rs:23 | every value of the range is some draw's outcome |
| `Sleep.SleepWithCancel` | src/sleep.rs:10-15 | never longer than asked or than the time to cancellation, and equal to one of them |
| `Sleep.ShortJitterMs` | src/sleep.rs:17-28 | within `[0, COOLDOWN_TIME/10]` = `[0, 60000]` ms |
| `Sleep.LongJitterMs` | src/sleep.rs:30-39 | within `[0, COOLDOWN_TIME/2]` = `[0, 300000]` ms |
| `Sleep.CooldownJitterMs` | src/sleep.rs:53 | the cooldown sleep asks for `[600000, 660000]` ms |
| `Sleep.SleepShortJitter` | src/sleep.rs:41-44 | sleeps at most 60000 ms |
| `Sleep.SleepLongJitter` | src/sleep.rs:46-49 | sleeps at most 300000 ms |
| `Sleep.SleepCooldownJitter` | src/sleep.rs:51-54 | sleeps at most 660000 ms, and at least the cooldown when not cancelled |
| `Sleep.JitterCoversRanges` | src/sleep.rs:21-38 | every duration in the jitter ranges can be drawn |
| `Iter.MaxByKey` | src/strategy/red_shell.rs:23-30 | nothing iff every iterated key is filtered out; else a non-filtered key whose value is at least every other non-filtered key's |
| `Iter.MaxByKeyOfMap` | src/strategy/blue_shell.rs:23-29 | over the whole map: absent iff no key is eligible; a top eligible key; the unique top key whatever the iteration order |
| `Iter.MaxByKeyLastWins` | src/strategy/red_shell.rs:28 | when the last key iterated is eligible and ties the maximum, it is chosen |
| `Iter.MaxByKeyLastMaxWins` | src/strategy/red_shell.rs:28 | among equal maxima the one iterated last is chosen, whatever excluded or smaller keys follow it |
| `Strategy.Shell` | src/strategy/red_shell.rs:45-62 | fire iff the target holds the flag, after `[0, 1000]` ms; otherwise wait `[500, 2000]` ms |
| `Strategy.RedShellDecide` | src/strategy/red_shell.rs:16-63 | "someone in first" error iff the diff has no key but farcaster and self; "no target_time" only for a top key missing from `user_times`, and always when the unique top key, or every top key, is missing; yields true only if the holder is a top diff key, and always when the holder is the unique top; wait bounds |
| `Strategy.BlueShellDecide` | src/strategy/blue_shell.rs:16-53 | error iff `user_times` has no key but farcaster; true only if the holder has a top absolute time (self not excluded), and always when they are the unique top; wait bounds |
| `Strategy.MostlyNiceDecide` | src/strategy/mostly_nice.rs:11-66 | never errs; always yoinks when the holder has at least 21600 or at least our time; declines exactly when below both and the roll is at most 75; waits `[1000, 10000)` ms before declining, `[0, 3000]` ms before yoinking |
| `Strategy.Decide` | src/yoinker.rs:77-79 | each kind answers with its own strategy's decision (red shell, blue shell, mostly nice); only the shells err, with their two errors; any strategy fires within 3000 ms and declines after 500 to 10000 ms |
| `Strategy.BlueShellTargetsLeader` | src/strategy/blue_shell.rs:23-52 | scores `{A: 150, B: 50}`: true when A holds, false when B holds, for every iteration order |
| `ParseInt.ParseI64` | src/yoinker.rs:140 | accepts only an optional sign followed by digits; a negative value came with `-` |
| `ParseInt.ParseShowRoundTrip` | src/yoinker.rs:140 | every `i64` written in decimal parses back to itself |
| `Numeric.WrapI64` | src/yoinker.rs:143 | `i64` addition wraps modulo 2^64 and is exact in range |
| `Yoinker.FindQuery` | src/yoinker.rs:136 | the value of the first query pair with the key, or nothing iff no pair has it |
| `Yoinker.RateLimitDuration` | src/yoinker.rs:134-167 | other paths and a missing `date` give exactly COOLDOWN_TIME; a non-integer date errors; otherwise `d + 600000 - now` when positive and an error when `d + 600000 <= now`; an overflowing end errors for a clock at or after 1970; every duration is positive |
| `Yoinker.YoinkFlag` | src/yoinker.rs:95-172 | a failed request propagates its error; any success yields a positive sleep; a normal image sleeps the cooldown; every response is classified by the rate-limit rule (`RateLimitDuration`), so an unparsable or past rate-limit date is an error |
| `Yoinker.Scheduler.constructor` | src/yoinker.rs:26 | the first deadline is start + COOLDOWN_TIME/2 |
| `Yoinker.Scheduler.Step` | src/yoinker.rs:49-92 | for a monotonic clock (`now <= later`): "no stats" without a snapshot; no-op while we hold the flag; past the deadline, yoink without consulting the strategy; else yoink iff the red shell says so, propagating its error; the deadline becomes `later + COOLDOWN_TIME` exactly after a successful yoink and is unchanged otherwise, including when the yoink fails |

## Left out

- The process entry point in src/main.rs: configuration loading, logging setup, the ctrl+c handler, and task spawning and joining. `https_client` and `init_logging` are left out too. All of these are plumbing.
- `main_loop`'s nested receive loops and cancellation polling (src/yoinker.rs:28-42). The model covers one `main` step at a time, plus the initial deadline.
- `stats_loop`'s retry loop and its 500 ms backoff. Also the HTTP requests, status checks, JSON decoding and the moka cache with its five-minute TTL. Their outcomes are `Result` inputs.
- The POST and the response decoding in `yoink_flag`. The image URL's parsing and percent-decoding are left out as well. The path and decoded query pairs are inputs.
- Real time, randomness and the `select!` race. `Instant::now`, `Utc::now`, each RNG draw and the time until cancellation are parameters. How nanorand maps random bits into a range is not modelled, only the range.
- The strategies' sleeps are effects. Each decision reports the length it asked for. The time they, and `yoink_flag`'s sleep, take is folded into the clock parameter `later`.
- Logging everywhere; the stale three-argument `YoinkStrategy` trait in src/strategy/mod.rs.
- The ring buffer is a bounded sequence, not an array, and snapshots are values. The `Arc` sharing is not modelled.
- `Utils.SubtractHashmaps` requires that older scores never exceed newer ones on shared keys. In the source a larger older value underflows `u64 -=`: a debug build panics and a release build wraps. Scores in the game are cumulative.
- `AppState.State.PushStats` requires that the new snapshot's scores dominate every buffered one, for the same reason.
- `AppState.State.constructor` requires a capacity of at least one. With `N = 0` the source reaches `unimplemented!()` on the first push.
- `Yoinker.RateLimitDuration` wraps `last + 600000` as a release build does, which bails with an error that `main_loop` logs before carrying on (src/yoinker.rs:39). A debug build panics on that overflow instead; the panic escapes the awaited main loop (src/main.rs:126) and ends the process, which the model does not capture.
- Strings are sequences of characters. Rust's byte-level parsing of non-ASCII text is not modelled separately, since only ASCII digits and signs are accepted.

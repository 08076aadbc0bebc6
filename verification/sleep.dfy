/** src/sleep.rs: the cancellable sleep and the three jittered durations. */
module Sleep {
  import opened Wrappers
  import opened Rng
  import opened AppState

  /**
   * `sleep_with_cancel`: the time actually slept when the cancellation token fires
   * `cancelInMs` milliseconds from now (never, for `None`). It cannot fail.
   */
  function SleepWithCancel(durationMs: nat, cancelInMs: Option<nat>): (elapsed: nat)
    ensures elapsed <= durationMs
    ensures cancelInMs.Some? ==> elapsed <= cancelInMs.value
    ensures elapsed == durationMs || (cancelInMs.Some? && elapsed == cancelInMs.value)
  {
    match cancelInMs
    case None => durationMs
    case Some(c) => if c < durationMs then c else durationMs
  }

  /** `short_jitter`: up to a tenth of the cooldown. */
  function ShortJitterMs(raw: nat): (ms: nat)
    ensures ms <= 60_000
  {
    GenerateRange(raw, 0, COOLDOWN_MS / 10)
  }

  /** `long_jitter`: up to half the cooldown. */
  function LongJitterMs(raw: nat): (ms: nat)
    ensures ms <= 300_000
  {
    GenerateRange(raw, 0, COOLDOWN_MS / 2)
  }

  /** The duration `sleep_cooldown_jitter` asks for: the cooldown plus a short jitter. */
  function CooldownJitterMs(raw: nat): (ms: nat)
    ensures 600_000 <= ms <= 660_000
  {
    COOLDOWN_MS + ShortJitterMs(raw)
  }

  /** `sleep_short_jitter`. */
  function SleepShortJitter(raw: nat, cancelInMs: Option<nat>): (elapsed: nat)
    ensures elapsed <= 60_000
  {
    SleepWithCancel(ShortJitterMs(raw), cancelInMs)
  }

  /** `sleep_long_jitter`. */
  function SleepLongJitter(raw: nat, cancelInMs: Option<nat>): (elapsed: nat)
    ensures elapsed <= 300_000
  {
    SleepWithCancel(LongJitterMs(raw), cancelInMs)
  }

  /** `sleep_cooldown_jitter`: without cancellation it sleeps the whole cooldown and more. */
  function SleepCooldownJitter(raw: nat, cancelInMs: Option<nat>): (elapsed: nat)
    ensures elapsed <= 660_000
    ensures cancelInMs.None? ==> 600_000 <= elapsed
  {
    SleepWithCancel(CooldownJitterMs(raw), cancelInMs)
  }

  /** Every duration in the documented ranges is drawn by some raw value. */
  lemma JitterCoversRanges(short: nat, long: nat)
    requires short <= 60_000 && long <= 300_000
    ensures ShortJitterMs(short) == short
    ensures LongJitterMs(long) == long
    ensures CooldownJitterMs(short) == COOLDOWN_MS + short
  {
    GenerateRangeReaches(0, COOLDOWN_MS / 10, short);
    GenerateRangeReaches(0, COOLDOWN_MS / 2, long);
  }
}

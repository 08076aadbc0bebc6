/**
 * src/strategy/: the three yoink strategies as one closed datatype with a single `Decide`.
 * Each decision says whether to yoink and how long the strategy sleeps before answering.
 */
module Strategy {
  import opened Wrappers
  import opened Numeric
  import opened Errors
  import opened GameStats
  import opened Iter
  import opened Rng

  /** The pseudo-account that never counts as a competitor. */
  const FARCASTER: string := "platform:farcaster"

  /** `MostlyNiceStrategy`'s threshold: six hours of holding time. */
  const JERK_THRESHOLD: nat := 6 * 3600
  /** `MostlyNiceStrategy`'s roll bound: a roll at most this large spares a weaker holder. */
  const NICE_CHANCE: nat := 75

  datatype Kind = RedShell | BlueShell | MostlyNice

  /** The raw random draws a decision consumes, in the order it consumes them. */
  datatype Rolls = Rolls(first: nat, second: nat)

  /** `Ok(yoink)` of `should_yoink`, with the length of the sleep made just before returning it. */
  datatype Decision = Decision(yoink: bool, waitMs: nat)

  /** `user_times.get(id).copied().unwrap_or(0)`. */
  function TimeOf(stats: Stats, id: string): U64 {
    if id in stats.userTimes then stats.userTimes[id] else 0
  }

  /** Both shells: fire (after up to a second) iff `target` holds the flag, else hold off 0.5 to 2 s. */
  function Shell(stats: Stats, target: string, roll: nat): (d: Decision)
    ensures d.yoink <==> target == stats.flag.holderId
    ensures d.yoink ==> d.waitMs <= 1_000
    ensures !d.yoink ==> 500 <= d.waitMs <= 2_000
  {
    if target == stats.flag.holderId then Decision(true, GenerateRange(roll, 0, 1_000))
    else Decision(false, GenerateRange(roll, 500, 2_000))
  }

  /**
   * `RedShellStrategy`: target whoever gained the most recently (largest diff), other than
   * the pseudo-account and ourselves, and yoink iff the target holds the flag.
   */
  function RedShellDecide(selfId: string, stats: Stats, diff: map<string, U64>, diffOrder: seq<string>, rolls: Rolls)
    : (r: Result<Decision, Error>)
    requires Enumerates(diffOrder, diff)
    ensures r == Err(NoFirstPlace) <==> diff.Keys <= {FARCASTER, selfId}
    ensures r == Err(NoTargetTime) ==> exists k :: IsTop(diff, {FARCASTER, selfId}, k) && k !in stats.userTimes
    ensures r.Err? ==> r.error in {NoFirstPlace, NoTargetTime}
    // a target missing from `user_times` always errs: surely when it is the unique top key,
    // and whatever the iteration order when every top key is missing
    ensures forall k :: IsUniqueTop(diff, {FARCASTER, selfId}, k) && k !in stats.userTimes ==> r == Err(NoTargetTime)
    ensures !(diff.Keys <= {FARCASTER, selfId})
            && (forall k :: IsTop(diff, {FARCASTER, selfId}, k) ==> k !in stats.userTimes) ==>
              r == Err(NoTargetTime)
    ensures r.Ok? && r.value.yoink ==>
              IsTop(diff, {FARCASTER, selfId}, stats.flag.holderId) && stats.flag.holderId in stats.userTimes
    ensures IsUniqueTop(diff, {FARCASTER, selfId}, stats.flag.holderId) && stats.flag.holderId in stats.userTimes ==>
              r.Ok? && r.value.yoink
    ensures r.Ok? && r.value.yoink ==> r.value.waitMs <= 1_000
    ensures r.Ok? && !r.value.yoink ==> 500 <= r.value.waitMs <= 2_000
  {
    MaxByKeyOfMap(diffOrder, diff, {FARCASTER, selfId});
    match MaxByKey(diffOrder, diff, {FARCASTER, selfId})
    case None => Err(NoFirstPlace)
    case Some(target) =>
      if target !in stats.userTimes then Err(NoTargetTime)
      else Ok(Shell(stats, target, rolls.first))
  }

  /**
   * `BlueShellStrategy`: target the first-place user by total holding time (only the
   * pseudo-account is excluded, not ourselves) and yoink iff they hold the flag.
   * It reads neither our id nor the diff.
   */
  function BlueShellDecide(stats: Stats, timesOrder: seq<string>, rolls: Rolls): (r: Result<Decision, Error>)
    requires Enumerates(timesOrder, stats.userTimes)
    ensures r == Err(NoFirstPlace) <==> stats.userTimes.Keys <= {FARCASTER}
    ensures r.Err? ==> r.error == NoFirstPlace
    ensures r.Ok? && r.value.yoink ==> IsTop(stats.userTimes, {FARCASTER}, stats.flag.holderId)
    ensures IsUniqueTop(stats.userTimes, {FARCASTER}, stats.flag.holderId) ==> r.Ok? && r.value.yoink
    ensures r.Ok? && r.value.yoink ==> r.value.waitMs <= 1_000
    ensures r.Ok? && !r.value.yoink ==> 500 <= r.value.waitMs <= 2_000
  {
    MaxByKeyOfMap(timesOrder, stats.userTimes, {FARCASTER});
    match MaxByKey(timesOrder, stats.userTimes, {FARCASTER})
    case None => Err(NoFirstPlace)
    case Some(firstPlace) => Ok(Shell(stats, firstPlace, rolls.first))
  }

  /**
   * `MostlyNiceStrategy`: leave a holder with less than six hours and less time than us
   * alone on a roll of 0..=75 out of 0..100; otherwise yoink. Missing times count as 0.
   */
  function MostlyNiceDecide(selfId: string, stats: Stats, rolls: Rolls): (r: Result<Decision, Error>)
    ensures r.Ok?
    ensures TimeOf(stats, stats.flag.holderId) >= JERK_THRESHOLD ==> r.value.yoink
    ensures TimeOf(stats, stats.flag.holderId) >= TimeOf(stats, selfId) ==> r.value.yoink
    ensures !r.value.yoink <==>
              && TimeOf(stats, stats.flag.holderId) < JERK_THRESHOLD
              && TimeOf(stats, stats.flag.holderId) < TimeOf(stats, selfId)
              && GenerateRangeBelow(rolls.first, 0, 100) <= NICE_CHANCE
    ensures r.value.yoink ==> r.value.waitMs <= 3_000
    ensures !r.value.yoink ==> 1_000 <= r.value.waitMs < 10_000
  {
    var holderTime := TimeOf(stats, stats.flag.holderId);
    var myTime := TimeOf(stats, selfId);
    if holderTime < JERK_THRESHOLD && holderTime < myTime then
      var x := GenerateRangeBelow(rolls.first, 0, 100);
      if x <= NICE_CHANCE then Ok(Decision(false, GenerateRangeBelow(rolls.second, 1_000, 10_000)))
      // "being a jerk": the wait is the second draw
      else Ok(Decision(true, GenerateRange(rolls.second, 0, 3_000)))
    else
      Ok(Decision(true, GenerateRange(rolls.first, 0, 3_000)))
  }

  /** `should_yoink` of the chosen strategy, in the four-argument form the scheduler calls. */
  function Decide(kind: Kind, selfId: string, stats: Stats, diff: map<string, U64>,
                  diffOrder: seq<string>, timesOrder: seq<string>, rolls: Rolls): (r: Result<Decision, Error>)
    requires Enumerates(diffOrder, diff) && Enumerates(timesOrder, stats.userTimes)
    ensures kind == RedShell ==> r == RedShellDecide(selfId, stats, diff, diffOrder, rolls)
    ensures kind == BlueShell ==> r == BlueShellDecide(stats, timesOrder, rolls)
    ensures kind == MostlyNice ==> r == MostlyNiceDecide(selfId, stats, rolls)
    ensures r.Err? ==> kind != MostlyNice && r.error in {NoFirstPlace, NoTargetTime}
    ensures r.Ok? && r.value.yoink ==> r.value.waitMs <= 3_000
    ensures r.Ok? && !r.value.yoink ==> 500 <= r.value.waitMs < 10_000
  {
    match kind
    case RedShell => RedShellDecide(selfId, stats, diff, diffOrder, rolls)
    case BlueShell => BlueShellDecide(stats, timesOrder, rolls)
    case MostlyNice => MostlyNiceDecide(selfId, stats, rolls)
  }

  /** Scores {A: 150, B: 50}: the blue shell fires at A when A holds and waits when B holds. */
  lemma BlueShellTargetsLeader(order: seq<string>, rolls: Rolls, holderName: string, platform: string)
    requires Enumerates(order, map["A" := 150, "B" := 50])
    ensures BlueShellDecide(Stats(StatsFlag("A", holderName, platform), map["A" := 150, "B" := 50], map[]), order, rolls).value.yoink
    ensures !BlueShellDecide(Stats(StatsFlag("B", holderName, platform), map["A" := 150, "B" := 50], map[]), order, rolls).value.yoink
  {
    var times: map<string, U64> := map["A" := 150, "B" := 50];
    assert IsUniqueTop(times, {FARCASTER}, "A");
    MaxByKeyOfMap(order, times, {FARCASTER});
  }
}

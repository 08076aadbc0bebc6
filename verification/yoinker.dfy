/**
 * src/yoinker.rs: the rate-limit classification inside `yoink_flag`, and one step of the
 * scheduler (`main`) on the mutable `impatient_fire` deadline.
 */
module Yoinker {
  import opened Wrappers
  import opened Numeric
  import opened Errors
  import opened GameStats
  import opened AppState
  import opened Iter
  import opened Strategy
  import opened ParseInt

  /** The image path by which the game reports a rate limit. */
  const RATE_LIMIT_PATH: string := "/api/images/ratelimit"

  /** The strategy `main` uses. */
  const ACTIVE_STRATEGY: Kind := RedShell

  /** What `yoink_flag` reads of the action's response: the image URL's path and decoded query pairs. */
  datatype ActionResponse = ActionResponse(imagePath: string, imageQuery: seq<(string, string)>)

  /** `query_pairs().find(|(k, _)| k == key)`: the value of the first pair with that key. */
  function FindQuery(query: seq<(string, string)>, key: string): (r: Option<string>)
    ensures r.None? <==> forall i :: 0 <= i < |query| ==> query[i].0 != key
    ensures r.Some? ==> exists i :: 0 <= i < |query| && query[i] == (key, r.value)
                          && forall j :: 0 <= j < i ==> query[j].0 != key
  {
    if query == [] then None
    else if query[0].0 == key then Some(query[0].1)
    else
      var rest := FindQuery(query[1..], key);
      assert rest.Some? ==> exists i :: 1 <= i < |query| && query[i] == (key, rest.value)
                              && forall j :: 0 <= j < i ==> query[j].0 != key
      by {
        if rest.Some? {
          var i :| 0 <= i < |query[1..]| && query[1..][i] == (key, rest.value)
                    && forall j :: 0 <= j < i ==> query[1..][j].0 != key;
          assert query[i + 1] == (key, rest.value);
          forall j | 0 <= j < i + 1 ensures query[j].0 != key {
            if j > 0 { assert query[j] == query[1..][j - 1]; }
          }
        }
      }
      rest
  }

  /**
   * How long `yoink_flag` sleeps after the action, in ms, given the response image and the
   * wall clock `nowMs`. A rate-limit image carries in `date` the time of the last yoink; the
   * wait runs until a cooldown after it. `last + 600000` wraps as a release build's `i64` add.
   */
  function RateLimitDuration(path: string, query: seq<(string, string)>, nowMs: I64): (r: Result<nat, Error>)
    ensures r.Ok? ==> r.value > 0
    ensures path != RATE_LIMIT_PATH ==> r == Ok(COOLDOWN_MS)
    ensures FindQuery(query, "date").None? ==> r == Ok(COOLDOWN_MS)
    ensures path == RATE_LIMIT_PATH && FindQuery(query, "date").Some? ==>
              var date := FindQuery(query, "date").value;
              && (ParseI64(date).None? ==> r == Err(BadRateLimitDate(date)))
              && (ParseI64(date).Some? && ParseI64(date).value + COOLDOWN_MS <= I64_MAX ==>
                    var untilMs := ParseI64(date).value + COOLDOWN_MS;
                    && (untilMs > nowMs ==> r == Ok(untilMs - nowMs))
                    && (untilMs <= nowMs ==> r == Err(RateLimitInPast(untilMs, nowMs))))
              // an overflowing end wraps negative, so it lies in the past of any clock after 1970
              && (ParseI64(date).Some? && ParseI64(date).value + COOLDOWN_MS > I64_MAX && nowMs >= 0 ==> r.Err?)
  {
    if path == RATE_LIMIT_PATH then
      match FindQuery(query, "date")
      case None => Ok(COOLDOWN_MS)
      case Some(date) =>
        match ParseI64(date)
        case None => Err(BadRateLimitDate(date))
        case Some(lastYoinkedMs) =>
          var untilMs := WrapI64(lastYoinkedMs + COOLDOWN_MS);
          if untilMs > nowMs then Ok(untilMs - nowMs)
          else Err(RateLimitInPast(untilMs, nowMs))
    else
      Ok(COOLDOWN_MS)
  }

  /**
   * `yoink_flag` up to its final sleep: `post` is the outcome of the request and of decoding
   * its response; the result is the duration then slept with `sleep_with_cancel`.
   */
  function YoinkFlag(post: Result<ActionResponse, Error>, nowMs: I64): (r: Result<nat, Error>)
    ensures post.Err? ==> r == Err(post.error)
    ensures r.Ok? ==> post.Ok? && r.value > 0
    ensures post.Ok? && post.value.imagePath != RATE_LIMIT_PATH ==> r == Ok(COOLDOWN_MS)
    // a response is classified by the rate-limit rule, whose outcomes `RateLimitDuration` states
    ensures post.Ok? ==> r == RateLimitDuration(post.value.imagePath, post.value.imageQuery, nowMs)
    // a rate-limit image whose `date` does not parse, or whose end has passed, is an error
    ensures (&& post.Ok? && post.value.imagePath == RATE_LIMIT_PATH
             && FindQuery(post.value.imageQuery, "date").Some?
             && ParseI64(FindQuery(post.value.imageQuery, "date").value).None?) ==> r.Err?
    ensures (&& post.Ok? && post.value.imagePath == RATE_LIMIT_PATH
             && FindQuery(post.value.imageQuery, "date").Some?
             && ParseI64(FindQuery(post.value.imageQuery, "date").value).Some?
             && ParseI64(FindQuery(post.value.imageQuery, "date").value).value + COOLDOWN_MS <= nowMs) ==> r.Err?
  {
    match post
    case Err(e) => Err(e)
    case Ok(response) => RateLimitDuration(response.imagePath, response.imageQuery, nowMs)
  }

  /** What one step did, where the source only returns `Ok(())`. */
  datatype StepOutcome = HoldingFlag | ForcedYoink | StrategyYoink | NoYoink {
    predicate Yoinked() { this == ForcedYoink || this == StrategyYoink }
  }

  /** The scheduler's own state: the monotonic-clock deadline after which it yoinks regardless. */
  class Scheduler {
    var impatientFire: int

    /** `main_loop`'s initial deadline: half a cooldown after `start`. */
    constructor (start: int)
      ensures impatientFire == start + COOLDOWN_MS / 2
    {
      impatientFire := start + COOLDOWN_MS / 2;
    }

    /**
     * One call of `main`. `now` is the clock at the deadline check and `later` the clock read
     * after `yoink_flag` returns (the clock is monotonic); `diffOrder`, `timesOrder` and
     * `rolls` are what the strategy's iteration and random draws see; `post` and `nowMs` are what `yoink_flag` sees.
     */
    method Step(state: StateValue, selfId: string, now: int,
                diffOrder: seq<string>, timesOrder: seq<string>, rolls: Rolls,
                post: Result<ActionResponse, Error>, nowMs: I64, later: int)
      returns (r: Result<StepOutcome, Error>)
      requires now <= later
      requires state.stats != [] ==>
                 && Enumerates(diffOrder, state.diff)
                 && Enumerates(timesOrder, state.stats[|state.stats| - 1].userTimes)
      modifies this
      ensures state.stats == [] ==> r == Err(NoStats)
      ensures state.stats != [] && state.stats[|state.stats| - 1].flag.holderId == selfId ==> r == Ok(HoldingFlag)
      // past the deadline the strategy is not consulted
      ensures state.stats != [] && state.stats[|state.stats| - 1].flag.holderId != selfId && now > old(impatientFire) ==>
                r == match YoinkFlag(post, nowMs) { case Ok(_) => Ok(ForcedYoink) case Err(e) => Err(e) }
      ensures state.stats != [] && state.stats[|state.stats| - 1].flag.holderId != selfId && now <= old(impatientFire) ==>
                var stats := state.stats[|state.stats| - 1];
                match Decide(ACTIVE_STRATEGY, selfId, stats, state.diff, diffOrder, timesOrder, rolls)
                case Err(e) => r == Err(e)
                case Ok(d) =>
                  && (!d.yoink ==> r == Ok(NoYoink))
                  && (d.yoink ==> r == match YoinkFlag(post, nowMs) { case Ok(_) => Ok(StrategyYoink) case Err(e) => Err(e) })
      // the deadline moves exactly on a successful yoink, to a cooldown after it
      ensures impatientFire == if r.Ok? && r.value.Yoinked() then later + COOLDOWN_MS else old(impatientFire)
    {
      if state.stats == [] {
        return Err(NoStats);
      }
      var stats := state.stats[|state.stats| - 1];
      if stats.flag.holderId == selfId {
        return Ok(HoldingFlag);
      }
      if now > impatientFire {
        var yoinked := YoinkFlag(post, nowMs);
        if yoinked.Err? {
          return Err(yoinked.error);
        }
        impatientFire := later + COOLDOWN_MS;
        r := Ok(ForcedYoink);
      } else {
        var decision := Decide(ACTIVE_STRATEGY, selfId, stats, state.diff, diffOrder, timesOrder, rolls);
        if decision.Err? {
          return Err(decision.error);
        }
        if decision.value.yoink {
          var yoinked := YoinkFlag(post, nowMs);
          if yoinked.Err? {
            return Err(yoinked.error);
          }
          impatientFire := later + COOLDOWN_MS;
          r := Ok(StrategyYoink);
        } else {
          r := Ok(NoYoink);
        }
      }
    }
  }
}

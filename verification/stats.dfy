/** The game data of src/stats.rs: `StatsFlag`, `Stats` and the flag overlay of `fetch_stats`. */
module GameStats {
  import opened Numeric
  import opened Wrappers
  import opened Errors

  /** Who holds the flag right now. */
  datatype StatsFlag = StatsFlag(holderId: string, holderName: string, holderPlatform: string)

  /** One snapshot of the game: the flag, each user's cumulative holding time, and user names. */
  datatype Stats = Stats(flag: StatsFlag, userTimes: map<string, U64>, users: map<string, string>)

  /**
   * `fetch_stats`: `cached` is the outcome of the (cached) stats request and `flag` that of the
   * uncached flag request, made in that order; the result is the cached stats with their flag
   * replaced by the fresh one.
   */
  function FetchStats(cached: Result<Stats, Error>, flag: Result<StatsFlag, Error>): (r: Result<Stats, Error>)
    ensures r.Ok? <==> cached.Ok? && flag.Ok?
    ensures cached.Err? ==> r == Err(cached.error)
    ensures cached.Ok? && flag.Err? ==> r == Err(flag.error)
    ensures r.Ok? ==> && r.value.flag == flag.value
                      && r.value.userTimes == cached.value.userTimes
                      && r.value.users == cached.value.users
  {
    match cached
    case Err(e) => Err(e)
    case Ok(stats) =>
      match flag
      case Err(e) => Err(e)
      case Ok(current) => Ok(stats.(flag := current))
  }
}

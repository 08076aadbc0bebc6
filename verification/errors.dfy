/** The failures that the core raises or propagates with `?` (all `anyhow::Error` in the source). */
module Errors {

  datatype Error =
    /** `state.stats.back()` was empty ("no stats"). */
    | NoStats
    /** No eligible participant to rank ("there should always be someone in first"). */
    | NoFirstPlace
    /** The red shell's target has no entry in `user_times` ("no target_time"). */
    | NoTargetTime
    /** The `date` query value of a rate-limit image is not an `i64` ("parsing rate limit date"). */
    | BadRateLimitDate(date: string)
    /** The rate-limit end `untilMs` is not after `nowMs` ("rate limit date is in the past"). */
    | RateLimitInPast(untilMs: int, nowMs: int)
    /** A failure of the network, the HTTP status or JSON decoding, reported by code outside the model. */
    | Transport(what: string)
    /** The channel's receiving side has been dropped, so `send` failed. */
    | ChannelClosed
}

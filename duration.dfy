/**
 * The mapping-duration limit: how the configured `max_duration` becomes an
 * optional limit at start-up, and how a requested duration is clamped to it.
 */
module Duration {
  import opened Types

  /** `--max-duration` value that switches the limit off. */
  const NoLimit: i32 := -1

  /** Rust's `v as u32` for an `i32`: the same 32 bits read as unsigned. */
  function AsU32(v: i32): (u: u32)
    ensures u as int % 0x1_0000_0000 == v as int % 0x1_0000_0000
  {
    (v as int % 0x1_0000_0000) as u32
  }

  /** Rust's `u as i32` for a `u32`: the inverse reinterpretation. */
  function AsI32(u: u32): i32 {
    if u < 0x8000_0000 then u as int as i32 else (u as int - 0x1_0000_0000) as i32
  }

  /** The conversion in `main` that turns `max_duration` into `AppState::max_duration`. */
  function MaxDurationLimit(configured: i32): (limit: Option<u32>)
    ensures limit.None? <==> configured == NoLimit
    ensures 0 <= configured ==> limit == Some(configured as int as u32)
    ensures configured < NoLimit ==>
              limit.Some? && limit.value as int == configured as int + 0x1_0000_0000 && limit.value >= 0x8000_0000
  {
    if configured == NoLimit then None else Some(AsU32(configured))
  }

  /** The conversion loses nothing: the configured value can be read back from the limit. */
  lemma MaxDurationLimitRoundTrip(configured: i32)
    ensures MaxDurationLimit(configured).Some? ==> AsI32(MaxDurationLimit(configured).value) == configured
    ensures MaxDurationLimit(configured).None? ==> configured == NoLimit
  {
  }

  /** `requested.min(max)` when a limit is set, the request itself otherwise. */
  function ClampDuration(requested: u32, max: Option<u32>): (d: u32)
    ensures d <= requested
    ensures max.Some? ==> d <= max.value && (d == requested || d == max.value)
    ensures max.None? ==> d == requested
  {
    match max
    case None => requested
    case Some(m) => if requested <= m then requested else m
  }

  /** With a limit set, the clamped duration is the largest value within both the request and the limit. */
  lemma ClampIsGreatestWithinBounds(requested: u32, max: u32, x: u32)
    requires x <= requested && x <= max
    ensures x <= ClampDuration(requested, Some(max))
  {
  }

  /**
   * End to end from the configuration: a non-negative `max_duration` caps
   * durations at that value, `-1` leaves them alone, and any other negative
   * value caps them at a bound of at least 2^31 seconds.
   */
  lemma ConfiguredClamp(requested: u32, configured: i32)
    ensures 0 <= configured ==>
              ClampDuration(requested, MaxDurationLimit(configured)) as int ==
                (if requested as int <= configured as int then requested as int else configured as int)
    ensures configured == NoLimit ==> ClampDuration(requested, MaxDurationLimit(configured)) == requested
    ensures configured < NoLimit && requested < 0x8000_0000 ==>
              ClampDuration(requested, MaxDurationLimit(configured)) == requested
  {
  }
}

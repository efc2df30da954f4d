/** The `rate-limiter.limits` configuration: a map from period name to the
    maximum number of attempts allowed in that period. */
module Settings {

  type Limits = map<string, int>

  /** A configuration lookup with a caller-supplied fallback, as
      `Config::get(name, fallback)` behaves. */
  function LimitOr(limits: Limits, period: string, fallback: int): int
  {
    if period in limits then limits[period] else fallback
  }
}

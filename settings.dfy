/** Quota configuration of the rate limiter and its validation. */
module Settings {

  /** A quota: at most `limit` admitted actions per `windowMs` milliseconds. */
  datatype Config = Config(limit: int, windowMs: int)

  /** The two rejections of a configuration change, in the order they are tested. */
  datatype ConfigError = LimitNotPositive | WindowNotPositive

  /** Outcome of a configuration change: applied, or rejected with no state change. */
  datatype Outcome = Ok | Invalid(error: ConfigError)

  /** The process-wide default in force before any administrative change. */
  const InitialConfig := Config(10, 60000)

  predicate Positive(c: Config) {
    c.limit > 0 && c.windowMs > 0
  }

  /** The guard shared by `setDefaultConfig` and `updateLimit`: the limit is
      checked first, then the window. */
  function Validate(limit: int, windowMs: int): (r: Outcome)
    ensures r.Ok? <==> Positive(Config(limit, windowMs))
    ensures r == Invalid(LimitNotPositive) <==> limit <= 0
    ensures r == Invalid(WindowNotPositive) <==> limit > 0 && windowMs <= 0
  {
    if limit <= 0 then Invalid(LimitNotPositive)
    else if windowMs <= 0 then Invalid(WindowNotPositive)
    else Ok
  }
}

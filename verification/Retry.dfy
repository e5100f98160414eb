/** Building a fresh strategy from a configuration and asking it for one interval. */
module Retry {
  import opened GoInt
  import opened Wrappers
  import opened Backoff

  datatype Policy =
    | FixedInterval(interval: int64, limit: int32)
    | ExponentialBackoff(cfg: Config)
    | Unsupported

  function MaxRetries(p: Policy): int32
    requires !p.Unsupported?
  {
    if p.FixedInterval? then p.limit else p.cfg.maxRetries
  }

  /** `NewRetry` followed by `NextWithRetries(retries)`: no interval means no further retry. */
  function NextInterval(p: Policy, retries: int32): (r: Option<int64>)
    ensures r.Some? <==> !p.Unsupported? && (MaxRetries(p) <= 0 || retries <= MaxRetries(p))
  {
    match p
    case FixedInterval(interval, limit) => if limit <= 0 || retries <= limit then Some(interval) else None
    case ExponentialBackoff(cfg) => Stateless(cfg, retries)
    case Unsupported => None
  }

  /** `time.Now().Add(interval).UnixMilli()`, with the clock in nanoseconds: the last whole millisecond
      that is not after the end of the interval. */
  function MilliAfter(now: int, interval: int): (t: int)
    ensures 0 <= now + interval - 1_000_000 * t < 1_000_000
  {
    (now + interval) / 1_000_000
  }

  const MILLISECOND: int := 1_000_000

  /** Every interval the policy can give is at least a millisecond. */
  ghost predicate Waits(p: Policy) { AtLeast(p, MILLISECOND) }

  ghost predicate AtLeast(p: Policy, bound: int) {
    forall r: int32 :: NextInterval(p, r).Some? ==> NextInterval(p, r).value >= bound
  }

  ghost predicate AtMost(p: Policy, bound: int) {
    forall r: int32 :: NextInterval(p, r).Some? ==> NextInterval(p, r).value <= bound
  }

  /** An exponential policy waits at least a millisecond if its bounds do and it is exact, for which
      `StatelessExactByProduct` gives a condition: no permitted interval wraps to something shorter. */
  lemma ExponentialWaits(cfg: Config)
    requires cfg.initialInterval >= MILLISECOND && cfg.maxInterval >= MILLISECOND
    requires StatelessExact(cfg) && cfg.Indefinite()
    ensures Waits(ExponentialBackoff(cfg))
  {
    forall r: int32 | cfg.Permits(r) ensures Stateless(cfg, r).Some? && Stateless(cfg, r).value >= MILLISECOND {
      if 1 <= r <= 63 {
        MulAtLeast(cfg.initialInterval, 1, Pow2(r - 1));
      } else {
        OutsideWaitsMaximum(cfg, r);
      }
    }
  }

  /** A fixed policy gives the configured interval and no other: it keeps exactly the bounds that its
      interval keeps. */
  lemma FixedBoundsExactly(interval: int64, limit: int32, bound: int)
    ensures AtLeast(FixedInterval(interval, limit), bound) <==> interval >= bound
    ensures AtMost(FixedInterval(interval, limit), bound) <==> interval <= bound
    ensures Waits(FixedInterval(interval, limit)) <==> interval >= MILLISECOND
  {
    assert NextInterval(FixedInterval(interval, limit), 0) == Some(interval);
  }

  /** An exponential policy never gives more than its maximum, and no interval that is not positive. */
  lemma ExponentialKeepsMaximum(cfg: Config)
    requires cfg.Positive()
    ensures AtMost(ExponentialBackoff(cfg), cfg.maxInterval) && AtLeast(ExponentialBackoff(cfg), 1)
  {
  }
}

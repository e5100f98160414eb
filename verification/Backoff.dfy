/**
 Exponential backoff in wrapping int64 arithmetic.

 The ideal k-th interval is min(initial * 2^(k-1), max).  The code computes the product in int64,
 where it can wrap, and remembers in a sticky flag that the maximum was reached.
 */
module Backoff {
  import opened GoInt
  import opened Wrappers

  /** The strategy's configuration.  `beyond(e)` is what converting the float64 2^e to an int64
      gives once e > 62: the Go specification leaves it to the platform, and so does the model. */
  datatype Config = Config(initialInterval: int64, maxInterval: int64, maxRetries: int32, beyond: int -> int64)
  {
    predicate Positive() { initialInterval > 0 && maxInterval > 0 }

    predicate Permits(retries: int) { maxRetries <= 0 || retries <= maxRetries }

    /** The platform turns an out-of-range conversion into the minimum, as amd64 does. */
    ghost predicate Indefinite() { forall e | e > 62 :: beyond(e) == MIN_INT64 }

    /** The 63rd product, the last that is made of an exact power, exceeds the maximum. */
    predicate Excessive() { maxInterval < 0x4000_0000_0000_0000 || initialInterval >= 2 }

    /** The 64th power is not needed below the wrap of the counter, or is known. */
    ghost predicate Tame() { Excessive() || !Permits(64) || Indefinite() }

    /** What the k-th sequential call needs: nothing of the platform up to call 63, and beyond it only if
        the initial interval is 1, the maximum 2^62 or more and 64 retries are permitted; except for
        the call at which the counter wraps, if the limit on retries kept the flag from being raised. */
    ghost predicate Exact(k: int) {
      && Positive() && (k <= 63 || Tame())
      && (k != TWO_31 || (Excessive() && Permits(63)) || Indefinite())
    }
  }

  /** `time.Duration(math.Pow(2, float64(e)))`: fractions are cut to 0. */
  function PowDuration(cfg: Config, e: int): int64 {
    if e < 0 then 0 else if e <= 62 then PowFits(e); Pow2(e) else cfg.beyond(e)
  }

  lemma PowFits(e: nat)
    requires e <= 62
    ensures Pow2(e) <= 0x4000_0000_0000_0000
  {
    Pow2Monotone(e, 62);
    Pow2Values();
  }

  /** The interval as computed, with wrapping product. */
  function Computed(cfg: Config, e: int): int64 { Wrap64(cfg.initialInterval * PowDuration(cfg, e)) }

  /** One evaluation of `nextWithRetries`: the answer, and the sticky flag afterwards. */
  function Attempt(cfg: Config, reached: bool, retries: int32): (Option<int64>, bool) {
    if !cfg.Permits(retries) then (None, reached)
    else if reached then (Some(cfg.maxInterval), true)
    else
      var interval := Computed(cfg, Wrap32(retries - 1));
      if interval <= 0 || interval > cfg.maxInterval then (Some(cfg.maxInterval), true) else (Some(interval), false)
  }

  function Product(cfg: Config, k: nat): int
    requires k >= 1
  {
    cfg.initialInterval * Pow2(k - 1)
  }

  /** The mathematical backoff sequence, counted from 1. */
  function Ideal(cfg: Config, k: nat): int
    requires k >= 1
  {
    Min(Product(cfg, k), cfg.maxInterval)
  }

  // ----- the strategy object -----

  class ExponentialBackoffRetryStrategy {
    const cfg: Config
    var retries: int32
    var maxIntervalReached: bool
    ghost var calls: nat

    /** The object is the one obtained by `calls` calls of `Next`. */
    ghost predicate Sequential() reads this {
      retries == Wrap32(calls) && maxIntervalReached == FlagAfter(cfg, calls)
    }

    constructor (cfg: Config)
      ensures this.cfg == cfg && Sequential() && calls == 0 && !maxIntervalReached
    {
      this.cfg, retries, maxIntervalReached, calls := cfg, 0, false, 0;
    }

    method NextWithRetries(retries: int32) returns (interval: int64, ok: bool)
      modifies this`maxIntervalReached
      ensures (if ok then Some(interval) else None, maxIntervalReached) == Attempt(cfg, old(maxIntervalReached), retries)
      ensures !ok ==> interval == 0
    {
      if cfg.maxRetries <= 0 || retries <= cfg.maxRetries {
        if maxIntervalReached {
          return cfg.maxInterval, true;
        }
        interval := Wrap64(cfg.initialInterval * PowDuration(cfg, Wrap32(retries - 1)));
        if interval <= 0 || interval > cfg.maxInterval {
          maxIntervalReached := true;
          return cfg.maxInterval, true;
        }
        return interval, true;
      }
      return 0, false;
    }

    /** Called in sequence the strategy is exact for ever, also after the 32-bit call counter has
        wrapped and whatever the products wrapped to, where `Exact` does not leave it to the platform. */
    method Next() returns (interval: int64, ok: bool)
      requires Sequential()
      modifies this
      ensures Sequential() && calls == old(calls) + 1
      ensures ok == cfg.Permits(Wrap32(calls))
      ensures ok && cfg.Exact(calls) ==> interval == Ideal(cfg, calls)
      ensures !ok ==> interval == 0
    {
      retries := Wrap32(retries + 1);
      calls := calls + 1;
      assert retries == Wrap32(calls) by { WrapStep(calls); }
      interval, ok := NextWithRetries(retries);
      if cfg.Exact(calls) {
        SequentialExact(cfg, calls);
      }
    }
  }

  lemma WrapStep(k: nat)
    requires k >= 1
    ensures Wrap32(Wrap32(k - 1) + 1) == Wrap32(k)
  {
  }

  /** The sticky flag after k sequential calls. */
  function FlagAfter(cfg: Config, k: nat): bool {
    if k == 0 then false else Attempt(cfg, FlagAfter(cfg, k - 1), Wrap32(k)).1
  }

  /** The answer of the k-th sequential call. */
  function Answer(cfg: Config, k: nat): Option<int64>
    requires k >= 1
  {
    Attempt(cfg, FlagAfter(cfg, k - 1), Wrap32(k)).0
  }

  /** While the flag is down nothing has exceeded the maximum, and once up the ideal has. */
  ghost predicate FlagMeans(cfg: Config, k: nat) {
    && (FlagAfter(cfg, k) ==> k >= 1 && Product(cfg, k) > cfg.maxInterval)
    && (!FlagAfter(cfg, k) ==> k < TWO_31 || (k == TWO_31 && !cfg.Indefinite()))
    && (!FlagAfter(cfg, k) && k >= 63 && cfg.Permits(63) ==> !cfg.Excessive())
    && (!FlagAfter(cfg, k) && k >= TWO_31 - 1 ==> !cfg.Permits(k))
    && (!FlagAfter(cfg, k) && k >= 1 && cfg.Permits(k) ==> Product(cfg, k) <= cfg.maxInterval)
  }

  /** A product that has just passed the maximum is caught: it is at most twice an int64. */
  lemma FirstExcessIsCaught(x: int, max: int64)
    requires 0 < max && 0 < x && (x <= 2 * max || x <= MAX_INT64)
    ensures var w := Wrap64(x); if w <= 0 || w > max then x > max else w == x
  {
  }

  lemma IndefiniteIsCaught(i: int64)
    requires i > 0
    ensures Wrap64(i * MIN_INT64) <= 0
  {
    var h := i / 2;
    assert i == 2 * h || i == 2 * h + 1;
    assert i * MIN_INT64 == -h * TWO_64 || i * MIN_INT64 == -h * TWO_64 + MIN_INT64;
  }

  lemma ProductDoubles(i: int, k: nat)
    requires k >= 2
    ensures i * Pow2(k - 1) == 2 * (i * Pow2(k - 2))
  {
  }

  lemma ProductStep(cfg: Config, k: nat)
    requires k >= 2
    ensures Product(cfg, k) == 2 * Product(cfg, k - 1)
  {
    ProductDoubles(cfg.initialInterval, k);
  }

  /** Far enough out the ideal product exceeds every int64. */
  lemma ProductIsLarge(cfg: Config, k: nat)
    requires cfg.Positive() && k >= 63
    ensures Product(cfg, k) >= 0x4000_0000_0000_0000
    ensures k >= 64 ==> Product(cfg, k) > MAX_INT64
  {
    var i := cfg.initialInterval;
    MulAtLeast(i, 1, Pow2(k - 1));
    MulAtLeast(Pow2(k - 1), 1, i);
    Pow2Values();
    if k >= 63 { Pow2Monotone(62, k - 1); }
    if k >= 64 { Pow2Monotone(63, k - 1); }
  }

  lemma ExcessAtLast(cfg: Config)
    requires cfg.Positive()
    ensures cfg.Excessive() ==> Product(cfg, 63) > cfg.maxInterval
    ensures cfg.initialInterval == 1 ==> Product(cfg, 63) == 0x4000_0000_0000_0000
  {
    Pow2Values();
    MulAtLeast(Pow2(62), 1, cfg.initialInterval);
    if cfg.initialInterval >= 2 { MulAtLeast(Pow2(62), 2, cfg.initialInterval); }
  }

  /** The interval computed with the flag down is right, or is caught. */
  ghost predicate RightOrCaught(cfg: Config, k: nat)
    requires k >= 1
  {
    var w, x := Computed(cfg, k - 1), Product(cfg, k);
    if w <= 0 || w > cfg.maxInterval then x > cfg.maxInterval else w == x
  }

  lemma ComputedExactly(cfg: Config, k: nat)
    requires 1 <= k <= 63 && cfg.Positive() && Product(cfg, k) > 0
    requires Product(cfg, k) <= 2 * cfg.maxInterval || Product(cfg, k) <= MAX_INT64
    ensures RightOrCaught(cfg, k)
  {
    FirstExcessIsCaught(Product(cfg, k), cfg.maxInterval);
    assert PowDuration(cfg, k - 1) == Pow2(k - 1);
  }

  lemma ComputedBeyond(cfg: Config, k: nat)
    requires k >= 64 && cfg.Positive() && cfg.Indefinite()
    ensures RightOrCaught(cfg, k)
  {
    assert PowDuration(cfg, k - 1) == MIN_INT64;
    ProductIsLarge(cfg, k);
    IndefiniteIsCaught(cfg.initialInterval);
  }

  lemma ProductIsPositive(cfg: Config, k: nat)
    requires k >= 1 && cfg.Positive()
    ensures Product(cfg, k) >= cfg.initialInterval && Product(cfg, 1) == cfg.initialInterval
  {
    MulAtLeast(cfg.initialInterval, 1, Pow2(k - 1));
  }

  /** While the counter has not wrapped. */
  lemma ComputedInterval(cfg: Config, k: nat)
    requires 1 <= k && cfg.Positive() && (k <= 63 || cfg.Tame()) && cfg.Permits(k)
    requires k >= 2 ==> Product(cfg, k - 1) <= cfg.maxInterval
    ensures RightOrCaught(cfg, k)
  {
    hide Product, RightOrCaught;
    ProductIsPositive(cfg, k);
    if k >= 2 { ProductStep(cfg, k); }
    if k <= 63 {
      ComputedExactly(cfg, k);
    } else {
      ProductIsLarge(cfg, k - 1);
      ExcessAtLast(cfg);
      ComputedBeyond(cfg, k);
    }
  }

  ghost predicate RightAt(cfg: Config, k: nat)
    requires k >= 1
  {
    Answer(cfg, k) == if cfg.Permits(Wrap32(k)) then Some(Ideal(cfg, k)) else None
  }

  lemma FlagStep(cfg: Config, k: nat)
    requires k >= 1 && cfg.Positive() && (k <= 63 || cfg.Tame()) && FlagMeans(cfg, k - 1)
    ensures FlagMeans(cfg, k) && (cfg.Exact(k) ==> RightAt(cfg, k))
  {
    hide Product, RightAt;
    if FlagAfter(cfg, k - 1) {
      FlagIsUp(cfg, k);
    } else if k > TWO_31 {
      PastTheWrap(cfg, k);
    } else if k == TWO_31 {
      AtTheWrap(cfg);
    } else {
      BelowTheWrap(cfg, k);
    }
  }

  lemma FlagIsUp(cfg: Config, k: nat)
    requires k >= 2 && cfg.Positive() && FlagAfter(cfg, k - 1) && FlagMeans(cfg, k - 1)
    ensures FlagMeans(cfg, k) && RightAt(cfg, k)
  {
    hide Product, Computed;
    ProductStep(cfg, k);
  }

  lemma FractionsAreCut(cfg: Config, e: int)
    requires e < 0
    ensures Computed(cfg, e) == 0
  {
  }

  lemma PastTheWrap(cfg: Config, k: nat)
    requires k > TWO_31 && cfg.Positive() && !FlagAfter(cfg, k - 1) && FlagMeans(cfg, k - 1)
    ensures FlagMeans(cfg, k) && RightAt(cfg, k)
  {
    hide Product, Computed;
    ProductIsLarge(cfg, k);
    assert k == TWO_31 + 1;
    assert Wrap32(TWO_31 + 1) == -TWO_31 + 1 && Wrap32(-TWO_31) == -TWO_31;
    FractionsAreCut(cfg, -TWO_31);
    assert Attempt(cfg, false, -TWO_31 + 1) == (Some(cfg.maxInterval), true);
  }

  lemma BelowTheWrap(cfg: Config, k: nat)
    requires 1 <= k < TWO_31 && cfg.Positive() && (k <= 63 || cfg.Tame()) && !FlagAfter(cfg, k - 1) && FlagMeans(cfg, k - 1)
    ensures FlagMeans(cfg, k) && RightAt(cfg, k)
  {
    hide Product, Computed;
    assert Wrap32(k) == k && Wrap32(k - 1) == k - 1;
    ExcessAtLast(cfg);
    if k >= 63 { ProductIsLarge(cfg, k); }
    if cfg.Permits(k) { ComputedInterval(cfg, k); }
  }

  /** The call at which the counter wraps, with the flag still down: the exponent is 2^31 - 1, and what
      the platform makes of it decides. */
  lemma AtTheWrap(cfg: Config)
    requires cfg.Positive() && cfg.Tame() && !FlagAfter(cfg, TWO_31 - 1) && FlagMeans(cfg, TWO_31 - 1)
    ensures FlagMeans(cfg, TWO_31) && cfg.Permits(Wrap32(TWO_31)) && Ideal(cfg, TWO_31) == cfg.maxInterval
    ensures var w := Computed(cfg, TWO_31 - 1);
            Answer(cfg, TWO_31) == Some(cfg.maxInterval) <==> w <= 0 || w >= cfg.maxInterval
    ensures cfg.Exact(TWO_31) ==> RightAt(cfg, TWO_31)
  {
    hide Product, Computed;
    ProductIsLarge(cfg, TWO_31);
    Pow2Values();
    assert Wrap32(TWO_31) == -TWO_31 && Wrap32(-TWO_31 - 1) == TWO_31 - 1;
    if cfg.Indefinite() { ComputedIndefinite(cfg); }
  }

  lemma ComputedIndefinite(cfg: Config)
    requires cfg.Positive() && cfg.Indefinite()
    ensures Computed(cfg, TWO_31 - 1) <= 0
  {
    IndefiniteIsCaught(cfg.initialInterval);
  }

  lemma {:induction false} FlagInvariant(cfg: Config, k: nat)
    requires cfg.Positive() && (k <= 63 || cfg.Tame())
    ensures FlagMeans(cfg, k)
  {
    if k > 0 {
      FlagInvariant(cfg, k - 1);
      FlagStep(cfg, k);
    }
  }

  /** The k-th sequential call returns exactly the ideal interval, for every k, although every
      product is computed modulo 2^64 and the call counter modulo 2^32. */
  lemma SequentialExact(cfg: Config, k: nat)
    requires k >= 1 && cfg.Exact(k)
    ensures Answer(cfg, k) == if cfg.Permits(Wrap32(k)) then Some(Ideal(cfg, k)) else None
  {
    hide Answer, Ideal, FlagMeans;
    FlagInvariant(cfg, k - 1);
    FlagStep(cfg, k);
  }

  /** The two exceptions, exactly.  With the flag still down, call 2^31 is right if and only if the
      converted 2^(2^31-1) makes a product that is caught, or the maximum. */
  lemma SequentialAtTheWrap(cfg: Config)
    requires cfg.Positive() && cfg.Tame() && !FlagAfter(cfg, TWO_31 - 1)
    ensures var w := Computed(cfg, TWO_31 - 1);
            Answer(cfg, TWO_31) == Some(Ideal(cfg, TWO_31)) <==> w <= 0 || w >= cfg.maxInterval
  {
    FlagInvariant(cfg, TWO_31 - 1);
    AtTheWrap(cfg);
  }

  /** Where the first 63 products do not exceed the maximum, call 64 is right if and only if the
      converted 2^63 is caught, or is the maximum. */
  lemma SequentialAtCall64(cfg: Config)
    requires cfg.Positive() && !cfg.Excessive() && cfg.Permits(64)
    ensures Answer(cfg, 64) == Some(Ideal(cfg, 64)) <==> cfg.beyond(63) <= 0 || cfg.beyond(63) >= cfg.maxInterval
  {
    FlagInvariant(cfg, 63);
    ExcessAtLast(cfg);
    ProductIsLarge(cfg, 64);
    FlagUpMeans(cfg, 63);
    hide FlagMeans, Product;
    assert Wrap32(64) == 64 && Wrap32(63) == 63;
    assert !FlagAfter(cfg, 63);
    ConvertedAlone(cfg);
  }

  lemma FlagUpMeans(cfg: Config, k: nat)
    requires FlagMeans(cfg, k) && k >= 1
    ensures FlagAfter(cfg, k) ==> Product(cfg, k) > cfg.maxInterval
  {
  }

  lemma ConvertedAlone(cfg: Config)
    requires cfg.initialInterval == 1
    ensures Computed(cfg, 63) == cfg.beyond(63)
  {
  }

  // ----- the stateless form: a fresh strategy asked for its r-th interval -----

  function Stateless(cfg: Config, retries: int32): Option<int64> {
    Attempt(cfg, false, retries).0
  }

  /** Every permitted r whose power of two is exact gets the ideal interval. */
  ghost predicate StatelessExact(cfg: Config) {
    forall r: int32 | 1 <= r <= 63 && cfg.Permits(r) :: Stateless(cfg, r) == Some(Ideal(cfg, r))
  }

  lemma WrapUnique(x: int, d: int, y: int64)
    requires x == d * TWO_64 + y
    ensures Wrap64(x) == y
  {
  }

  lemma ScaledFits(p: int, h: int, c: int)
    requires p > 0 && h > 0 && p * h == TWO_63 && -h <= c < h
    ensures MIN_INT64 <= p * c <= MAX_INT64
  {
    MulAtLeast(p, -h, c);
    MulAtLeast(p, c + 1, h);
    assert p * (c + 1) == p * c + p && p * -h == -(p * h);
  }

  lemma ScaledSplits(p: int, h: int, d: int, c: int)
    requires p * h == TWO_63
    ensures (d * (2 * h) + c) * p == d * TWO_64 + p * c
  {
    assert (d * (2 * h) + c) * p == 2 * d * (p * h) + p * c;
  }

  lemma WrapScaled(i: int, p: int, h: int) returns (d: int, c: int)
    requires p > 0 && h > 0 && p * h == TWO_63
    ensures i == d * (2 * h) + c && -h <= c < h
    ensures Wrap64(i * p) == p * c
  {
    d, c := DivideCentered(i, h);
    ScaledFits(p, h, c);
    ScaledSplits(p, h, d, c);
    WrapUnique(i * p, d, p * c);
  }

  lemma DivideCentered(i: int, h: int) returns (d: int, c: int)
    requires h > 0
    ensures i == d * (2 * h) + c && -h <= c < h
  {
    d, c := (i + h) / (2 * h), (i + h) % (2 * h) - h;
  }

  /** A wrapped product is the same power of two times a smaller signed number: what is lost
      is a multiple of 2^(64-j). */
  lemma WrappedProduct(i: int, j: nat) returns (d: int, c: int)
    requires j <= 62
    ensures i == d * Pow2(64 - j) + c && -Pow2(63 - j) <= c < Pow2(63 - j)
    ensures Wrap64(i * Pow2(j)) == Pow2(j) * c
  {
    Pow2Sum(j, 63 - j);
    Pow2Values();
    d, c := WrapScaled(i, Pow2(j), Pow2(63 - j));
  }

  /** Below the threshold no wrapped product lands strictly between 0 and the maximum. */
  lemma StatelessStep(cfg: Config, e: nat, r: int32)
    requires cfg.Positive() && e <= 62 && cfg.maxInterval <= Pow2(e + 1)
    requires 1 <= r <= 63 && cfg.Permits(r) && (r - 1 <= e ==> cfg.initialInterval <= Pow2(64 - (r - 1)))
    ensures Stateless(cfg, r) == Some(Ideal(cfg, r))
  {
    ProductCases(cfg.initialInterval, r - 1, e);
    StatelessFrom(cfg, r, Wrap64(cfg.initialInterval * Pow2(r - 1)), cfg.initialInterval * Pow2(r - 1));
  }

  lemma ProductCases(i: int64, j: nat, e: nat)
    requires i > 0 && j <= 62 && e <= 62 && (j <= e ==> i <= Pow2(64 - j))
    ensures i * Pow2(j) > 0
    ensures var w, x := Wrap64(i * Pow2(j)), i * Pow2(j);
            w == x || (x > MAX_INT64 && (w <= 0 || w >= Pow2(e + 1)))
  {
    MulAtLeast(i, 1, Pow2(j));
    var d, c := WrappedProduct(i, j);
    if d == 0 {
      MulCommutes(i, Pow2(j));
    } else {
      QuotientMeansWrapped(i, j, d, c);
      WrappedAvoids(i, j, e, c);
    }
  }

  lemma MulCommutes(a: int, b: int)
    ensures a * b == b * a
  {
  }

  lemma WrappedAvoids(i: int64, j: nat, e: nat, c: int)
    requires j <= 62 && e <= 62 && (j <= e ==> i <= Pow2(64 - j)) && (c >= 1 ==> i > Pow2(64 - j))
    ensures Pow2(j) * c <= 0 || Pow2(j) * c >= Pow2(e + 1)
  {
    if c >= 1 {
      MulAtLeast(Pow2(j), 1, c);
      Pow2Monotone(e + 1, j);
    } else {
      MulAtLeast(Pow2(j), c, 0);
    }
  }

  lemma StatelessFrom(cfg: Config, r: int32, w: int64, x: int)
    requires 1 <= r <= 63 && cfg.Permits(r) && cfg.Positive()
    requires x > 0 && x == cfg.initialInterval * Pow2(r - 1) && w == Wrap64(x)
    requires w == x || (x > cfg.maxInterval && (w <= 0 || w >= cfg.maxInterval))
    ensures Stateless(cfg, r) == Some(Ideal(cfg, r))
  {
  }

  lemma QuotientMeansWrapped(i: int64, j: nat, d: int, c: int)
    requires i > 0 && j <= 62 && d != 0
    requires i == d * Pow2(64 - j) + c && -Pow2(63 - j) <= c < Pow2(63 - j)
    ensures d >= 1 && i * Pow2(j) > MAX_INT64
    ensures c >= 1 ==> i > Pow2(64 - j)
  {
    var q, h := Pow2(64 - j), Pow2(63 - j);
    assert q == 2 * h;
    assert q * d == d * q;
    if d < 0 { MulAtLeast(q, d, -1); } else { MulAtLeast(q, 1, d); }
    MulAtLeast(Pow2(j), h, i);
    Pow2Sum(j, 63 - j);
    Pow2Values();
    assert i * Pow2(j) == Pow2(j) * i;
  }

  lemma ProductOneAbove(cfg: Config, j: nat)
    requires j <= 62 && cfg.initialInterval == Pow2(64 - j) + 1
    ensures Product(cfg, j + 1) == TWO_64 + Pow2(j) && Computed(cfg, j) == Pow2(j)
  {
    var i, p, q := cfg.initialInterval, Pow2(j), Pow2(64 - j);
    Pow2Sum(j, 64 - j);
    Pow2Values();
    PowFits(j);
    assert i * p == p * q + p;
    WrapUnique(i * p, 1, p);
  }

  /** One above 2^(64-j) the wrapped product is 2^j, a positive interval that is too short. */
  lemma StatelessBreaks(cfg: Config, e: nat, j: nat)
    requires cfg.Positive() && j <= e <= 62 && Pow2(e) < cfg.maxInterval && cfg.initialInterval == Pow2(64 - j) + 1
    requires cfg.Permits(j + 1)
    ensures Stateless(cfg, j + 1) == Some(Pow2(j)) && Ideal(cfg, j + 1) == cfg.maxInterval > Pow2(j)
  {
    Pow2Sum(j, 64 - j);
    Pow2Values();
    PowFits(j);
    Pow2Monotone(j, e);
    ProductOneAbove(cfg, j);
    hide Product, Computed, Pow2;
    assert Wrap32(j) == j;
  }

  /** With a maximum in (2^e, 2^(e+1)], the largest exponent that is asked for below the maximum. */
  function LastExponent(cfg: Config, e: nat): nat {
    if 0 < cfg.maxRetries <= e then cfg.maxRetries - 1 else e
  }

  /** For a maximum in (2^e, 2^(e+1)], the stateless form is exact for every initial interval up to
      a bound if and only if the bound is at most 2^(64-j), where j is e, or one less than the limit on
      retries if that is smaller. */
  lemma StatelessThreshold(cfg: Config, e: nat, bound: int64)
    requires e <= 62 && Pow2(e) < cfg.maxInterval <= Pow2(e + 1) && bound >= 1
    ensures (forall i: int64 | 1 <= i <= bound :: StatelessExact(cfg.(initialInterval := i)))
        <==> bound <= Pow2(64 - LastExponent(cfg, e))
  {
    var j := LastExponent(cfg, e);
    if bound <= Pow2(64 - j) {
      forall i: int64, r: int32 | 1 <= i <= bound && 1 <= r <= 63 && cfg.Permits(r)
        ensures Stateless(cfg.(initialInterval := i), r) == Some(Ideal(cfg.(initialInterval := i), r))
      {
        if r - 1 <= e { Pow2Monotone(64 - j, 64 - (r - 1)); }
        StatelessStep(cfg.(initialInterval := i), e, r);
      }
    } else {
      var broken := cfg.(initialInterval := Pow2(64 - j) + 1);
      StatelessBreaks(broken, e, j);
      assert !StatelessExact(broken);
    }
  }

  /** The bound a caller checks by multiplying: initial * max below 2^63 is enough. */
  lemma StatelessExactByProduct(cfg: Config)
    requires cfg.Positive() && cfg.initialInterval * cfg.maxInterval < TWO_63
    ensures StatelessExact(cfg)
  {
    var e := Magnitude(cfg.maxInterval);
    ProductBoundsFactor(cfg.initialInterval, cfg.maxInterval, e);
    forall r: int32 | 1 <= r <= 63 && cfg.Permits(r) ensures Stateless(cfg, r) == Some(Ideal(cfg, r)) {
      if r - 1 <= e { Pow2Monotone(64 - e, 64 - (r - 1)); }
      StatelessStep(cfg, e, r);
    }
  }

  lemma ProductBoundsFactor(i: int64, max: int64, e: nat)
    requires i > 0 && max > 0 && i * max < TWO_63 && e == Magnitude(max)
    ensures i <= Pow2(64 - e)
  {
    Pow2Values();
    if max == 1 {
      assert e == 0;
    } else if i > Pow2(64 - e) {
      MulAtLeast(Pow2(64 - e), Pow2(e), max);
      MulAtLeast(max, Pow2(64 - e), i);
      Pow2Sum(64 - e, e);
      MulCommutes(i, max);
      MulCommutes(Pow2(64 - e), max);
      assert false;
    }
  }

  /** The e with 2^e < max <= 2^(e+1), and 0 when max is 1. */
  function Magnitude(max: int64): (e: nat)
    requires max >= 1
    ensures e <= 62 && max <= Pow2(e + 1) && (max > 1 ==> Pow2(e) < max)
    decreases max
  {
    if max <= 2 then 0
    else
      var e := Magnitude((max + 1) / 2);
      MagnitudeFits(e, max);
      e + 1
  }

  lemma MagnitudeFits(e: nat, max: int64)
    requires e <= 62 && Pow2(e) < (max + 1) / 2
    ensures e <= 61
  {
    Pow2Values();
  }

  /** Retry numbers outside 1..63 wait the maximum: fractions are cut to 0, and the platform's least
      int64 is caught. */
  lemma OutsideWaitsMaximum(cfg: Config, r: int32)
    requires cfg.Positive() && cfg.Indefinite() && cfg.Permits(r) && !(1 <= r <= 63)
    ensures Stateless(cfg, r) == Some(cfg.maxInterval)
  {
    var e := Wrap32(r - 1);
    IndefiniteIsCaught(cfg.initialInterval);
    assert e < 0 || e > 62;
    if e < 0 { FractionsAreCut(cfg, e); }
  }

  /** The first retry after no recorded retries waits the maximum: 2^-1 is cut to 0. */
  lemma RetryZeroWaitsMaximum(cfg: Config)
    requires cfg.Permits(0)
    ensures Stateless(cfg, 0) == Some(cfg.maxInterval)
  {
    FractionsAreCut(cfg, -1);
  }
}

/**
 The batch-size controller: response times above the average of the full buffer make the batch
 smaller, those below make it larger, at most one step at a time and not within the cooldown.
 */
module BatchSize {
  import opened GoInt
  import opened Wrappers
  import opened SlidingWindow
  import opened RingBuffer

  const DEFAULT_BUFFER: nat := 128

  datatype Config = Config(minSize: int64, maxSize: int64, step: int64, cooldown: int, bufferSize: nat)
  {
    ghost predicate Sensible() { minSize <= maxSize && step >= 0 && 0 < bufferSize <= MAX_INT64 }

    /** No size from which the code takes a step leaves the 64-bit integers by it. */
    predicate StepFits() { minSize + 1 - step >= MIN_INT64 && maxSize - 1 + step <= MAX_INT64 }

    /** Two samples and two sizes: without them nothing ever moves. */
    predicate CanMove() { bufferSize >= 2 && minSize < maxSize }
  }

  /** `lastAdjust` is the zero time until the first adjustment. */
  datatype State = State(size: int64, lastAdjust: Option<int>, history: seq<int64>)

  /** One call: the reported time, the clock read for the cooldown and the one read for the stamp. */
  datatype Call = Call(response: int64, now: int, stamp: int)

  function Start(cfg: Config, initial: int64): State {
    var raised := if initial < cfg.minSize then cfg.minSize else initial;
    State(if raised > cfg.maxSize then cfg.maxSize else raised, None, [])
  }

  function Samples(cfg: Config, s: State, c: Call): seq<int64> { Window(s.history + [c.response], cfg.bufferSize) }

  predicate Cooling(cfg: Config, s: State, c: Call) {
    s.lastAdjust.Some? && c.now - s.lastAdjust.value < cfg.cooldown
  }

  /** Whether the call sets a new size and a new time stamp. */
  predicate Adjusts(cfg: Config, s: State, c: Call) {
    var w := Samples(cfg, s, c);
    && |w| >= cfg.bufferSize && !Cooling(cfg, s, c)
    && ((c.response > Average(w) && s.size > cfg.minSize) || (c.response < Average(w) && s.size < cfg.maxSize))
  }

  function Next(cfg: Config, s: State, c: Call): State {
    var seen := s.(history := s.history + [c.response]);
    if !Adjusts(cfg, s, c) then seen
    else if c.response > Average(Samples(cfg, s, c)) then seen.(size := Max(Wrap64(s.size - cfg.step), cfg.minSize), lastAdjust := Some(c.stamp))
    else seen.(size := Min(Wrap64(s.size + cfg.step), cfg.maxSize), lastAdjust := Some(c.stamp))
  }

  function Run(cfg: Config, s: State, calls: seq<Call>): State
    decreases |calls|
  {
    if calls == [] then s else Next(cfg, Run(cfg, s, calls[..|calls| - 1]), calls[|calls| - 1])
  }

  // ----- properties of any run -----

  /** The initial size is the nearest one within the bounds. */
  lemma StartIsNearest(cfg: Config, initial: int64, x: int)
    requires cfg.minSize <= x <= cfg.maxSize
    ensures cfg.minSize <= Start(cfg, initial).size <= cfg.maxSize && Start(cfg, initial).lastAdjust.None?
    ensures var size := Start(cfg, initial).size; Max(size - initial, initial - size) <= Max(x - initial, initial - x)
  {
  }

  lemma {:induction false} HistoryGrows(cfg: Config, s: State, calls: seq<Call>)
    ensures |Run(cfg, s, calls).history| == |s.history| + |calls|
    decreases |calls|
  {
    if calls != [] { HistoryGrows(cfg, s, calls[..|calls| - 1]); }
  }

  /** The size is in its bounds, and whatever is reported next moves it by at most one step. */
  ghost predicate Controlled(cfg: Config, s: State) {
    cfg.minSize <= s.size <= cfg.maxSize && forall c :: s.size - cfg.step <= Next(cfg, s, c).size <= s.size + cfg.step
  }

  lemma StepIsControlled(cfg: Config, s: State)
    requires cfg.Sensible() && (cfg.StepFits() || !cfg.CanMove()) && cfg.minSize <= s.size <= cfg.maxSize
    ensures Controlled(cfg, s) && forall c :: cfg.minSize <= Next(cfg, s, c).size <= cfg.maxSize
  {
    forall c
      ensures s.size - cfg.step <= Next(cfg, s, c).size <= s.size + cfg.step
      ensures cfg.minSize <= Next(cfg, s, c).size <= cfg.maxSize
    {
      if cfg.bufferSize == 1 { OneSample(cfg, s, c); }
    }
  }

  /** The average of a single sample is that sample. */
  lemma OneSample(cfg: Config, s: State, c: Call)
    requires cfg.bufferSize == 1
    ensures !Adjusts(cfg, s, c)
  {
    assert Samples(cfg, s, c) == [c.response];
    RepeatedAverageExactly([c.response], c.response);
  }

  lemma {:induction false} RunIsControlled(cfg: Config, initial: int64, calls: seq<Call>)
    requires cfg.Sensible() && (cfg.StepFits() || !cfg.CanMove())
    ensures Controlled(cfg, Run(cfg, Start(cfg, initial), calls))
    decreases |calls|
  {
    if calls == [] {
      StepIsControlled(cfg, Start(cfg, initial));
    } else {
      var front := calls[..|calls| - 1];
      RunIsControlled(cfg, initial, front);
      StepIsControlled(cfg, Run(cfg, Start(cfg, initial), front));
      StepIsControlled(cfg, Run(cfg, Start(cfg, initial), calls));
    }
  }

  /** The size stays in its bounds and moves by at most one step, for all initial sizes and all runs, if
      and only if no step leaves the 64-bit integers or nothing can move at all. */
  lemma SizeStaysInBoundsExactly(cfg: Config)
    requires cfg.Sensible()
    ensures (forall initial: int64, calls :: Controlled(cfg, Run(cfg, Start(cfg, initial), calls)))
        <==> cfg.StepFits() || !cfg.CanMove()
  {
    if cfg.StepFits() || !cfg.CanMove() {
      forall initial: int64, calls ensures Controlled(cfg, Run(cfg, Start(cfg, initial), calls)) {
        RunIsControlled(cfg, initial, calls);
      }
    } else if cfg.minSize + 1 - cfg.step < MIN_INT64 {
      var initial: int64 := cfg.minSize + 1;
      StepDownWraps(cfg, initial);
    } else {
      var initial: int64 := cfg.maxSize - 1;
      StepUpWraps(cfg, initial);
    }
  }

  /** The report `first` and then n - 1 times zero: too few to fill the buffer. */
  function Idle(first: int64, n: nat): seq<Call> {
    seq(n, i => Call(if i == 0 then first else 0, 0, 0))
  }

  lemma {:induction false} IdleRuns(cfg: Config, initial: int64, first: int64, n: nat)
    requires n < cfg.bufferSize
    ensures var s := Run(cfg, Start(cfg, initial), Idle(first, n));
            && s.size == Start(cfg, initial).size && s.lastAdjust.None?
            && s.history == seq(n, i => if i == 0 then first else 0)
  {
    if n > 0 {
      IdleRuns(cfg, initial, first, n - 1);
      assert Idle(first, n)[..n - 1] == Idle(first, n - 1);
    }
  }

  /** A window that starts with `first`, ends with `last` and is zero between. */
  lemma SumOfEnds(w: seq<int64>, first: int64, last: int64)
    requires |w| >= 2 && w[0] == first && w[|w| - 1] == last && forall i | 0 < i < |w| - 1 :: w[i] == 0
    ensures Sum(w) == first + last
  {
    var middle := w[1..|w| - 1];
    assert w[1..] == middle + [last];
    SumAppend(middle, last);
    SumRepeated(middle, 0);
    SumHead(w);
  }

  /** The report that fills the buffer, after an idle start. */
  lemma FullAtLast(cfg: Config, initial: int64, first: int64, last: int64)
    requires 2 <= cfg.bufferSize <= MAX_INT64 && MIN_INT64 <= first + last <= MAX_INT64
    ensures var s := Run(cfg, Start(cfg, initial), Idle(first, cfg.bufferSize - 1));
            && s.size == Start(cfg, initial).size && s.lastAdjust.None?
            && |Samples(cfg, s, Call(last, 0, 0))| == cfg.bufferSize
            && Average(Samples(cfg, s, Call(last, 0, 0))) == TruncDiv(first + last, cfg.bufferSize)
  {
    var n := cfg.bufferSize;
    IdleRuns(cfg, initial, first, n - 1);
    var s := Run(cfg, Start(cfg, initial), Idle(first, n - 1));
    var w := Samples(cfg, s, Call(last, 0, 0));
    assert w == s.history + [last];
    SumOfEnds(w, first, last);
  }

  /** The new size in a state that has never adjusted, when the buffer is full. */
  lemma FirstAdjustment(cfg: Config, s: State, c: Call)
    requires s.lastAdjust.None? && |Samples(cfg, s, c)| >= cfg.bufferSize && cfg.minSize < cfg.maxSize
    ensures c.response > Average(Samples(cfg, s, c)) && s.size > cfg.minSize ==>
              Next(cfg, s, c).size == Max(Wrap64(s.size - cfg.step), cfg.minSize)
    ensures c.response < Average(Samples(cfg, s, c)) && s.size < cfg.maxSize ==>
              Next(cfg, s, c).size == Min(Wrap64(s.size + cfg.step), cfg.maxSize)
  {
    hide Average, Samples;
  }

  /** A step that leaves the 64-bit integers lands more than a step away on the other side. */
  lemma WrappedStepJumps(size: int64, step: int64, bound: int64)
    requires step >= 0
    ensures size - step < MIN_INT64 ==> Max(Wrap64(size - step), bound) > size + step
    ensures size + step > MAX_INT64 ==> Min(Wrap64(size + step), bound) < size - step
  {
  }

  /** Where a step does not fit, the size jumps to the other side. */
  lemma StepWraps(cfg: Config, s: State, c: Call)
    requires cfg.Sensible() && cfg.CanMove() && s.lastAdjust.None? && |Samples(cfg, s, c)| >= cfg.bufferSize
    requires || (c.response > Average(Samples(cfg, s, c)) && s.size > cfg.minSize && s.size - cfg.step < MIN_INT64)
             || (c.response < Average(Samples(cfg, s, c)) && s.size < cfg.maxSize && s.size + cfg.step > MAX_INT64)
    ensures !Controlled(cfg, s)
  {
    hide Average, Samples, Next, Wrap64, Max, Min;
    WrappedStepJumps(s.size, cfg.step, if c.response > Average(Samples(cfg, s, c)) then cfg.minSize else cfg.maxSize);
    FirstAdjustment(cfg, s, c);
    assert !(s.size - cfg.step <= Next(cfg, s, c).size <= s.size + cfg.step);
  }

  /** With min + 1 as the initial size, zeros and then 2. */
  lemma StepDownWraps(cfg: Config, initial: int64)
    requires cfg.Sensible() && cfg.CanMove() && cfg.minSize + 1 - cfg.step < MIN_INT64 && initial == cfg.minSize + 1
    ensures !Controlled(cfg, Run(cfg, Start(cfg, initial), Idle(0, cfg.bufferSize - 1)))
  {
    hide Run, Idle, Average, Samples, Controlled, TruncDiv;
    FullAtLast(cfg, initial, 0, 2);
    AverageIsSmaller(2, cfg.bufferSize);
    StepWraps(cfg, Run(cfg, Start(cfg, initial), Idle(0, cfg.bufferSize - 1)), Call(2, 0, 0));
  }

  /** With max - 1 as the initial size, the length of the buffer and then zeros: the average is 1. */
  lemma StepUpWraps(cfg: Config, initial: int64)
    requires cfg.Sensible() && cfg.CanMove() && cfg.maxSize - 1 + cfg.step > MAX_INT64 && initial == cfg.maxSize - 1
    ensures !Controlled(cfg, Run(cfg, Start(cfg, initial), Idle(cfg.bufferSize, cfg.bufferSize - 1)))
  {
    hide Run, Idle, Average, Samples, Controlled, TruncDiv;
    FullAtLast(cfg, initial, cfg.bufferSize, 0);
    ExactQuotient(cfg.bufferSize, 1);
    assert cfg.bufferSize * 1 == cfg.bufferSize + 0;
    StepWraps(cfg, Run(cfg, Start(cfg, initial), Idle(cfg.bufferSize, cfg.bufferSize - 1)), Call(0, 0, 0));
  }

  lemma AverageIsSmaller(d: nat, n: nat)
    requires d > 0 && n >= 2
    ensures TruncDiv(d, n) < d
  {
    if d / n >= d { MulAtLeast(n, d, d / n); MulAtLeast(d, 2, n); }
  }

  /** Nothing moves before the buffer has been filled once. */
  lemma NoMoveBeforeFull(cfg: Config, initial: int64, calls: seq<Call>, c: Call)
    requires |calls| + 1 < cfg.bufferSize
    ensures Next(cfg, Run(cfg, Start(cfg, initial), calls), c).size == Run(cfg, Start(cfg, initial), calls).size
  {
    HistoryGrows(cfg, Start(cfg, initial), calls);
  }

  /** The clock does not go back from one call to the next, nor within a call. */
  ghost predicate Ordered(calls: seq<Call>) {
    && (forall i | 0 <= i < |calls| :: calls[i].now <= calls[i].stamp)
    && (forall i, j | 0 <= i < j < |calls| :: calls[i].stamp <= calls[j].now)
  }

  predicate AdjustsAt(cfg: Config, s: State, calls: seq<Call>, i: nat)
    requires i < |calls|
  {
    Adjusts(cfg, Run(cfg, s, calls[..i]), calls[i])
  }

  lemma StampStep(cfg: Config, s: State, c: Call)
    ensures Next(cfg, s, c).lastAdjust == if Adjusts(cfg, s, c) then Some(c.stamp) else s.lastAdjust
    ensures Adjusts(cfg, s, c) ==> !Cooling(cfg, s, c)
  {
  }

  /** After an adjustment the remembered stamp is that one or a later one. */
  lemma {:induction false} StampsGrow(cfg: Config, s: State, calls: seq<Call>, i: nat)
    requires Ordered(calls) && i < |calls| && AdjustsAt(cfg, s, calls, i)
    ensures Run(cfg, s, calls).lastAdjust.Some?
    ensures calls[i].stamp <= Run(cfg, s, calls).lastAdjust.value
    decreases |calls|
  {
    hide Next, Adjusts;
    var last := |calls| - 1;
    var front := calls[..last];
    StampStep(cfg, Run(cfg, s, front), calls[last]);
    if i < last {
      assert front[..i] == calls[..i];
      StampsGrow(cfg, s, front, i);
    } else {
      assert front == calls[..i];
    }
  }

  /** Any two adjustments of a run, however far apart, are separated by the cooldown. */
  lemma AdjustmentsAreSpaced(cfg: Config, s: State, calls: seq<Call>, i: nat, j: nat)
    requires Ordered(calls) && i < j < |calls| && AdjustsAt(cfg, s, calls, i) && AdjustsAt(cfg, s, calls, j)
    ensures calls[j].now - calls[i].stamp >= cfg.cooldown
  {
    hide Next, Adjusts;
    var before := calls[..j];
    assert before[..i] == calls[..i];
    StampsGrow(cfg, s, before, i);
    StampStep(cfg, Run(cfg, s, before), calls[j]);
  }

  /** The remembered stamp is that of the latest adjustment of the run; none is remembered if there was
      none. */
  lemma {:induction false} LatestAdjustment(cfg: Config, initial: int64, calls: seq<Call>) returns (i: int)
    ensures var last := Run(cfg, Start(cfg, initial), calls).lastAdjust;
            && -1 <= i < |calls|
            && (i >= 0 ==> AdjustsAt(cfg, Start(cfg, initial), calls, i) && last == Some(calls[i].stamp))
            && (i == -1 ==> last == None)
    ensures forall j | i < j < |calls| :: !AdjustsAt(cfg, Start(cfg, initial), calls, j)
    decreases |calls|
  {
    hide Next, Adjusts;
    i := -1;
    if calls != [] {
      var front, last := calls[..|calls| - 1], calls[|calls| - 1];
      assert forall j | 0 <= j < |front| :: front[..j] == calls[..j];
      assert forall j | 0 <= j < |front| :: AdjustsAt(cfg, Start(cfg, initial), front, j) == AdjustsAt(cfg, Start(cfg, initial), calls, j);
      i := LatestAdjustment(cfg, initial, front);
      StampStep(cfg, Run(cfg, Start(cfg, initial), front), last);
      if AdjustsAt(cfg, Start(cfg, initial), calls, |front|) { i := |front|; }
    }
  }

  /** The cooldown is over: no adjustment yet, or the latest is at least the cooldown ago. */
  predicate CooledDown(cfg: Config, s: State, now: int) {
    match s.lastAdjust
    case None => true
    case Some(stamp) => now >= stamp + cfg.cooldown
  }

  /** Which way the size moves: with a full buffer, once the cooldown is over, and with a step, it gets
      smaller exactly for a response above the average unless it is at its minimum, and larger exactly
      for one below unless it is at its maximum; by the step, or to the bound. */
  lemma MovesExactly(cfg: Config, s: State, c: Call)
    requires cfg.Sensible() && cfg.StepFits() && cfg.minSize <= s.size <= cfg.maxSize
    ensures var w := Window(s.history + [c.response], cfg.bufferSize);
            var full, avg, after := |w| >= cfg.bufferSize && CooledDown(cfg, s, c.now), Average(w), Next(cfg, s, c);
            && (after.size < s.size <==> full && c.response > avg && s.size > cfg.minSize && cfg.step > 0)
            && (after.size > s.size <==> full && c.response < avg && s.size < cfg.maxSize && cfg.step > 0)
            && (after.size < s.size ==> after.size == s.size - cfg.step || (after.size == cfg.minSize && s.size - cfg.step < cfg.minSize))
            && (after.size > s.size ==> after.size == s.size + cfg.step || (after.size == cfg.maxSize && s.size + cfg.step > cfg.maxSize))
            && (after.lastAdjust != s.lastAdjust ==> after.lastAdjust == Some(c.stamp))
            && (after.size != s.size ==> after.lastAdjust == Some(c.stamp))
  {
    hide Average, Window;
  }

  /** A full buffer of one repeated value never moves the size, provided its sum fits an int64; where
      the sum wraps, and a bound and the cooldown permit, the size moves if and only if there is a step. */
  lemma RepeatedValueIsStill(cfg: Config, s: State, c: Call)
    requires cfg.Sensible() && |Samples(cfg, s, c)| == cfg.bufferSize
    requires forall x | x in Samples(cfg, s, c) :: x == c.response
    ensures var fits := MIN_INT64 <= cfg.bufferSize * c.response <= MAX_INT64;
            && (fits ==> !Adjusts(cfg, s, c) && Next(cfg, s, c).size == s.size)
            && (!fits && !Cooling(cfg, s, c) && cfg.minSize < s.size < cfg.maxSize
                ==> Adjusts(cfg, s, c) && (Next(cfg, s, c).size != s.size <==> cfg.step > 0))
  {
    var w := Samples(cfg, s, c);
    assert forall i | 0 <= i < |w| :: w[i] in w;
    RepeatedAverageExactly(w, c.response);
    hide Average, Samples, Cooling;
  }

  // ----- the adjuster object -----

  class RingBufferAdjuster {
    const timeBuffer: TimeDurationRingBuffer
    const minBatchSize: int64
    const maxBatchSize: int64
    const adjustStep: int64
    const cooldownPeriod: int
    var batchSize: int64
    var lastAdjustTime: Option<int>

    ghost function Cfg(): Config { Config(minBatchSize, maxBatchSize, adjustStep, cooldownPeriod, timeBuffer.capacity) }

    ghost function Abstract(): State reads this, timeBuffer { State(batchSize, lastAdjustTime, timeBuffer.history) }

    ghost predicate Valid() reads this, timeBuffer, timeBuffer.buffer { timeBuffer.Valid() }

    constructor (initialSize: int64, minSize: int64, maxSize: int64, adjustStep: int64, cooldownPeriod: int, bufferSize: int)
      ensures Valid() && fresh(timeBuffer) && fresh(timeBuffer.buffer)
      ensures Cfg() == Config(minSize, maxSize, adjustStep, cooldownPeriod, if bufferSize <= 0 then 128 else bufferSize)
      ensures Abstract() == Start(Cfg(), initialSize)
    {
      var size := initialSize;
      if size < minSize { size := minSize; }
      if size > maxSize { size := maxSize; }
      timeBuffer := new TimeDurationRingBuffer(if bufferSize <= 0 then DEFAULT_BUFFER else bufferSize);
      minBatchSize, maxBatchSize, this.adjustStep, this.cooldownPeriod := minSize, maxSize, adjustStep, cooldownPeriod;
      batchSize, lastAdjustTime := size, None;
    }

    /** `now` and `stamp` are the two readings of the clock. */
    method Adjust(responseTime: int64, now: int, stamp: int) returns (size: int64)
      requires Valid()
      modifies this, timeBuffer, timeBuffer.buffer
      ensures Valid() && Abstract() == Next(Cfg(), old(Abstract()), Call(responseTime, now, stamp)) && size == batchSize
    {
      timeBuffer.Add(responseTime);
      var len := timeBuffer.Len();
      if len < timeBuffer.capacity {
        return batchSize;
      }
      if lastAdjustTime.Some? && now - lastAdjustTime.value < cooldownPeriod {
        return batchSize;
      }
      var avgTime := timeBuffer.Avg();
      if responseTime > avgTime {
        if batchSize > minBatchSize {
          batchSize := Max(Wrap64(batchSize - adjustStep), minBatchSize);
          lastAdjustTime := Some(stamp);
        }
      } else if responseTime < avgTime {
        if batchSize < maxBatchSize {
          batchSize := Min(Wrap64(batchSize + adjustStep), maxBatchSize);
          lastAdjustTime := Some(stamp);
        }
      }
      return batchSize;
    }
  }
}

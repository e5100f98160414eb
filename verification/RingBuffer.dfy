/**
 The duration ring buffer: a running sum in wrapping int64 over the last `capacity` samples.
 */
module RingBuffer {
  import opened GoInt
  import opened SlidingWindow
  import opened Wrappers

  function Sum(s: seq<int64>): int {
    if s == [] then 0 else s[0] + Sum(s[1..])
  }

  lemma {:induction false} SumAppend(s: seq<int64>, x: int64)
    ensures Sum(s + [x]) == Sum(s) + x
    decreases |s|
  {
    if s == [] {
      assert s + [x] == [x];
    } else {
      assert (s + [x])[1..] == s[1..] + [x];
      SumAppend(s[1..], x);
    }
  }

  /** The average the buffer reports for a window. */
  function Average(w: seq<int64>): int {
    if w == [] then 0 else TruncDiv(Wrap64(Sum(w)), |w|)
  }

  /** The running sum may wrap and come back: what matters is only the sum of the window itself.  The
      average is rounded toward zero. */
  lemma AverageIsExact(w: seq<int64>)
    requires w != [] && MIN_INT64 <= Sum(w) <= MAX_INT64
    ensures Average(w) == TruncDiv(Sum(w), |w|)
    ensures -(|w| as int) < Sum(w) - |w| * Average(w) < |w|
    ensures if Sum(w) >= 0 then Sum(w) - |w| * Average(w) >= 0 else Sum(w) - |w| * Average(w) <= 0
  {
    TruncNear(Sum(w), |w|);
  }

  lemma TruncNear(a: int, n: int)
    requires n > 0
    ensures -n < a - n * TruncDiv(a, n) < n
    ensures if a >= 0 then a - n * TruncDiv(a, n) >= 0 else a - n * TruncDiv(a, n) <= 0
  {
    if a >= 0 {
      assert a == n * (a / n) + a % n;
    } else {
      assert -a == n * (-a / n) + (-a) % n;
      assert n * -(-a / n) == -(n * (-a / n));
    }
  }

  lemma {:induction false} SumRepeated(w: seq<int64>, d: int64)
    requires forall i | 0 <= i < |w| :: w[i] == d
    ensures Sum(w) == |w| * d
    decreases |w|
  {
    if w != [] {
      SumRepeated(w[1..], d);
      assert |w| * d == (|w| - 1) * d + d;
    }
  }

  /** Of one repeated value the average is that value exactly when the sum fits an int64. */
  lemma RepeatedAverageExactly(w: seq<int64>, d: int64)
    requires w != [] && |w| <= MAX_INT64 && forall i | 0 <= i < |w| :: w[i] == d
    ensures Average(w) == d <==> MIN_INT64 <= |w| * d <= MAX_INT64
  {
    var n: int := |w|;
    SumRepeated(w, d);
    if MIN_INT64 <= n * d <= MAX_INT64 {
      ExactQuotient(n, d);
    } else {
      WrapCongruent(n * d);
      QuotientGap(n, d, Wrap64(n * d));
    }
  }

  lemma ExactQuotient(n: int, d: int)
    requires n > 0
    ensures TruncDiv(n * d, n) == d
  {
    if n * d >= 0 {
      DivModUnique(n * d, n, d, 0);
    } else {
      assert -(n * d) == n * -d;
      DivModUnique(n * -d, n, -d, 0);
    }
  }

  lemma QuotientGap(n: int, d: int, w: int64)
    requires 0 < n <= MAX_INT64 && w != n * d && (n * d - w) % TWO_64 == 0
    ensures TruncDiv(w, n) != d
  {
    TruncNear(w, n);
  }

  class TimeDurationRingBuffer {
    const buffer: array<int64>
    const capacity: nat
    var index: nat
    var count: nat
    var sum: int64
    ghost var history: seq<int64>

    /** The buffer holds the last min(n, capacity) of the n samples added since it was cleared, and
        `sum` is their sum modulo 2^64. */
    ghost predicate Valid() reads this, buffer {
      && 0 < capacity == buffer.Length
      && Represents(buffer[..], index, count == capacity, history)
      && count == |Window(history, capacity)|
      && sum == Wrap64(Sum(Window(history, capacity)))
    }

    constructor (capacity: nat)
      requires capacity > 0
      ensures Valid() && fresh(buffer) && this.capacity == capacity && history == []
    {
      buffer := new int64[capacity](_ => 0);
      this.capacity := capacity;
      index, count, sum, history := 0, 0, 0, [];
    }

    method Add(d: int64)
      requires Valid()
      modifies this, buffer
      ensures Valid() && history == old(history) + [d]
    {
      hide Wrap64, Represents, Window, Sum;
      ghost var w := Window(history, capacity);
      RepresentsStep(buffer[..], index, count == capacity, history, d);
      WindowLength(buffer[..], index, count == capacity, history);
      NextIndex(index, capacity);
      if count == capacity { SumSlides(w, d); } else { SumGrows(w, d); }
      if count == capacity {
        sum := Wrap64(sum - buffer[index]);
      } else {
        count := count + 1;
      }
      buffer[index] := d;
      sum := Wrap64(sum + d);
      index := (index + 1) % capacity;
      history := history + [d];
      assert buffer[..] == old(buffer[..])[old(index) := d];
    }

    method Avg() returns (avg: int)
      requires Valid()
      ensures avg == Average(Window(history, capacity))
    {
      if count == 0 {
        return 0;
      }
      return TruncDiv(sum, count);
    }

    method Len() returns (n: nat)
      requires Valid()
      ensures n == Min(|history|, capacity)
    {
      return count;
    }

    method Clear()
      requires Valid()
      modifies this, buffer
      ensures Valid() && history == []
    {
      for i := 0 to buffer.Length {
        buffer[i] := 0;
      }
      count, sum, index, history := 0, 0, 0, [];
    }
  }

  /** `NewTimeDurationRingBuffer`: a capacity that is not positive is an error. */
  method NewTimeDurationRingBuffer(capacity: int) returns (buffer: Option<TimeDurationRingBuffer>)
    ensures buffer.Some? <==> capacity > 0
    ensures buffer.Some? ==> buffer.value.Valid() && fresh(buffer.value) && fresh(buffer.value.buffer)
                             && buffer.value.capacity == capacity && buffer.value.history == []
  {
    if capacity <= 0 {
      return None;
    }
    var r := new TimeDurationRingBuffer(capacity);
    return Some(r);
  }

  lemma NextIndex(index: nat, capacity: nat)
    requires index < capacity
    ensures (index + 1) % capacity == if index + 1 == capacity then 0 else index + 1
  {
    if index + 1 == capacity { DivModUnique(index + 1, capacity, 1, 0); } else { DivModUnique(index + 1, capacity, 0, index + 1); }
  }

  /** Wrapping at every step gives the wrapped sum of the window, whether it grows or slides. */
  lemma SumGrows(w: seq<int64>, d: int64)
    ensures Wrap64(Wrap64(Sum(w)) + d) == Wrap64(Sum(w + [d]))
  {
    SumAppend(w, d);
    WrapAdds(Sum(w), d);
  }

  lemma SumSlides(w: seq<int64>, d: int64)
    requires w != []
    ensures Wrap64(Wrap64(Wrap64(Sum(w)) - w[0]) + d) == Wrap64(Sum(w[1..] + [d]))
  {
    hide *;
    SumHead(w);
    SumAppend(w[1..], d);
    WrapSlides(Sum(w), w[0], d);
    assert Sum(w[1..] + [d]) == Sum(w) - w[0] + d;
  }

  lemma SumHead(w: seq<int64>)
    requires w != []
    ensures Sum(w) == w[0] + Sum(w[1..])
  {
  }
}

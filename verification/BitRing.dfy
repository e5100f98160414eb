/**
 The packed-bit sliding window.  Events are kept as bits of 64-bit words, written round and round;
 the specification is the list of all events so far and its last min(n, size) elements.
 */
module BitRing {
  import opened GoInt
  import opened SlidingWindow

  const DEFAULT_SIZE: nat := 128
  const DEFAULT_CONSECUTIVE: nat := 3

  // ----- one word: an int64 as its bit pattern -----

  /** `w >> off` on an int64: the sign bit is copied down. */
  function ShiftRight(w: bv64, off: bv6): bv64 {
    if w & 0x8000_0000_0000_0000 == 0 then w >> off else !((!w) >> off)
  }

  /** `(w >> off) & 1 == 1`. */
  function BitOf(w: bv64, off: bv6): bool { ShiftRight(w, off) & 1 == 1 }

  /** `w |= 1 << off` or `w &^= 1 << off`. */
  function WithBit(w: bv64, off: bv6, val: bool): bv64 {
    if val then w | (1 << off) else w & !(1 << off)
  }

  /** A bit of the complement; the cases keep the shift distances apart for the solver. */
  lemma ComplementBit(w: bv64, j: bv6)
    ensures ((!w) >> j) & 1 == 0 <==> (w >> j) & 1 == 1
  {
    if j < 8 {} else if j < 16 {} else if j < 24 {} else if j < 32 {}
    else if j < 40 {} else if j < 48 {} else if j < 56 {} else {}
  }

  lemma OddOrEven(x: bv64)
    ensures x & 1 == 0 || x & 1 == 1
    ensures (!x) & 1 == 1 <==> x & 1 == 0
  {
  }

  /** The bit as a logical shift would show it. */
  function LogicalBit(w: bv64, j: bv6): bool { (w >> j) & 1 == 1 }

  /** The arithmetic shift shows the same bit as the logical one. */
  lemma ArithmeticIsLogical(w: bv64, j: bv6)
    ensures BitOf(w, j) == LogicalBit(w, j)
  {
    ComplementBit(w, j);
    OddOrEven((!w) >> j);
  }

  lemma SetSame(w: bv64, i: bv6)
    ensures LogicalBit(WithBit(w, i, true), i)
  {
  }

  lemma SetOther(w: bv64, i: bv6, j: bv6)
    requires i != j
    ensures LogicalBit(WithBit(w, i, true), j) == LogicalBit(w, j)
  {
    if j < 8 {} else if j < 16 {} else if j < 24 {} else if j < 32 {}
    else if j < 40 {} else if j < 48 {} else if j < 56 {} else {}
  }

  lemma ClearSame(w: bv64, i: bv6)
    ensures !LogicalBit(WithBit(w, i, false), i)
  {
  }

  lemma ClearOther(w: bv64, i: bv6, j: bv6)
    requires i != j
    ensures LogicalBit(WithBit(w, i, false), j) == LogicalBit(w, j)
  {
    if j < 8 {} else if j < 16 {} else if j < 24 {} else if j < 32 {}
    else if j < 40 {} else if j < 48 {} else if j < 56 {} else {}
  }

  /** Writing a bit and reading it back, and reading any other bit, for all 64 offsets: bit 63, the
      sign, behaves like the rest. */
  lemma WriteThenRead(w: bv64, i: bv6, val: bool, j: bv6)
    ensures BitOf(WithBit(w, i, val), j) == if i == j then val else BitOf(w, j)
  {
    hide *;
    ArithmeticIsLogical(w, j);
    ArithmeticIsLogical(WithBit(w, i, val), j);
    if val {
      if i == j { SetSame(w, i); } else { SetOther(w, i, j); }
    } else {
      if i == j { ClearSame(w, i); } else { ClearOther(w, i, j); }
    }
  }

  /** Distinct positions of a word are distinct offsets. */
  lemma OffsetsDiffer(a: nat, b: nat)
    requires a < 64 && b < 64 && a != b
    ensures a as bv6 != b as bv6
  {
    OffsetValue(a);
    OffsetValue(b);
  }

  lemma OffsetValue(a: nat)
    requires a < 64
    ensures (a as bv6) as int == a
  {
  }

  // ----- the specification: a list -----

  function CountTrue(s: seq<bool>): nat {
    if s == [] then 0 else (if s[0] then 1 else 0) + CountTrue(s[1..])
  }

  lemma {:induction false} CountAppend(s: seq<bool>, x: bool)
    ensures CountTrue(s + [x]) == CountTrue(s) + if x then 1 else 0
    decreases |s|
  {
    if s == [] {
      assert s + [x] == [x];
    } else {
      assert (s + [x])[1..] == s[1..] + [x];
      CountAppend(s[1..], x);
    }
  }

  /** The nearest float64 of a quotient: any function will do. */
  type Rounding = real -> real

  /** The condition on a list: its last `consecutive` events all happened, or its rounded rate is above
      the threshold.  An empty list never meets it. */
  predicate Met(w: seq<bool>, consecutive: nat, threshold: real, round: Rounding) {
    w != [] &&
    ((|w| >= consecutive && forall i | |w| - consecutive <= i < |w| :: w[i])
     || round(Rate(w)) > threshold)
  }

  function Rate(w: seq<bool>): real
    requires w != []
  {
    CountTrue(w) as real / |w| as real
  }

  /** Rounding keeps the order, and a threshold is a float64 itself. */
  ghost predicate Rounds(round: Rounding, threshold: real) {
    round(threshold) == threshold && forall x, y | x <= y :: round(x) <= round(y)
  }

  /** What rounding does to the condition: it never adds a case, and it loses one exactly if the true
      rate is above the threshold but rounds to it, and the last events did not all happen. */
  lemma RoundingLosesExactly(w: seq<bool>, consecutive: nat, threshold: real, round: Rounding)
    requires w != [] && Rounds(round, threshold)
    ensures Met(w, consecutive, threshold, round) ==> Met(w, consecutive, threshold, x => x)
    ensures !Met(w, consecutive, threshold, round) && Met(w, consecutive, threshold, x => x)
        <==> Rate(w) > threshold == round(Rate(w)) && !(|w| >= consecutive && forall i | |w| - consecutive <= i < |w| :: w[i])
  {
    hide Rate;
    if Rate(w) <= threshold { assert round(Rate(w)) <= round(threshold); } else { assert round(threshold) <= round(Rate(w)); }
  }

  predicate LastHappened(w: seq<bool>, consecutive: nat) {
    |w| >= consecutive && CountTrue(w[|w| - consecutive..]) == consecutive
  }

  lemma {:induction false} CountBounds(s: seq<bool>)
    ensures CountTrue(s) <= |s| && (CountTrue(s) == |s| <==> forall i | 0 <= i < |s| :: s[i])
  {
    if s != [] {
      CountBounds(s[1..]);
      assert (forall i | 0 <= i < |s| :: s[i]) <==> s[0] && forall i | 0 <= i < |s[1..]| :: s[1..][i] by {
        assert forall i | 0 < i < |s| :: s[i] == s[1..][i - 1];
      }
    }
  }

  lemma LastHappenedMeans(w: seq<bool>, consecutive: nat)
    ensures LastHappened(w, consecutive) <==> |w| >= consecutive && forall i | |w| - consecutive <= i < |w| :: w[i]
  {
    if |w| >= consecutive {
      var last := w[|w| - consecutive..];
      CountBounds(last);
      assert forall i | 0 <= i < consecutive :: last[i] == w[|w| - consecutive + i];
      assert forall i | |w| - consecutive <= i < |w| :: w[i] == last[i - (|w| - consecutive)];
    }
  }

  /** The condition without division: with exact rates it holds if and only if all of the last
      `consecutive` events happened, or more than the threshold times the window did. */
  lemma ConditionExactly(w: seq<bool>, consecutive: nat, threshold: real)
    requires w != []
    ensures Met(w, consecutive, threshold, x => x)
        <==> LastHappened(w, consecutive) || CountTrue(w) as real > threshold * |w| as real
  {
    hide CountTrue, LastHappened;
    LastHappenedMeans(w, consecutive);
    QuotientAbove(CountTrue(w) as real, |w| as real, threshold);
  }

  lemma QuotientAbove(a: real, n: real, t: real)
    requires n > 0.0
    ensures a / n > t <==> a > t * n
  {
    assert (a / n) * n == a;
  }

  lemma {:induction false} CountTurned(w: seq<bool>, i: nat)
    requires i < |w|
    ensures CountTrue(w[i := true]) >= CountTrue(w)
  {
    if i > 0 {
      CountTurned(w[1..], i - 1);
      assert w[i := true][1..] == w[1..][i - 1 := true];
    } else {
      assert w[i := true][1..] == w[1..];
    }
  }

  /** One more event that happened never takes the condition away, however rates are rounded. */
  lemma MoreEventsKeepCondition(w: seq<bool>, i: nat, consecutive: nat, threshold: real, round: Rounding)
    requires i < |w| && Rounds(round, threshold) && Met(w, consecutive, threshold, round)
    ensures Met(w[i := true], consecutive, threshold, round)
  {
    var more := w[i := true];
    CountTurned(w, i);
    QuotientGrows(CountTrue(w) as real, CountTrue(more) as real, |w| as real);
    assert round(Rate(w)) <= round(Rate(more));
  }

  lemma QuotientGrows(a: real, b: real, n: real)
    requires n > 0.0 && a <= b
    ensures a / n <= b / n
  {
    assert (a / n) * n == a && (b / n) * n == b;
  }

  /** The number of true events moves with the window. */
  lemma CountSlides(events: seq<bool>, size: nat, x: bool)
    requires size > 0
    ensures var w := Window(events, size);
            CountTrue(Window(events + [x], size))
            == CountTrue(w) - (if |events| >= size && w[0] then 1 else 0) + (if x then 1 else 0)
  {
    var w := Window(events, size);
    WindowSlides(events, size, x);
    CountAppend(if |events| < size then w else w[1..], x);
  }

  /** Position of the i-th latest event, as the code computes it. */
  function Back(pos: nat, i: nat, size: nat): nat
    requires pos < size && 1 <= i <= size
  {
    (pos - i + size) % size
  }

  lemma BackIs(pos: nat, i: nat, size: nat)
    requires pos < size && 1 <= i <= size
    ensures Back(pos, i, size) == Wrapped(pos, size - i, size)
  {
    var x := pos - i + size;
    if x >= size { DivModUnique(x, size, 1, x - size); } else { DivModUnique(x, size, 0, x); }
  }

  lemma BitCountStep(bits: seq<bool>, pos: nat, filled: bool, events: seq<bool>, x: bool)
    requires Represents(bits, pos, filled, events)
    ensures pos < |bits|
    ensures CountTrue(Window(events + [x], |bits|))
         == CountTrue(Window(events, |bits|)) - (if filled && bits[pos] then 1 else 0) + (if x then 1 else 0)
  {
    CountSlides(events, |bits|, x);
    RepresentsStep(bits, pos, filled, events, x);
  }

  // ----- the ring -----

  class BitRing {
    const words: array<bv64>
    const size: nat
    const threshold: real
    const consecutive: nat
    const round: Rounding
    var pos: nat
    var filled: bool
    var eventCount: int
    ghost var events: seq<bool>

    ghost predicate Shape() {
      0 < size && words.Length == (size + 63) / 64 && 0 < consecutive <= size && 0.0 <= threshold <= 1.0
    }

    predicate BitAt(idx: nat) reads words requires idx / 64 < words.Length {
      BitOf(words[idx / 64], (idx % 64) as bv6)
    }

    ghost function Bits(): seq<bool> reads words requires Shape() {
      seq(size, i requires 0 <= i < size reads words => BitAt(i))
    }

    /** The words hold the last min(n, size) of the n events added, in order; `eventCount` counts the
        true ones among them. */
    ghost predicate Valid() reads this, words {
      && Shape() && Represents(Bits(), pos, filled, events)
      && eventCount == CountTrue(Window(events, size))
    }

    constructor (size: int, threshold: real, consecutive: int, round: Rounding)
      ensures Valid() && events == [] && fresh(words) && this.round == round
      ensures this.size == if size <= 0 then 128 else size
      ensures this.consecutive == Min(if consecutive <= 0 then 3 else consecutive, this.size)
      ensures this.threshold == if threshold < 0.0 then 0.0 else if threshold > 1.0 then 1.0 else threshold
    {
      var n: nat := if size <= 0 then DEFAULT_SIZE else size;
      var c: nat := if consecutive <= 0 then DEFAULT_CONSECUTIVE else consecutive;
      if c > n { c := n; }
      this.size, this.consecutive, this.round := n, c, round;
      this.threshold := if threshold < 0.0 then 0.0 else if threshold > 1.0 then 1.0 else threshold;
      words := new bv64[(n + 63) / 64](_ => 0);
      pos, filled, eventCount, events := 0, false, 0, [];
    }

    method SetBit(idx: nat, val: bool)
      requires Shape() && idx < size
      modifies words
      ensures Bits() == old(Bits())[idx := val]
    {
      hide BitOf, WithBit;
      var word, off := idx / 64, (idx % 64) as bv6;
      words[word] := WithBit(words[word], off, val);
      forall j | 0 <= j < size ensures BitAt(j) == if j == idx then val else old(BitAt(j)) {
        if j / 64 == word {
          WriteThenRead(old(words[word]), off, val, (j % 64) as bv6);
          if j != idx { OffsetsDiffer(j % 64, idx % 64); }
        }
      }
    }

    method Add(eventHappened: bool)
      requires Valid()
      modifies this, words
      ensures Valid() && events == old(events) + [eventHappened]
    {
      hide BitAt, Represents, Window, CountTrue;
      RepresentsStep(Bits(), pos, filled, events, eventHappened);
      BitCountStep(Bits(), pos, filled, events, eventHappened);
      assert Bits()[pos] == BitAt(pos);
      var oldBit := BitAt(pos);
      if filled && oldBit {
        eventCount := eventCount - 1;
      }
      SetBit(pos, eventHappened);
      if eventHappened {
        eventCount := eventCount + 1;
      }
      events := events + [eventHappened];
      pos := pos + 1;
      if pos == size {
        pos := 0;
        filled := true;
      }
    }

    method IsConditionMet() returns (met: bool)
      requires Valid()
      ensures met == Met(Window(events, size), consecutive, threshold, round)
      ensures var w := Window(events, size);
              met <==> w != [] && ((|w| >= consecutive && forall i | |w| - consecutive <= i < |w| :: w[i])
                                   || round(CountTrue(w) as real / |w| as real) > threshold)
    {
      hide BitAt, Back, Represents, Window, CountTrue;
      WindowLength(Bits(), pos, filled, events);
      var window := if filled then size else pos;
      ghost var w := Window(events, size);
      if window == 0 {
        return false;
      }
      if window >= consecutive {
        var allEvents := true;
        var i := 1;
        while i <= consecutive && allEvents
          invariant 1 <= i <= consecutive + 1
          invariant allEvents ==> forall j | window - i < j < window :: w[j]
          invariant !allEvents ==> i <= consecutive && !w[window - i]
          decreases consecutive + 1 - i, allEvents
        {
          LatestAt(Bits(), pos, filled, events, i, w);
          BackIs(pos, i, size);
          var p := Back(pos, i, size);
          assert Bits()[p] == BitAt(p);
          if !BitAt(p) {
            allEvents := false;
          } else {
            i := i + 1;
          }
        }
        if allEvents {
          return true;
        }
      }
      return round(eventCount as real / window as real) > threshold;
    }
  }
}

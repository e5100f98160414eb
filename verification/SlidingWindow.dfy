/**
 A ring of cells written round and round, and the list it stands for: the last min(n, size) of the n
 values written so far, oldest first.
 */
module SlidingWindow {
  function Window<T>(history: seq<T>, size: nat): seq<T> {
    if |history| <= size then history else history[|history| - size..]
  }

  /** A full window slides by one value. */
  lemma WindowSlides<T>(history: seq<T>, size: nat, x: T)
    requires size > 0
    ensures var w, w' := Window(history, size), Window(history + [x], size);
            && (|history| < size ==> w' == w + [x])
            && (|history| >= size ==> |w| == size && w' == w[1..] + [x])
  {
  }

  /** Cell of the k-th oldest value of a full ring whose next write goes to pos. */
  function Wrapped(pos: nat, k: nat, size: nat): (p: nat)
    requires pos < size && k < size
    ensures p < size
  {
    if pos + k < size then pos + k else pos + k - size
  }

  /** The cells hold the window: from cell 0 while the ring fills, and from `pos` on, round and
      round, once it is full. */
  ghost predicate Represents<T>(cells: seq<T>, pos: nat, filled: bool, history: seq<T>) {
    && pos < |cells|
    && (!filled ==> pos == |history| && forall i | 0 <= i < pos :: cells[i] == history[i])
    && (filled ==> |history| >= |cells|
                   && forall k | 0 <= k < |cells| :: cells[Wrapped(pos, k, |cells|)] == Window(history, |cells|)[k])
  }

  /** Overwriting the cell at `pos` and moving on drops the oldest value of a full ring and appends
      the new one. */
  lemma RepresentsStep<T>(cells: seq<T>, pos: nat, filled: bool, history: seq<T>, x: T)
    requires Represents(cells, pos, filled, history)
    ensures var n := |cells|;
            && pos < n
            && Represents(cells[pos := x], if pos + 1 == n then 0 else pos + 1, filled || pos + 1 == n, history + [x])
            && (filled ==> |Window(history, n)| == n && cells[pos] == Window(history, n)[0]
                           && Window(history + [x], n) == Window(history, n)[1..] + [x])
            && (!filled ==> Window(history + [x], n) == Window(history, n) + [x])
  {
    var n, cells' := |cells|, cells[pos := x];
    var pos' := if pos + 1 == n then 0 else pos + 1;
    WindowSlides(history, n, x);
    if filled { assert Wrapped(pos, 0, n) == pos; }
    if filled || pos + 1 == n {
      var w, w' := Window(history, n), Window(history + [x], n);
      forall k | 0 <= k < n ensures cells'[Wrapped(pos', k, n)] == w'[k] {
        if filled && k < n - 1 {
          assert Wrapped(pos', k, n) == Wrapped(pos, k + 1, n) != pos;
          assert w'[k] == w[k + 1];
        }
      }
    }
  }

  lemma WindowLength<T>(cells: seq<T>, pos: nat, filled: bool, history: seq<T>)
    requires Represents(cells, pos, filled, history)
    ensures pos < |cells| && |Window(history, |cells|)| == if filled then |cells| else pos
  {
  }

  /** The i-th latest value sits i cells before the next write. */
  lemma LatestAt<T>(cells: seq<T>, pos: nat, filled: bool, history: seq<T>, i: nat, w: seq<T>)
    requires Represents(cells, pos, filled, history) && w == Window(history, |cells|) && 1 <= i <= |w|
    ensures cells[Wrapped(pos, |cells| - i, |cells|)] == w[|w| - i]
  {
    var k := |cells| - i;
    WindowLength(cells, pos, filled, history);
    if filled {
      assert cells[Wrapped(pos, k, |cells|)] == w[k];
    } else {
      assert Wrapped(pos, k, |cells|) == pos - i && w == history;
    }
  }
}

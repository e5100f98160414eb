/**
 Database health with hysteresis: two resetting counters decide, after any history of pings, what
 the latest three consecutive equal pings say.
 */
module HealthMonitor {
  const DEFAULT_FAIL_COUNT: nat := 3
  const DEFAULT_SUCCESS_COUNT: nat := 3

  /** The pings k-2, k-1 and k exist and agree. */
  predicate Triple(pings: seq<bool>, k: int) {
    2 <= k < |pings| && pings[k - 2] == pings[k - 1] == pings[k]
  }

  ghost predicate LatestTriple(pings: seq<bool>, k: int) {
    Triple(pings, k) && forall j | j > k :: !Triple(pings, j)
  }

  /** Healthy according to the most recent triple; healthy if there was none. */
  ghost predicate Verdict(pings: seq<bool>, health: bool) {
    && ((forall k :: !Triple(pings, k)) ==> health)
    && (forall k | LatestTriple(pings, k) :: health == pings[k])
  }

  /** Length of the run of equal pings at the end. */
  function Trailing(pings: seq<bool>, ok: bool): nat {
    if pings == [] || pings[|pings| - 1] != ok then 0 else 1 + Trailing(pings[..|pings| - 1], ok)
  }

  lemma {:induction false} TrailingMeans(pings: seq<bool>, ok: bool)
    ensures Trailing(pings, ok) <= |pings|
    ensures forall i | |pings| - Trailing(pings, ok) <= i < |pings| :: pings[i] == ok
    ensures Trailing(pings, ok) < |pings| ==> pings[|pings| - 1 - Trailing(pings, ok)] != ok
    decreases |pings|
  {
    if pings != [] { TrailingMeans(pings[..|pings| - 1], ok); }
  }

  lemma {:induction false} LatestExists(pings: seq<bool>, k: int) returns (m: int)
    requires Triple(pings, k)
    ensures LatestTriple(pings, m)
    decreases |pings| - k
  {
    m := k;
    if j: int :| j > k && Triple(pings, j) {
      m := LatestExists(pings, j);
    }
  }

  /** The verdict is unique. */
  lemma VerdictUnique(pings: seq<bool>, a: bool, b: bool)
    requires Verdict(pings, a) && Verdict(pings, b)
    ensures a == b
  {
    if k :| Triple(pings, k) {
      var m := LatestExists(pings, k);
    }
  }

  /** One more ping: the verdict follows the new triple if there is one. */
  lemma VerdictStep(pings: seq<bool>, ok: bool, health: bool)
    requires Verdict(pings, health)
    ensures Verdict(pings + [ok], if Triple(pings + [ok], |pings|) then ok else health)
  {
    var longer := pings + [ok];
    assert forall k: int | k < |pings| :: Triple(longer, k) == Triple(pings, k);
    if Triple(longer, |pings|) {
      assert forall k | LatestTriple(longer, k) :: k == |pings|;
    } else {
      assert forall k: int :: Triple(longer, k) == Triple(pings, k);
      assert forall k | LatestTriple(longer, k) :: LatestTriple(pings, k);
    }
  }

  /** Three equal pings in a row decide, whatever came before; one or two after a different one, or at the
      beginning, change nothing. */
  lemma ThreeInARow(pings: seq<bool>, ok: bool, health: bool)
    requires Verdict(pings, health)
    ensures Verdict(pings + [ok, ok, ok], ok)
    ensures pings == [] || pings[|pings| - 1] != ok ==> Verdict(pings + [ok], health) && Verdict(pings + [ok, ok], health)
  {
    var one, two, three := pings + [ok], pings + [ok, ok], pings + [ok, ok, ok];
    assert two == one + [ok] && three == two + [ok];
    assert Triple(three, |two|);
    assert pings == [] || pings[|pings| - 1] != ok ==> !Triple(one, |pings|) && !Triple(two, |one|);
    hide Triple, Verdict;
    VerdictStep(pings, ok, health);
    var h1 := if Triple(one, |pings|) then ok else health;
    VerdictStep(one, ok, h1);
    VerdictStep(two, ok, if Triple(two, |one|) then ok else h1);
  }

  class Heartbeat {
    var health: bool
    var failCounter: nat
    var successCounter: nat
    ghost var pings: seq<bool>

    /** Health is the verdict on the whole history; each counter is the trailing run of its kind
        modulo three, so both stay below three and at most one is not zero. */
    ghost predicate Valid() reads this {
      && Verdict(pings, health)
      && failCounter == Trailing(pings, false) % 3 && successCounter == Trailing(pings, true) % 3
      && (failCounter == 0 || successCounter == 0)
    }

    constructor ()
      ensures Valid() && health && pings == []
    {
      health, failCounter, successCounter, pings := true, 0, 0, [];
    }

    /** One ping; `ok` is its outcome. */
    method HealthOneLoop(ok: bool)
      requires Valid()
      modifies this
      ensures Valid() && pings == old(pings) + [ok]
    {
      hide Verdict, Trailing, Triple;
      VerdictStep(pings, ok, health);
      TripleIsTrailing(pings, ok);
      TrailingStep(pings, ok);
      pings := pings + [ok];
      if !ok {
        successCounter := 0;
        failCounter := failCounter + 1;
        if failCounter >= DEFAULT_FAIL_COUNT {
          health := false;
          failCounter := 0;
        }
        return;
      }
      failCounter := 0;
      successCounter := successCounter + 1;
      if successCounter >= DEFAULT_SUCCESS_COUNT {
        health := true;
        successCounter := 0;
      }
    }
  }

  lemma TrailingStep(pings: seq<bool>, ok: bool)
    ensures Trailing(pings + [ok], ok) == Trailing(pings, ok) + 1
    ensures Trailing(pings + [ok], !ok) == 0
  {
    assert (pings + [ok])[..|pings|] == pings;
  }

  /** A triple ends at the new ping exactly when the run before it has two or more; inside a longer
      run the verdict already is the run's value. */
  lemma TripleIsTrailing(pings: seq<bool>, ok: bool)
    ensures Triple(pings + [ok], |pings|) <==> Trailing(pings, ok) >= 2
    ensures Trailing(pings, ok) >= 3 ==> forall h: bool | Verdict(pings, h) :: h == ok
  {
    TrailingMeans(pings, ok);
    assert forall i | 0 <= i < |pings| :: (pings + [ok])[i] == pings[i];
    if Trailing(pings, ok) >= 3 {
      assert LatestTriple(pings, |pings| - 1);
    }
  }
}

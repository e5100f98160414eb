/**
 The id generator: 41 bits of timestamp, 10 bits of hash and 12 bits of sequence in an int64.
 */
module Snowflake {
  import opened GoInt
  import opened Words

  const TIMESTAMP_BITS: nat := 41
  const HASH_BITS: nat := 10
  const SEQUENCE_BITS: nat := 12
  const HASH_SHIFT: nat := SEQUENCE_BITS
  const TIMESTAMP_SHIFT: nat := SEQUENCE_BITS + HASH_BITS
  const EPOCH_MILLIS: int := 1704067200000

  // ----- packing -----

  /** `GenerateID` on its three inputs, as the code combines them. */
  function Combine(timestamp: int, hash: int, sequence: int): nat {
    Or(Or(And(ToWord(timestamp), Mask(TIMESTAMP_BITS)) * Pow2(TIMESTAMP_SHIFT),
          And(ToWord(hash), Mask(HASH_BITS)) * Pow2(HASH_SHIFT)),
       And(ToWord(sequence), Mask(SEQUENCE_BITS)))
  }

  /** Arithmetic shift right, then mask. */
  function Field(id: int64, shift: nat, bits: nat): nat {
    And(ToWord(id / Pow2(shift)), Mask(bits))
  }

  function ExtractHashValue(id: int64): nat { Field(id, HASH_SHIFT, HASH_BITS) }

  function ExtractSequence(id: int64): nat { And(ToWord(id), Mask(SEQUENCE_BITS)) }

  function ExtractMillis(id: int64): nat { Field(id, TIMESTAMP_SHIFT, TIMESTAMP_BITS) }

  /** `ExtractTimestamp`, in nanoseconds since 1970. */
  function ExtractNanos(id: int64): int64 { Wrap64((ExtractMillis(id) + EPOCH_MILLIS) * 1_000_000) }

  lemma Powers()
    ensures Pow2(10) == 1024 && Pow2(12) == 4096 && Pow2(22) == 0x40_0000 && Pow2(41) == 0x200_0000_0000
  {
    assert Pow2(10) == 1024;
    assert Pow2(12) == 4 * Pow2(10);
    Pow2Sum(10, 12);
    Pow2Sum(22, 10);
    Pow2Sum(32, 9);
    assert Pow2(9) == 512;
  }

  /** A masked word is the remainder of the number itself, negative or not. */
  lemma MaskedRemainder(x: int, bits: nat)
    requires bits <= 64
    ensures And(ToWord(x), Mask(bits)) == x % Pow2(bits)
  {
    AndMask(ToWord(x), bits);
    Pow2Sum(bits, 64 - bits);
    Pow2Values();
    ModOfMod(x, Pow2(bits), Pow2(64 - bits));
  }

  /** The sum of the three fields in mixed radix. */
  function Sum(t: nat, h: nat, s: nat): nat { t * 0x40_0000 + h * 4096 + s }

  /** The id is the sum of its three fields, and is never negative. */
  lemma CombineIsSum(timestamp: int, hash: int, sequence: int)
    ensures Combine(timestamp, hash, sequence) == Sum(timestamp % 0x200_0000_0000, hash % 1024, sequence % 4096)
    ensures Combine(timestamp, hash, sequence) <= MAX_INT64
  {
    Powers();
    MaskedRemainder(timestamp, 41);
    MaskedRemainder(hash, 10);
    MaskedRemainder(sequence, 12);
    OrFields(timestamp % 0x200_0000_0000, hash % 1024, sequence % 4096);
  }

  lemma OrFields(t: nat, h: nat, s: nat)
    requires t < 0x200_0000_0000 && h < 1024 && s < 4096
    ensures Or(Or(t * Pow2(22), h * Pow2(12)), s) == Sum(t, h, s) <= MAX_INT64
  {
    Powers();
    OrShifted(t, h * 4096, 22);
    OrShifted(t * 1024 + h, s, 12);
  }

  lemma FieldsOfSum(t: nat, h: nat, s: nat)
    requires t < 0x200_0000_0000 && h < 1024 && s < 4096
    ensures Sum(t, h, s) / 0x40_0000 == t && (Sum(t, h, s) / 4096) % 1024 == h && Sum(t, h, s) % 4096 == s
  {
  }

  /** What was packed is what is extracted, whatever the inputs: each field modulo its width. */
  lemma ExtractsWhatWasPacked(timestamp: int, hash: int, sequence: int)
    ensures Combine(timestamp, hash, sequence) <= MAX_INT64
    ensures var id := Combine(timestamp, hash, sequence);
            && ExtractMillis(id) == timestamp % 0x200_0000_0000
            && ExtractHashValue(id) == hash % 1024
            && ExtractSequence(id) == sequence % 4096
  {
    hide Combine;
    CombineIsSum(timestamp, hash, sequence);
    FieldsOfSum(timestamp % 0x200_0000_0000, hash % 1024, sequence % 4096);
    FieldsAreExtracted(timestamp % 0x200_0000_0000, hash % 1024, sequence % 4096);
  }

  lemma FieldsAreExtracted(t: nat, h: nat, s: nat)
    requires t < 0x200_0000_0000 && h < 1024 && s < 4096 && Sum(t, h, s) <= MAX_INT64
    ensures ExtractMillis(Sum(t, h, s)) == t && ExtractHashValue(Sum(t, h, s)) == h && ExtractSequence(Sum(t, h, s)) == s
  {
    hide And, ToWord, Mask, Pow2, Sum;
    FieldsOfSum(t, h, s);
    FieldIsDigit(Sum(t, h, s), TIMESTAMP_SHIFT, TIMESTAMP_BITS);
    FieldIsDigit(Sum(t, h, s), HASH_SHIFT, HASH_BITS);
    MaskedRemainder(Sum(t, h, s), SEQUENCE_BITS);
    Powers();
  }

  lemma FieldIsDigit(id: int64, shift: nat, bits: nat)
    requires bits <= 64
    ensures Field(id, shift, bits) == (id / Pow2(shift)) % Pow2(bits)
  {
    hide And, ToWord, Mask, Pow2;
    MaskedRemainder(id / Pow2(shift), bits);
  }

  /** For timestamps that fit their field the round trip is exact, the conversion to nanoseconds does
      not overflow, and later timestamps give larger ids. */
  lemma TimestampsKeepOrder(t1: int, h1: int, s1: int, t2: int, h2: int, s2: int)
    requires 0 <= t1 < 0x200_0000_0000 && 0 <= t2 < 0x200_0000_0000
    ensures Combine(t1, h1, s1) <= MAX_INT64 && ExtractMillis(Combine(t1, h1, s1)) == t1
    ensures ExtractNanos(Combine(t1, h1, s1)) == (t1 + EPOCH_MILLIS) * 1_000_000
    ensures t1 < t2 ==> Combine(t1, h1, s1) < Combine(t2, h2, s2)
  {
    hide Combine, ExtractMillis, ExtractNanos, Sum;
    ExtractsWhatWasPacked(t1, h1, s1);
    assert t1 % 0x200_0000_0000 == t1 && t2 % 0x200_0000_0000 == t2;
    NanosFit(Combine(t1, h1, s1));
    CombineIsSum(t1, h1, s1);
    CombineIsSum(t2, h2, s2);
    if t1 < t2 { SumGrows(t1, h1 % 1024, s1 % 4096, t2, h2 % 1024, s2 % 4096); }
  }

  lemma SumGrows(t1: nat, h1: nat, s1: nat, t2: nat, h2: nat, s2: nat)
    requires t1 < t2 && h1 < 1024 && s1 < 4096
    ensures Sum(t1, h1, s1) < Sum(t2, h2, s2)
  {
  }

  lemma NanosFit(id: int64)
    requires ExtractMillis(id) < 0x200_0000_0000
    ensures ExtractNanos(id) == (ExtractMillis(id) + EPOCH_MILLIS) * 1_000_000
  {
    hide ExtractMillis;
  }

  /** Two ids collide exactly when all three fields agree modulo their widths. */
  lemma CollisionExactly(t1: int, h1: int, s1: int, t2: int, h2: int, s2: int)
    ensures Combine(t1, h1, s1) == Combine(t2, h2, s2)
        <==> t1 % 0x200_0000_0000 == t2 % 0x200_0000_0000 && h1 % 1024 == h2 % 1024 && s1 % 4096 == s2 % 4096
  {
    hide Combine, ExtractMillis, ExtractHashValue, ExtractSequence;
    CombineIsSum(t1, h1, s1);
    CombineIsSum(t2, h2, s2);
    ExtractsWhatWasPacked(t1, h1, s1);
    ExtractsWhatWasPacked(t2, h2, s2);
  }

  // ----- one generator over a run -----

  /** The inputs of one call: the clock in milliseconds and the hash of its key. */
  datatype Request = Request(now: int, hash: int)

  function IdAt(first: int64, requests: seq<Request>, i: nat): nat
    requires i < |requests|
  {
    Combine(requests[i].now - EPOCH_MILLIS, requests[i].hash, Wrap64(first + i))
  }

  /** All ids of a generator are distinct if calls that read the same millisecond are always fewer
      than 4096 calls apart; its counter may wrap. */
  lemma IdsAreDistinct(first: int64, requests: seq<Request>, i: nat, j: nat)
    requires i < j < |requests|
    requires forall k | 0 <= k < |requests| :: 0 <= requests[k].now - EPOCH_MILLIS < 0x200_0000_0000
    requires requests[i].now == requests[j].now ==> j - i < 4096
    ensures IdAt(first, requests, i) != IdAt(first, requests, j)
  {
    hide Combine, Wrap64;
    CollisionExactly(requests[i].now - EPOCH_MILLIS, requests[i].hash, Wrap64(first + i),
                     requests[j].now - EPOCH_MILLIS, requests[j].hash, Wrap64(first + j));
    WrapKeepsSequence(first + i);
    WrapKeepsSequence(first + j);
    if (first + i) % 4096 == (first + j) % 4096 {
      assert (first + j) - (first + i) == 4096 * ((first + j) / 4096 - (first + i) / 4096);
    }
  }

  /** Every id of a generator tells its request and its place: the hash and the number of the call modulo
      the widths of their fields, and the time of the call if it is within 2^41 milliseconds of 2024. */
  lemma IdTellsRequest(first: int64, requests: seq<Request>, i: nat)
    requires i < |requests|
    ensures IdAt(first, requests, i) <= MAX_INT64
    ensures ExtractHashValue(IdAt(first, requests, i)) == requests[i].hash % 1024
    ensures ExtractSequence(IdAt(first, requests, i)) == (first + i) % 4096
    ensures 0 <= requests[i].now - EPOCH_MILLIS < 0x200_0000_0000 ==>
              ExtractNanos(IdAt(first, requests, i)) == requests[i].now * 1_000_000
  {
    hide Combine, ExtractHashValue, ExtractSequence, ExtractNanos, ExtractMillis, Wrap64;
    var t, h, s := requests[i].now - EPOCH_MILLIS, requests[i].hash, Wrap64(first + i);
    ExtractsWhatWasPacked(t, h, s);
    WrapKeepsSequence(first + i);
    if 0 <= t < 0x200_0000_0000 { TimestampsKeepOrder(t, h, s, t, h, s); }
  }

  /** The epoch is the first of January 2024: 54 years with 13 leap days after 1970. */
  lemma EpochIs2024()
    ensures EPOCH_MILLIS == (54 * 365 + 13) * 24 * 60 * 60 * 1000
  {
  }

  lemma WrapKeepsSequence(x: int)
    ensures Wrap64(x) % 4096 == x % 4096
  {
    WrapCongruent(x);
    var k := (x - Wrap64(x)) / TWO_64;
    assert x == Wrap64(x) + 4096 * (0x10_0000_0000_0000 * k);
    ModShift(Wrap64(x), 4096, 0x10_0000_0000_0000 * k);
  }

  class Generator {
    var sequence: int64
    ghost var requests: seq<Request>
    ghost var ids: seq<nat>

    /** Every id handed out is the one of its place in the sequence of calls. */
    ghost predicate Valid() reads this {
      && sequence == Wrap64(|requests|) && |ids| == |requests|
      && forall i | 0 <= i < |ids| :: ids[i] == IdAt(0, requests, i)
    }

    constructor ()
      ensures Valid() && requests == []
    {
      sequence, requests, ids := 0, [], [];
    }

    /** `now` is the clock and `hash` the hash of (bizID, key). */
    method GenerateID(now: int, hash: int) returns (id: int64)
      requires Valid()
      modifies this
      ensures Valid() && requests == old(requests) + [Request(now, hash)] && ids == old(ids) + [id]
      ensures ExtractHashValue(id) == hash % 1024 && ExtractSequence(id) == |old(requests)| % 4096
      ensures 0 <= now - EPOCH_MILLIS < 0x200_0000_0000 ==> ExtractNanos(id) == now * 1_000_000
    {
      hide Combine, ExtractHashValue, ExtractSequence, ExtractNanos, Wrap64;
      IdTellsRequest(0, requests + [Request(now, hash)], |requests|);
      var timestamp := now - EPOCH_MILLIS;
      var before := sequence;
      CombineIsSum(timestamp, hash, before);
      WrapAdds(|requests|, 1);
      sequence := Wrap64(sequence + 1);
      id := Combine(timestamp, hash, before);
      ids, requests := ids + [id], requests + [Request(now, hash)];
    }
  }
}

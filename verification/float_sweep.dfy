/**
 * `IterateAllPositiveFloats`: the test program's one enumeration primitive. It visits
 * bit pattern 0, then keeps adding one to the word and visiting it for as long as
 * the word it last visited had an exponent field below 255. The pattern that
 * stops the loop is therefore visited too: the last visit is `0x7F800000`,
 * positive infinity.
 *
 * The visitor callback is replaced by the sequence of visited words; every
 * consumer of the sweep (the dump writer, the dump comparer) is modelled as a
 * function of that sequence.
 */
module FloatSweep {
  import opened FloatBits

  /** The word that ends the sweep: the first non-negative word with exponent 255. */
  const LastVisit: int32 := 0x7F80_0000

  /** How many visits one sweep makes. */
  const VisitCount: int := 0x7F80_0001

  /** The sweep as a loop over the word, returning the words handed to the visitor. */
  method IterateAllPositiveFloats() returns (visits: seq<int32>)
    ensures |visits| == VisitCount
    ensures visits[0] == 0
    ensures forall k :: 0 < k < |visits| ==> visits[k] as int == visits[k - 1] as int + 1
    ensures visits[|visits| - 1] == LastVisit
    ensures forall k :: 0 <= k < |visits| - 1 ==> RawExponent(visits[k]) < 255
    ensures RawExponent(visits[|visits| - 1]) == 255
  {
    var word: int32 := 0;
    visits := [word];
    while RawExponent(word) < 255
      invariant 0 <= word <= LastVisit
      invariant |visits| == word as int + 1
      invariant forall k :: 0 <= k < |visits| ==> visits[k] as int == k
      invariant forall k :: 0 <= k < |visits| - 1 ==> RawExponent(visits[k]) < 255
      decreases LastVisit - word
    {
      if word == LastVisit {
        PositiveInfinityFields();
        assert false;
      }
      word := word + 1;
      visits := visits + [word];
    }
    if word < LastVisit {
      FiniteBelowInfinity(word);
      assert false;
    }
  }

  /** The visited words are exactly `0, 1, ..., 0x7F800000`, in that order. */
  ghost predicate IsSweep(visits: seq<int32>) {
    |visits| == VisitCount && forall k :: 0 <= k < |visits| ==> visits[k] as int == k
  }

  /** The loop's result is the sweep: consecutive words from 0, no skips, no repeats. */
  lemma {:induction false} IterationIsSweep(visits: seq<int32>)
    requires |visits| == VisitCount
    requires visits[0] == 0
    requires forall k :: 0 < k < |visits| ==> visits[k] as int == visits[k - 1] as int + 1
    ensures IsSweep(visits)
    ensures forall j, k :: 0 <= j < k < |visits| ==> visits[j] < visits[k]
  {
    var n := 0;
    while n < |visits|
      invariant 0 <= n <= |visits|
      invariant forall k :: 0 <= k < n ==> visits[k] as int == k
    {
      if n > 0 {
        assert visits[n] as int == visits[n - 1] as int + 1;
      }
      n := n + 1;
    }
  }

  /** Every visited word is a non-negative float pattern: sign clear. */
  lemma SweepSignClear(visits: seq<int32>, k: int)
    requires IsSweep(visits)
    requires 0 <= k < |visits|
    ensures RawSign(visits[k]) == 0
  {
    NonNegativeFields(visits[k]);
  }

  /** Exponents along the sweep never decrease. */
  lemma SweepExponentsNonDecreasing(visits: seq<int32>, j: int, k: int)
    requires IsSweep(visits)
    requires 0 <= j <= k < |visits|
    ensures RawExponent(visits[j]) <= RawExponent(visits[k])
  {
    ExponentMonotone(visits[j], visits[k]);
  }
}

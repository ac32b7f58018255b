/**
 * The four phases of one counting-sort pass of `radix_sort_u32_rec`, as
 * written in the source: count, inclusive prefix sum, right-to-left scatter
 * with pre-decrement, and reset. A Rust `&mut [u32]` argument is modelled by
 * value: a phase receives the slice's contents and returns its final contents.
 * Counters are `u32`, and every update is proved to stay in range.
 */
module CountingPass {
  import opened Bytes
  import opened Buckets

  /** The counter array is all zero. */
  predicate AllZero(counters: seq<u32>) {
    forall d :: 0 <= d < |counters| ==> counters[d] == 0
  }

  /** `counters[0] + ... + counters[k - 1]`. */
  function SumTo(counters: seq<u32>, k: nat): (sum: nat)
    requires k <= |counters|
  {
    if k == 0 then 0 else SumTo(counters, k - 1) + counters[k - 1]
  }

  /** Counting phase: afterwards `counters[d]` is the number of keys whose
    * byte `round` is `d`. */
  method CountBytes(input: seq<u32>, counters: seq<u32>, round: nat) returns (counted: seq<u32>)
    requires round < ROUNDS
    requires |input| < U32_LIMIT
    requires |counters| == RADIX && AllZero(counters)
    ensures |counted| == RADIX
    ensures forall d :: 0 <= d < RADIX ==> counted[d] == Occurrences(input, round, d, |input|)
  {
    counted := counters;
    var i := 0;
    while i < |input|
      invariant 0 <= i <= |input|
      invariant |counted| == RADIX
      invariant forall d :: 0 <= d < RADIX ==> counted[d] == Occurrences(input, round, d, i)
    {
      var x := input[i];
      var byte := GetByte(x, round);
      CountsBounded(input, round, byte, i);
      counted := counted[byte := counted[byte] + 1];
      i := i + 1;
    }
  }

  /** Prefix-sum phase: afterwards `sums[d]` is the inclusive running sum
    * `counters[0] + ... + counters[d]`. The running sum is a `u32`, so the
    * total must fit in one. */
  method PrefixSum(counters: seq<u32>) returns (sums: seq<u32>)
    requires |counters| == RADIX
    requires SumTo(counters, RADIX) < U32_LIMIT
    ensures |sums| == RADIX
    ensures forall d :: 0 <= d < RADIX ==> sums[d] == SumTo(counters, d + 1)
    ensures forall d, e :: 0 <= d <= e < RADIX ==> sums[d] <= sums[e]
    ensures sums[RADIX - 1] == SumTo(counters, RADIX)
  {
    sums := counters;
    var sum: u32 := 0;
    var d := 0;
    while d < RADIX
      invariant 0 <= d <= RADIX
      invariant |sums| == RADIX
      invariant sum == SumTo(counters, d)
      invariant forall e :: 0 <= e < d ==> sums[e] == SumTo(counters, e + 1)
      invariant forall e :: d <= e < RADIX ==> sums[e] == counters[e]
    {
      SumToMonotone(counters, d + 1, RADIX);
      sum := sum + sums[d];
      sums := sums[d := sum];
      d := d + 1;
    }
    forall d, e | 0 <= d <= e < RADIX
      ensures sums[d] <= sums[e]
    {
      SumToMonotone(counters, d + 1, e + 1);
    }
  }

  /** Scatter phase: scanning right to left, each key's counter is decremented
    * and then used as its index. Entering, `counters[d]` is the number of keys
    * with byte at most `d`; leaving, the output is the stable pass and
    * `counters[d]` is the number of keys with byte below `d`. */
  method Scatter(input: seq<u32>, output: seq<u32>, counters: seq<u32>, round: nat)
    returns (placed: seq<u32>, offsets: seq<u32>)
    requires round < ROUNDS
    requires |output| == |input| < U32_LIMIT
    requires |counters| == RADIX
    requires forall d :: 0 <= d < RADIX ==> counters[d] == Below(input, round, d + 1, |input|)
    ensures placed == Pass(input, round)
    ensures forall i :: 0 <= i < |input| ==>
              Slot(input, round, i) < |placed| && placed[Slot(input, round, i)] == input[i]
    ensures |offsets| == RADIX
    ensures forall d :: 0 <= d < RADIX ==> offsets[d] == Below(input, round, d, |input|)
  {
    placed, offsets := output, counters;
    var i := |input|;
    ScatterStart(input, output, counters, round);
    while i > 0
      invariant 0 <= i <= |input|
      invariant ScatterInvariant(input, round, i, placed, offsets)
    {
      var x := input[i - 1];
      var byte := GetByte(x, round);
      ScatterSlot(input, round, i, placed, offsets);
      // Pre-decrement the counter, then store at the decremented value.
      var idx := offsets[byte] - 1;
      var offsets' := offsets[byte := idx];
      var placed' := placed[idx := x];
      ScatterStep(input, round, i, placed, offsets, placed', offsets');
      placed, offsets, i := placed', offsets', i - 1;
    }
    ScatterEnd(input, round, placed, offsets);
  }

  /** Reset phase: every counter back to zero. */
  method ResetCounters(counters: seq<u32>) returns (zeroed: seq<u32>)
    ensures |zeroed| == |counters|
    ensures AllZero(zeroed)
  {
    zeroed := counters;
    var d := 0;
    while d < |zeroed|
      invariant 0 <= d <= |zeroed| == |counters|
      invariant forall e :: 0 <= e < d ==> zeroed[e] == 0
    {
      zeroed := zeroed[d := 0];
      d := d + 1;
    }
  }

  /** The counting and prefix-sum phases together: afterwards `sums[d]` is the
    * number of keys whose byte `round` is at most `d`, so the last counter
    * holds the number of keys, and the counters increase. */
  method CountAndSum(input: seq<u32>, counters: seq<u32>, round: nat) returns (sums: seq<u32>)
    requires round < ROUNDS
    requires |input| < U32_LIMIT
    requires |counters| == RADIX && AllZero(counters)
    ensures |sums| == RADIX
    ensures forall d :: 0 <= d < RADIX ==> sums[d] == Below(input, round, d + 1, |input|)
    ensures sums[RADIX - 1] == |input|
    ensures forall d, e :: 0 <= d <= e < RADIX ==> sums[d] <= sums[e]
  {
    var counted := CountBytes(input, counters, round);
    SumOfOccurrences(input, round, counted, RADIX);
    BelowEnds(input, round, |input|);
    sums := PrefixSum(counted);
    forall d | 0 <= d < RADIX
      ensures sums[d] == Below(input, round, d + 1, |input|)
    {
      SumOfOccurrences(input, round, counted, d + 1);
    }
  }

  /** One pass of `radix_sort_u32_rec`: the four phases in order. The counters
    * enter all zero and leave all zero, and the output buffer receives the
    * stable counting sort of the input on byte `round`. */
  method CountingSortPass(input: seq<u32>, output: seq<u32>, counters: seq<u32>, round: nat)
    returns (sorted: seq<u32>, counters': seq<u32>)
    requires round < ROUNDS
    requires |output| == |input| < U32_LIMIT
    requires |counters| == RADIX && AllZero(counters)
    ensures sorted == Pass(input, round)
    ensures |counters'| == RADIX && AllZero(counters')
  {
    var sums := CountAndSum(input, counters, round);
    var offsets;
    sorted, offsets := Scatter(input, output, sums, round);
    counters' := ResetCounters(offsets);
  }

  // ---------------------------------------------------------------------
  // Helpers

  /** The state of the scatter loop once `input[i..]` is placed: `offsets[d]`
    * is the start of bucket `d` plus the keys of `input[..i]` with byte `d`,
    * and every position from there to the end of the bucket already holds
    * what the pass puts there. */
  ghost predicate ScatterInvariant(input: seq<u32>, round: nat, i: nat, placed: seq<u32>, offsets: seq<u32>)
    requires round < ROUNDS && i <= |input|
  {
    && |placed| == |input|
    && |Pass(input, round)| == |input|
    && |offsets| == RADIX
    && (forall d {:trigger offsets[d]} :: 0 <= d < RADIX ==>
          offsets[d] == Below(input, round, d, |input|) + Occurrences(input, round, d, i))
    && (forall d, k :: 0 <= d < RADIX && offsets[d] <= k < Below(input, round, d + 1, |input|) && k < |input| ==>
          placed[k] == Pass(input, round)[k])
  }

  /** The inclusive prefix sums establish the loop state with nothing placed. */
  lemma ScatterStart(input: seq<u32>, output: seq<u32>, counters: seq<u32>, round: nat)
    requires round < ROUNDS
    requires |output| == |input|
    requires |counters| == RADIX
    requires forall d :: 0 <= d < RADIX ==> counters[d] == Below(input, round, d + 1, |input|)
    ensures ScatterInvariant(input, round, |input|, output, counters)
  {
    PassPermutes(input, round);
    forall d | 0 <= d < RADIX
      ensures counters[d] == Below(input, round, d, |input|) + Occurrences(input, round, d, |input|)
    {
      BelowStep(input, round, d, |input|);
    }
  }

  /** The counter of `input[i - 1]`'s byte is positive, so the decrement does
    * not underflow, and the decremented counter is the key's slot, inside the
    * output. */
  lemma ScatterSlot(input: seq<u32>, round: nat, i: nat, placed: seq<u32>, offsets: seq<u32>)
    requires round < ROUNDS && 0 < i <= |input|
    requires ScatterInvariant(input, round, i, placed, offsets)
    ensures 0 < offsets[GetByte(input[i - 1], round)]
    ensures offsets[GetByte(input[i - 1], round)] - 1 == Slot(input, round, i - 1) < |placed|
  {
    SlotRange(input, round, i - 1);
  }

  /** One step of the scatter loop: decrementing the key's counter and storing
    * the key at the decremented value keeps the loop state. */
  lemma ScatterStep(input: seq<u32>, round: nat, i: nat, placed: seq<u32>, offsets: seq<u32>,
                    placed': seq<u32>, offsets': seq<u32>)
    requires round < ROUNDS && 0 < i <= |input|
    requires ScatterInvariant(input, round, i, placed, offsets)
    requires 0 < offsets[GetByte(input[i - 1], round)] <= |placed|
    requires offsets' == offsets[GetByte(input[i - 1], round) := offsets[GetByte(input[i - 1], round)] - 1]
    requires placed' == placed[offsets[GetByte(input[i - 1], round)] - 1 := input[i - 1]]
    ensures ScatterInvariant(input, round, i - 1, placed', offsets')
  {
    var byte := GetByte(input[i - 1], round);
    ScatterSlot(input, round, i, placed, offsets);
    forall d | 0 <= d < RADIX
      ensures offsets'[d] == Below(input, round, d, |input|) + Occurrences(input, round, d, i - 1)
    {
    }
    ScatterStepPlaces(input, round, i, placed, offsets, placed', offsets');
  }

  /** The placement half of a scatter step: only the key's own slot changes,
    * and it receives what the pass puts there. */
  lemma ScatterStepPlaces(input: seq<u32>, round: nat, i: nat, placed: seq<u32>,
                          offsets: seq<u32>, placed': seq<u32>, offsets': seq<u32>)
    requires round < ROUNDS && 0 < i <= |input|
    requires ScatterInvariant(input, round, i, placed, offsets)
    requires offsets[GetByte(input[i - 1], round)] - 1 == Slot(input, round, i - 1) < |placed|
    requires offsets' == offsets[GetByte(input[i - 1], round) := Slot(input, round, i - 1)]
    requires placed' == placed[Slot(input, round, i - 1) := input[i - 1]]
    requires forall d :: 0 <= d < RADIX ==>
               offsets'[d] == Below(input, round, d, |input|) + Occurrences(input, round, d, i - 1)
    ensures ScatterInvariant(input, round, i - 1, placed', offsets')
  {
    var idx := Slot(input, round, i - 1);
    PassAtSlot(input, round, i - 1);
    forall d, k | 0 <= d < RADIX && offsets'[d] <= k < Below(input, round, d + 1, |input|) && k < |input|
      ensures placed'[k] == Pass(input, round)[k]
    {
      if k != idx {
        assert offsets[d] <= k;
        assert placed[k] == Pass(input, round)[k];
      }
    }
  }

  /** With everything placed, the output is the pass and the counters hold the
    * exclusive prefix sums. */
  lemma ScatterEnd(input: seq<u32>, round: nat, placed: seq<u32>, offsets: seq<u32>)
    requires round < ROUNDS
    requires ScatterInvariant(input, round, 0, placed, offsets)
    ensures placed == Pass(input, round)
    ensures forall i :: 0 <= i < |input| ==>
              Slot(input, round, i) < |placed| && placed[Slot(input, round, i)] == input[i]
    ensures forall d :: 0 <= d < RADIX ==> offsets[d] == Below(input, round, d, |input|)
  {
    BelowEnds(input, round, |input|);
    PassPermutes(input, round);
    forall k | 0 <= k < |input|
      ensures placed[k] == Pass(input, round)[k]
    {
      var d := FindBucket(input, round, k, 0);
      assert offsets[d] <= k < Below(input, round, d + 1, |input|);
    }
    forall i | 0 <= i < |input|
      ensures Slot(input, round, i) < |placed| && placed[Slot(input, round, i)] == input[i]
    {
      PassAtSlot(input, round, i);
    }
  }

  /** Partial sums of counters never decrease. */
  lemma {:induction false} SumToMonotone(counters: seq<u32>, j: nat, k: nat)
    requires j <= k <= |counters|
    ensures SumTo(counters, j) <= SumTo(counters, k)
    decreases k - j
  {
    if j < k {
      SumToMonotone(counters, j, k - 1);
    }
  }

  /** Summing the occurrence counts of the bytes below `k` counts the keys with
    * a byte below `k`; in particular the total is the number of keys. */
  lemma {:induction false} SumOfOccurrences(input: seq<u32>, round: nat, counted: seq<u32>, k: nat)
    requires round < ROUNDS && |counted| == RADIX && k <= RADIX
    requires forall d :: 0 <= d < RADIX ==> counted[d] == Occurrences(input, round, d, |input|)
    ensures SumTo(counted, k) == Below(input, round, k, |input|)
    ensures k == RADIX ==> SumTo(counted, k) == |input|
  {
    BelowEnds(input, round, |input|);
    if k > 0 {
      SumOfOccurrences(input, round, counted, k - 1);
      BelowStep(input, round, k - 1, |input|);
    }
  }
}

/**
 * The round driver `radix_sort_u32_rec` and the entry point `radix_sort_u32`,
 * with the least-significant-digit argument: after the pass on byte `r` the
 * data is sorted by its low `r + 1` bytes, so after four passes it is sorted.
 */
module RadixSort {
  import opened Bytes
  import opened Buckets
  import opened CountingPass

  /** Ascending unsigned order. */
  predicate Sorted(s: seq<u32>) {
    forall i, j :: 0 <= i < j < |s| ==> s[i] <= s[j]
  }

  /** Ascending order of the low `k` bytes. */
  predicate SortedBy(s: seq<u32>, k: nat)
    requires k <= ROUNDS
  {
    forall i, j :: 0 <= i < j < |s| ==> LowBytes(s[i], k) <= LowBytes(s[j], k)
  }

  /** The passes on bytes `round .. 3`, applied in turn. */
  function Rounds(s: seq<u32>, round: nat): (t: seq<u32>)
    decreases ROUNDS - round
  {
    if round >= ROUNDS then s else Rounds(Pass(s, round), round + 1)
  }

  /** The first `k` passes, on bytes `0 .. k - 1`, applied in turn. */
  function PassesUpTo(s: seq<u32>, k: nat): (t: seq<u32>)
    requires k <= ROUNDS
  {
    if k == 0 then s else Pass(PassesUpTo(s, k - 1), k - 1)
  }

  /** What `radix_sort_u32` leaves in its buffer. */
  function RadixSort(s: seq<u32>): (sorted: seq<u32>) {
    Rounds(s, 0)
  }

  /** Every key has byte `r` below `e`. */
  predicate BytesBelow(c: seq<u32>, r: nat, e: nat)
    requires r < ROUNDS
  {
    forall i :: 0 <= i < |c| ==> GetByte(c[i], r) < e
  }

  // ---------------------------------------------------------------------
  // The least-significant-digit argument

  /** A bucket keeps the order of the keys it selects. */
  lemma {:induction false} BucketSorted(s: seq<u32>, r: nat, d: nat, n: nat)
    requires r < ROUNDS && n <= |s| && SortedBy(s, r)
    ensures SortedBy(Bucket(s, r, d, n), r)
  {
    if n > 0 {
      BucketSorted(s, r, d, n - 1);
      var b, x := Bucket(s, r, d, n - 1), s[n - 1];
      if GetByte(x, r) == d {
        BucketMembers(s, r, d, n - 1);
        forall y | y in b
          ensures LowBytes(y, r) <= LowBytes(x, r)
        {
          var j :| 0 <= j < n - 1 && s[..n - 1][j] == y;
          assert s[j] == y;
        }
        SortedSnoc(b, x, r);
        assert Bucket(s, r, d, n) == b + [x];
      } else {
        assert Bucket(s, r, d, n) == b;
      }
    }
  }

  /** A key no smaller than every key of a sorted sequence may follow it. */
  lemma SortedSnoc(b: seq<u32>, x: u32, k: nat)
    requires k <= ROUNDS && SortedBy(b, k)
    requires forall y :: y in b ==> LowBytes(y, k) <= LowBytes(x, k)
    ensures SortedBy(b + [x], k)
  {
    forall i, j | 0 <= i < j < |b + [x]|
      ensures LowBytes((b + [x])[i], k) <= LowBytes((b + [x])[j], k)
    {
      assert (b + [x])[i] == b[i] && b[i] in b;
      if j < |b| {
        assert (b + [x])[j] == b[j];
      }
    }
  }

  /** Keys with byte `r` below `e`, sorted by their low `r + 1` bytes, followed
    * by keys with byte `r` equal to `e`, sorted by their low `r` bytes, are
    * sorted by their low `r + 1` bytes. */
  lemma JoinSorted(c: seq<u32>, b: seq<u32>, r: nat, e: nat)
    requires r < ROUNDS && SortedBy(c, r + 1) && SortedBy(b, r)
    requires BytesBelow(c, r, e)
    requires forall y :: y in b ==> GetByte(y, r) == e
    ensures SortedBy(c + b, r + 1)
    ensures BytesBelow(c + b, r, e + 1)
  {
    forall i, j | 0 <= i < j < |c + b|
      ensures LowBytes((c + b)[i], r + 1) <= LowBytes((c + b)[j], r + 1)
    {
      var x, y := (c + b)[i], (c + b)[j];
      LowBytesOrder(x, y, r);
      if j < |c| {
        assert x == c[i] && y == c[j];
      } else if i < |c| {
        assert x == c[i] && y == b[j - |c|];
        assert y in b;
      } else {
        assert x == b[i - |c|] && y == b[j - |c|];
        assert x in b && y in b;
      }
    }
    forall i | 0 <= i < |c + b|
      ensures GetByte((c + b)[i], r) < e + 1
    {
      if i < |c| {
        assert (c + b)[i] == c[i];
      } else {
        assert (c + b)[i] in b;
      }
    }
  }

  /** The first `k` buckets, one after the other, are sorted by the low
    * `r + 1` bytes, and all their keys have byte `r` below `k`. */
  lemma {:induction false} ConcatSorted(s: seq<u32>, r: nat, k: nat)
    requires r < ROUNDS && SortedBy(s, r)
    ensures SortedBy(Concat(s, r, k, |s|), r + 1)
    ensures BytesBelow(Concat(s, r, k, |s|), r, k)
  {
    if k > 0 {
      ConcatSorted(s, r, k - 1);
      ConcatSortedStep(s, r, k);
    }
  }

  /** The step of `ConcatSorted`: bucket `k - 1` may follow the buckets before
    * it. */
  lemma ConcatSortedStep(s: seq<u32>, r: nat, k: nat)
    requires r < ROUNDS && SortedBy(s, r) && 0 < k
    requires SortedBy(Concat(s, r, k - 1, |s|), r + 1)
    requires BytesBelow(Concat(s, r, k - 1, |s|), r, k - 1)
    ensures SortedBy(Concat(s, r, k, |s|), r + 1)
    ensures BytesBelow(Concat(s, r, k, |s|), r, k)
  {
    var c, b := Concat(s, r, k - 1, |s|), Bucket(s, r, k - 1, |s|);
    BucketSorted(s, r, k - 1, |s|);
    BucketMembers(s, r, k - 1, |s|);
    JoinSorted(c, b, r, k - 1);
    assert Concat(s, r, k, |s|) == c + b;
  }

  /** The least-significant-digit invariant: a pass on byte `r` over data
    * sorted by its low `r` bytes leaves it sorted by its low `r + 1` bytes. */
  lemma PassExtendsOrder(s: seq<u32>, r: nat)
    requires r < ROUNDS && SortedBy(s, r)
    ensures SortedBy(Pass(s, r), r + 1)
  {
    ConcatSorted(s, r, RADIX);
  }

  /** The least-significant-digit invariant across rounds: after the passes
    * on bytes `0 .. k - 1` the data is sorted by its low `k` bytes. */
  lemma {:induction false} LsdInvariant(s: seq<u32>, k: nat)
    requires k <= ROUNDS
    ensures SortedBy(PassesUpTo(s, k), k)
  {
    if k == 0 {
      SortedByNoBytes(s);
    } else {
      var before := PassesUpTo(s, k - 1);
      LsdInvariant(s, k - 1);
      PassExtendsOrder(before, k - 1);
      assert PassesUpTo(s, k) == Pass(before, k - 1);
    }
  }

  /** Any number of passes keeps the keys. */
  lemma {:induction false} PassesUpToPermutes(s: seq<u32>, k: nat)
    requires k <= ROUNDS
    ensures multiset(PassesUpTo(s, k)) == multiset(s)
    ensures |PassesUpTo(s, k)| == |s|
  {
    if k > 0 {
      PassesUpToPermutes(s, k - 1);
      PassPermutes(PassesUpTo(s, k - 1), k - 1);
    }
  }

  /** Every sequence is sorted by zero bytes. */
  lemma SortedByNoBytes(s: seq<u32>)
    ensures SortedBy(s, 0)
  {
    forall i, j | 0 <= i < j < |s|
      ensures LowBytes(s[i], 0) <= LowBytes(s[j], 0)
    {
      LowBytesBounds(s[i]);
      LowBytesBounds(s[j]);
    }
  }

  /** The recursion resumed at round `k` on the result of the first `k` passes
    * finishes the whole sort: the buffer that round `k` reads holds the first
    * `k` passes. */
  lemma {:induction false} RoundsResume(s: seq<u32>, k: nat)
    requires k <= ROUNDS
    ensures Rounds(PassesUpTo(s, k), k) == RadixSort(s)
  {
    if k > 0 {
      RoundsResume(s, k - 1);
    }
  }

  /** Exactly four passes, on bytes 0, 1, 2 and 3 in that order. */
  lemma RadixSortIsFourPasses(s: seq<u32>)
    ensures RadixSort(s) == Pass(Pass(Pass(Pass(s, 0), 1), 2), 3)
  {
  }

  /** The result is in ascending order and is a permutation of the input. */
  lemma RadixSortCorrect(s: seq<u32>)
    ensures Sorted(RadixSort(s))
    ensures multiset(RadixSort(s)) == multiset(s)
    ensures |RadixSort(s)| == |s|
  {
    LsdInvariant(s, ROUNDS);
    PassesUpToPermutes(s, ROUNDS);
    RoundsResume(s, ROUNDS);
    var t := RadixSort(s);
    forall i, j | 0 <= i < j < |t|
      ensures t[i] <= t[j]
    {
      LowBytesBounds(t[i]);
      LowBytesBounds(t[j]);
    }
  }

  // ---------------------------------------------------------------------
  // Consequences: the result is the one sorted permutation

  /** Two sorted sequences with the same elements are equal. */
  lemma {:induction false} SortedPermutationUnique(a: seq<u32>, b: seq<u32>)
    requires Sorted(a) && Sorted(b) && multiset(a) == multiset(b)
    ensures a == b
    decreases |a|
  {
    assert |a| == |multiset(a)| == |multiset(b)| == |b|;
    if |a| > 0 {
      SortedHeadsEqual(a, b);
      DropHead(a);
      DropHead(b);
      SortedPermutationUnique(a[1..], b[1..]);
      assert a == [a[0]] + a[1..] && b == [b[0]] + b[1..];
    }
  }

  /** Sorted sequences with the same elements start with the same key: the
    * smallest one. */
  lemma SortedHeadsEqual(a: seq<u32>, b: seq<u32>)
    requires Sorted(a) && Sorted(b) && multiset(a) == multiset(b) && 0 < |a| && 0 < |b|
    ensures a[0] == b[0]
  {
    assert a[0] in multiset(b) && b[0] in multiset(a);
    var i :| 0 <= i < |b| && b[i] == a[0];
    var j :| 0 <= j < |a| && a[j] == b[0];
    assert b[0] <= b[i] && a[0] <= a[j];
  }

  /** Dropping the first key of a sorted sequence leaves it sorted, without
    * that key. */
  lemma DropHead(a: seq<u32>)
    requires Sorted(a) && 0 < |a|
    ensures Sorted(a[1..])
    ensures multiset(a[1..]) == multiset(a) - multiset{a[0]}
  {
    assert a == [a[0]] + a[1..];
  }

  /** The result is the one sorted permutation of the input, so it agrees
    * with any other correct sort, such as the standard library's. */
  lemma RadixSortAgrees(s: seq<u32>, reference: seq<u32>)
    requires Sorted(reference) && multiset(reference) == multiset(s)
    ensures RadixSort(s) == reference
  {
    RadixSortCorrect(s);
    SortedPermutationUnique(RadixSort(s), reference);
  }

  /** Sorting sorted data changes nothing: empty, single-key and all-equal
    * sequences among others. */
  lemma RadixSortOfSorted(s: seq<u32>)
    requires Sorted(s)
    ensures RadixSort(s) == s
  {
    RadixSortAgrees(s, s);
  }

  /** Sorting twice is sorting once. */
  lemma RadixSortIdempotent(s: seq<u32>)
    ensures RadixSort(RadixSort(s)) == RadixSort(s)
  {
    RadixSortCorrect(s);
    RadixSortOfSorted(RadixSort(s));
  }

  /** The keys of `s` from last to first. */
  function Reverse(s: seq<u32>): (r: seq<u32>)
    ensures |r| == |s|
  {
    seq(|s|, i requires 0 <= i < |s| => s[|s| - 1 - i])
  }

  /** Reversing keeps the keys. */
  lemma {:induction false} ReversePermutes(s: seq<u32>)
    ensures multiset(Reverse(s)) == multiset(s)
    decreases |s|
  {
    if |s| > 0 {
      var rest := s[1..];
      ReversePermutes(rest);
      assert Reverse(s) == Reverse(rest) + [s[0]];
      assert s == [s[0]] + rest;
    }
  }

  /** Data in descending order comes out reversed. */
  lemma RadixSortOfDescending(s: seq<u32>)
    requires forall i, j :: 0 <= i < j < |s| ==> s[i] >= s[j]
    ensures RadixSort(s) == Reverse(s)
  {
    ReversePermutes(s);
    RadixSortAgrees(s, Reverse(s));
  }

  /** `[5, 3, 8, 7]` sorts to `[3, 5, 7, 8]`. */
  lemma ExampleSmall(s: seq<u32>)
    requires s == [5, 3, 8, 7]
    ensures RadixSort(s) == [3, 5, 7, 8]
  {
    var t: seq<u32> := [3, 5, 7, 8];
    assert multiset(t) == multiset(s) by {
      assert multiset(s) == multiset{5, 3, 8, 7};
      assert multiset(t) == multiset{3, 5, 7, 8};
    }
    assert Sorted(t) by {
      forall i, j | 0 <= i < j < |t|
        ensures t[i] <= t[j]
      {
        assert t[i] < t[i + 1];
      }
    }
    RadixSortAgrees(s, t);
  }

  /** Keys that differ in their high bytes and are already ascending stay put. */
  lemma ExampleRegression(s: seq<u32>)
    requires s == [1, 22695478, 2156045615]
    ensures RadixSort(s) == s
  {
    RadixSortOfSorted(s);
  }

  // ---------------------------------------------------------------------
  // The source's driver

  /** An even number of passes is left from `round` on, so the last of them
    * writes into the buffer that `round` reads. */
  predicate PassesLeftEven(round: nat)
    requires round <= ROUNDS
  {
    (ROUNDS - round) % 2 == 0
  }

  /** `radix_sort_u32_rec`: the pass on byte `round`, then the remaining rounds
    * with the two buffers swapped. The slices are modelled by value: the
    * method returns the final contents of `input`, `output` and `counters`.
    * The last pass writes to whichever buffer the parity of the remaining
    * pass count selects; the counters end all zero. */
  method RadixSortRec(input: seq<u32>, output: seq<u32>, counters: seq<u32>, round: nat)
    returns (input': seq<u32>, output': seq<u32>, counters': seq<u32>)
    requires |output| == |input| < U32_LIMIT
    requires |counters| == RADIX && AllZero(counters)
    ensures |input'| == |output'| == |input|
    ensures |counters'| == RADIX && AllZero(counters')
    ensures round >= ROUNDS ==> input' == input && output' == output
    ensures round < ROUNDS && PassesLeftEven(round) ==> input' == Rounds(input, round)
    ensures round < ROUNDS && !PassesLeftEven(round) ==> output' == Rounds(input, round)
    decreases ROUNDS - round
  {
    if round >= ROUNDS {
      return input, output, counters;
    }
    var passed, zeroed := CountingSortPass(input, output, counters, round);
    PassPermutes(input, round);
    // The next round reads the buffer just written and writes the other one.
    output', input', counters' := RadixSortRec(passed, input, zeroed, round + 1);
    assert Rounds(input, round) == Rounds(passed, round + 1);
    assert round + 1 == ROUNDS ==> Rounds(passed, round + 1) == passed;
  }

  /** `radix_sort_u32`: allocate a scratch buffer and zeroed counters, run the
    * four rounds, and find the sorted keys back in the caller's buffer. */
  method RadixSortU32(input: seq<u32>) returns (sorted: seq<u32>)
    requires |input| < U32_LIMIT
    ensures Sorted(sorted)
    ensures multiset(sorted) == multiset(input)
    ensures sorted == RadixSort(input)
  {
    var scratch := seq(|input|, _ => 0);
    var counters := seq(RADIX, _ => 0);
    var input', scratch', counters' := RadixSortRec(input, scratch, counters, 0);
    RadixSortCorrect(input);
    sorted := input';
  }
}

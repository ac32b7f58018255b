/**
 * The meaning of one counting-sort pass, independent of how it is computed.
 * `Pass(s, r)` lists the keys of `s` bucket by bucket, byte value 0 first,
 * each bucket keeping the keys in their order in `s`. Counts and the slot a
 * key is scattered to are defined over the same buckets.
 *
 * Every definition looks at a prefix `s[..n]` of the keys through its length
 * `n`, so a loop that has seen the first `n` keys is described by the same
 * functions at `n`.
 */
module Buckets {
  import opened Bytes
  import opened Permutation

  /** Number of keys among the first `n` of `s` whose byte `r` is `d`. */
  function Occurrences(s: seq<u32>, r: nat, d: nat, n: nat): (count: nat)
    requires r < ROUNDS && n <= |s|
  {
    if n == 0 then 0
    else Occurrences(s, r, d, n - 1) + (if GetByte(s[n - 1], r) == d then 1 else 0)
  }

  /** Number of keys among the first `n` of `s` whose byte `r` is below `d`. */
  function Below(s: seq<u32>, r: nat, d: nat, n: nat): (count: nat)
    requires r < ROUNDS && n <= |s|
  {
    if n == 0 then 0
    else Below(s, r, d, n - 1) + (if GetByte(s[n - 1], r) < d then 1 else 0)
  }

  /** The keys among the first `n` of `s` whose byte `r` is `d`, in order. */
  function Bucket(s: seq<u32>, r: nat, d: nat, n: nat): (bucket: seq<u32>)
    requires r < ROUNDS && n <= |s|
  {
    if n == 0 then []
    else Bucket(s, r, d, n - 1) + (if GetByte(s[n - 1], r) == d then [s[n - 1]] else [])
  }

  /** Buckets `0 .. k - 1` of the first `n` keys, one after the other. */
  function Concat(s: seq<u32>, r: nat, k: nat, n: nat): (joined: seq<u32>)
    requires r < ROUNDS && n <= |s|
  {
    if k == 0 then [] else Concat(s, r, k - 1, n) + Bucket(s, r, k - 1, n)
  }

  /** The result of one stable counting-sort pass of `s` on byte `r`. */
  function Pass(s: seq<u32>, r: nat): (p: seq<u32>)
    requires r < ROUNDS
  {
    Concat(s, r, RADIX, |s|)
  }

  /** Where the pass puts `s[i]`: after every key with a smaller byte and after
    * every earlier key with the same byte. */
  function Slot(s: seq<u32>, r: nat, i: nat): (pos: nat)
    requires r < ROUNDS && i < |s|
  {
    Below(s, r, GetByte(s[i], r), |s|) + Occurrences(s, r, GetByte(s[i], r), i)
  }

  // ---------------------------------------------------------------------
  // Counts

  /** A prefix of `n` keys has at most `n` keys of any kind. */
  lemma {:induction false} CountsBounded(s: seq<u32>, r: nat, d: nat, n: nat)
    requires r < ROUNDS && n <= |s|
    ensures Occurrences(s, r, d, n) <= n
    ensures Below(s, r, d, n) <= n
  {
    if n > 0 {
      CountsBounded(s, r, d, n - 1);
    }
  }

  /** A bucket holds as many keys as there are occurrences of its byte. */
  lemma {:induction false} BucketSize(s: seq<u32>, r: nat, d: nat, n: nat)
    requires r < ROUNDS && n <= |s|
    ensures |Bucket(s, r, d, n)| == Occurrences(s, r, d, n)
  {
    if n > 0 {
      BucketSize(s, r, d, n - 1);
    }
  }

  /** Counting the keys below `d + 1` adds the occurrences of `d`. */
  lemma {:induction false} BelowStep(s: seq<u32>, r: nat, d: nat, n: nat)
    requires r < ROUNDS && n <= |s|
    ensures Below(s, r, d + 1, n) == Below(s, r, d, n) + Occurrences(s, r, d, n)
  {
    if n > 0 {
      BelowStep(s, r, d, n - 1);
    }
  }

  /** No key has a byte below 0, every key has one below 256. */
  lemma {:induction false} BelowEnds(s: seq<u32>, r: nat, n: nat)
    requires r < ROUNDS && n <= |s|
    ensures Below(s, r, 0, n) == 0
    ensures Below(s, r, RADIX, n) == n
  {
    if n > 0 {
      BelowEnds(s, r, n - 1);
    }
  }

  /** Raising the bound never lowers the count below it. */
  lemma {:induction false} BelowMonotone(s: seq<u32>, r: nat, d1: nat, d2: nat, n: nat)
    requires r < ROUNDS && d1 <= d2 && n <= |s|
    ensures Below(s, r, d1, n) <= Below(s, r, d2, n)
  {
    if n > 0 {
      BelowMonotone(s, r, d1, d2, n - 1);
    }
  }

  /** Counting over a longer prefix never gives fewer occurrences, and the key
    * that extends the prefix counts for its own byte. */
  lemma {:induction false} OccurrencesMonotone(s: seq<u32>, r: nat, d: nat, i: nat, j: nat)
    requires r < ROUNDS && i <= j <= |s|
    ensures Occurrences(s, r, d, i) <= Occurrences(s, r, d, j)
    ensures i < j && GetByte(s[i], r) == d ==> Occurrences(s, r, d, i) < Occurrences(s, r, d, j)
    decreases j - i
  {
    if i < j {
      OccurrencesMonotone(s, r, d, i, j - 1);
    }
  }

  /** The first `k` buckets hold the keys with a byte below `k`. */
  lemma {:induction false} ConcatSize(s: seq<u32>, r: nat, k: nat, n: nat)
    requires r < ROUNDS && n <= |s|
    ensures |Concat(s, r, k, n)| == Below(s, r, k, n)
  {
    if k == 0 {
      BelowEnds(s, r, n);
    } else {
      ConcatSize(s, r, k - 1, n);
      BucketSize(s, r, k - 1, n);
      BelowStep(s, r, k - 1, n);
    }
  }

  // ---------------------------------------------------------------------
  // Contents

  /** Every key of a bucket comes from the prefix and has the bucket's byte. */
  lemma {:induction false} BucketMembers(s: seq<u32>, r: nat, d: nat, n: nat)
    requires r < ROUNDS && n <= |s|
    ensures forall y :: y in Bucket(s, r, d, n) ==> y in s[..n] && GetByte(y, r) == d
  {
    if n > 0 {
      BucketMembers(s, r, d, n - 1);
      forall y | y in Bucket(s, r, d, n - 1)
        ensures y in s[..n]
      {
        var i :| 0 <= i < n - 1 && s[..n - 1][i] == y;
        assert s[..n][i] == y;
      }
      assert s[..n][n - 1] == s[n - 1];
    }
  }

  /** The bucket of a shorter prefix is a prefix of the bucket. */
  lemma {:induction false} BucketPrefix(s: seq<u32>, r: nat, d: nat, m: nat, n: nat)
    requires r < ROUNDS && m <= n <= |s|
    ensures Bucket(s, r, d, m) <= Bucket(s, r, d, n)
    decreases n - m
  {
    if m < n {
      BucketPrefix(s, r, d, m, n - 1);
    }
  }

  /** The key at index `i` is entry number `Occurrences(s, r, d, i)` of its
    * bucket `d`. */
  lemma BucketIndex(s: seq<u32>, r: nat, i: nat)
    requires r < ROUNDS && i < |s|
    ensures Occurrences(s, r, GetByte(s[i], r), i) < |Bucket(s, r, GetByte(s[i], r), |s|)|
    ensures Bucket(s, r, GetByte(s[i], r), |s|)[Occurrences(s, r, GetByte(s[i], r), i)] == s[i]
  {
    var d := GetByte(s[i], r);
    BucketSize(s, r, d, i);
    BucketPrefix(s, r, d, i + 1, |s|);
    assert Bucket(s, r, d, i + 1) == Bucket(s, r, d, i) + [s[i]];
  }

  /** In the first `k` buckets, bucket `e < k` starts at the number of keys
    * with a byte below `e`. */
  lemma {:induction false} ConcatIndex(s: seq<u32>, r: nat, k: nat, n: nat, e: nat, j: nat)
    requires r < ROUNDS && n <= |s| && e < k && j < |Bucket(s, r, e, n)|
    ensures Below(s, r, e, n) + j < |Concat(s, r, k, n)|
    ensures Concat(s, r, k, n)[Below(s, r, e, n) + j] == Bucket(s, r, e, n)[j]
  {
    ConcatSize(s, r, k - 1, n);
    ConcatSize(s, r, k, n);
    if e < k - 1 {
      ConcatIndex(s, r, k - 1, n, e, j);
    } else {
      ConcatSize(s, r, e, n);
    }
  }

  /** The pass puts every key in its slot. */
  lemma PassAtSlot(s: seq<u32>, r: nat, i: nat)
    requires r < ROUNDS && i < |s|
    ensures Slot(s, r, i) < |Pass(s, r)|
    ensures Pass(s, r)[Slot(s, r, i)] == s[i]
  {
    var d := GetByte(s[i], r);
    BucketIndex(s, r, i);
    ConcatIndex(s, r, RADIX, |s|, d, Occurrences(s, r, d, i));
  }

  /** A key's slot lies in the range of its bucket, so inside the output. */
  lemma SlotRange(s: seq<u32>, r: nat, i: nat)
    requires r < ROUNDS && i < |s|
    ensures Below(s, r, GetByte(s[i], r), |s|) <= Slot(s, r, i) < Below(s, r, GetByte(s[i], r) + 1, |s|)
    ensures Slot(s, r, i) < |s|
  {
    var d := GetByte(s[i], r);
    OccurrencesMonotone(s, r, d, i, |s|);
    BelowStep(s, r, d, |s|);
    BelowEnds(s, r, |s|);
    BelowMonotone(s, r, d + 1, RADIX, |s|);
  }

  /** Slots order keys by byte and, among keys with equal bytes, by position:
    * the pass is stable. Distinct keys get distinct slots, so every position
    * is written exactly once. */
  lemma SlotOrder(s: seq<u32>, r: nat, i: nat, j: nat)
    requires r < ROUNDS && i < |s| && j < |s|
    ensures GetByte(s[i], r) < GetByte(s[j], r) ==> Slot(s, r, i) < Slot(s, r, j)
    ensures GetByte(s[i], r) == GetByte(s[j], r) && i < j ==> Slot(s, r, i) < Slot(s, r, j)
    ensures i != j ==> Slot(s, r, i) != Slot(s, r, j)
  {
    var di, dj := GetByte(s[i], r), GetByte(s[j], r);
    SlotRange(s, r, i);
    SlotRange(s, r, j);
    if di < dj {
      BelowMonotone(s, r, di + 1, dj, |s|);
    } else if dj < di {
      BelowMonotone(s, r, dj + 1, di, |s|);
    } else if i < j {
      OccurrencesMonotone(s, r, di, i, j);
    } else if j < i {
      OccurrencesMonotone(s, r, di, j, i);
    }
  }

  /** Among the first `n` keys, the key that is occurrence number `j` of byte
    * `d` exists whenever `j` is below the count. */
  lemma {:induction false} NthOccurrence(s: seq<u32>, r: nat, d: nat, n: nat, j: nat) returns (i: nat)
    requires r < ROUNDS && n <= |s| && j < Occurrences(s, r, d, n)
    ensures i < n && GetByte(s[i], r) == d && Occurrences(s, r, d, i) == j
  {
    if j < Occurrences(s, r, d, n - 1) {
      i := NthOccurrence(s, r, d, n - 1, j);
    } else {
      i := n - 1;
    }
  }

  /** Every output position is the slot of some key. With `SlotOrder`, every
    * position is written by exactly one key. */
  lemma SlotOnto(s: seq<u32>, r: nat, k: nat) returns (i: nat)
    requires r < ROUNDS && k < |s|
    ensures i < |s| && Slot(s, r, i) == k
  {
    BelowEnds(s, r, |s|);
    var d := FindBucket(s, r, k, 0);
    BelowStep(s, r, d, |s|);
    i := NthOccurrence(s, r, d, |s|, k - Below(s, r, d, |s|));
  }

  /** Every position below the number of keys lies in the range of some
    * bucket. */
  lemma FindBucket(s: seq<u32>, r: nat, k: nat, lo: nat) returns (d: nat)
    requires r < ROUNDS && k < |s| && lo <= RADIX && Below(s, r, lo, |s|) <= k
    ensures lo <= d < RADIX
    ensures Below(s, r, d, |s|) <= k < Below(s, r, d + 1, |s|)
    decreases RADIX - lo
  {
    BelowEnds(s, r, |s|);
    if k < Below(s, r, lo + 1, |s|) {
      d := lo;
    } else {
      d := FindBucket(s, r, k, lo + 1);
    }
  }

  // ---------------------------------------------------------------------
  // Permutation

  /** A pass neither creates nor loses keys: it moves key `i` to its slot,
    * distinct keys have distinct slots, and there are as many slots as keys. */
  lemma PassPermutes(s: seq<u32>, r: nat)
    requires r < ROUNDS
    ensures multiset(Pass(s, r)) == multiset(s)
    ensures |Pass(s, r)| == |s|
  {
    ConcatSize(s, r, RADIX, |s|);
    BelowEnds(s, r, |s|);
    var slots := seq(|s|, i requires 0 <= i < |s| => Slot(s, r, i));
    forall i | 0 <= i < |s|
      ensures slots[i] < |Pass(s, r)| && Pass(s, r)[slots[i]] == s[i]
    {
      PassAtSlot(s, r, i);
    }
    forall i, j | 0 <= i < j < |s|
      ensures slots[i] != slots[j]
    {
      SlotOrder(s, r, i, j);
    }
    EmbeddingPermutes(s, Pass(s, r), slots);
  }
}

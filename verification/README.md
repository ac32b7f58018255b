# LSD radix sort of `u32` keys, modelled in Dafny

The modelled system is a least-significant-digit radix sort of 32-bit unsigned
keys, `src/lib.rs`. `radix_sort_u32` allocates a scratch buffer and 256
zeroed `u32` counters. It then calls `radix_sort_u32_rec`, which does one
stable counting-sort pass per byte of the key and recurses with the two buffers
swapped until `round >= 4`. Each pass has four phases:

- count the keys per byte value;
- turn the counts into inclusive prefix sums;
- scatter the keys right to left, decrementing a counter before using it as
  the index;
- zero the counters.

After four passes, an even number, the sorted keys are back in the caller's
buffer.

The project has five modules:

- `Bytes` (`bytes.dfy`): keys as a `u32` subset of `int`, `get_byte`, and the
  base-256 arithmetic behind the least-significant-digit argument.
- `Permutation` (`permutation.dfy`): an injective, element-preserving index
  map between sequences of equal length proves a permutation.
- `Buckets` (`buckets.dfy`): the meaning of one pass, independent of its
  loops. `Pass(s, r)` is the 256 stable buckets of `s` on byte `r`, one after
  the other. `Slot(s, r, i)` is the position the pass gives to key `i`. These
  come with counts, slot ranges, stability, the onto property and the
  permutation property.
- `CountingPass` (`pass.dfy`): the four phases as loops, written the way the
  source writes them. Each phase is proved to compute what it means: the
  per-byte counts `Occurrences`, the running sums `SumTo`, the stable pass
  `Pass` with every key at its `Slot`, and all-zero counters. Together, in
  `CountingSortPass`, they compute `Pass`.
- `RadixSort` (`radix.dfy`): the recursive driver, the entry point, the
  least-significant-digit invariant, and correctness against any other sort.
  It also holds the source's unit examples.

Rust `&mut [u32]` arguments are modelled by value: a method receives the
slice's contents and returns their final contents. Nothing needs `modifies`,
and the buffer swap of the recursion becomes a swap of arguments and results.

The counters are 256 `u32` values (src/lib.rs:4), and the rounds are a bounded
tail recursion (src/lib.rs:14-16, 48), which `RadixSortRec` keeps.

## Model

| member | source | states |
|---|---|---|
| Bytes.GetByte | src/lib.rs:18-22 | the byte `(x >> 8*round) & 0xFF` is below 256, so it is always a valid counter index |
| Bytes.BytesRebuildKey | src/lib.rs:18-22 | the four bytes that `get_byte` extracts for rounds 0..3 are the base-256 digits of the key and rebuild it |
| Bytes.LowBytesOrder | src/lib.rs:18-22 | byte `k` decides the order of the low `k + 1` bytes, and on a tie the low `k` bytes decide; this is why least-significant-first stable passes sort |
| CountingPass.CountBytes | src/lib.rs:25-29 | after the counting loop, `counters[d]` is the number of input keys whose byte is `d`; no `u32` increment overflows |
| Buckets.CountsBounded | src/lib.rs:28 | a counter never exceeds the number of keys seen, which is why the `+= 1` stays inside `u32` |
| CountingPass.PrefixSum | src/lib.rs:32-36 | the inclusive running sum: `sums[d]` is `counters[0] + ... + counters[d]`, it never decreases, and the running `u32` sum does not overflow |
| CountingPass.SumOfOccurrences | src/lib.rs:32-36 | summing the per-byte counts of the bytes below `k` gives the number of keys with a byte below `k`, and all 256 of them give the length |
| CountingPass.CountAndSum | src/lib.rs:25-36 | after counting and prefix-summing, `counters[d]` is the number of keys with byte at most `d`, `counters[255]` is the input length, and the counters are ascending |
| CountingPass.ScatterSlot | src/lib.rs:40-42 | the counter of the current key's byte is positive when the scatter reaches it (the decrement never underflows), and the decremented value is that key's slot, inside the output |
| CountingPass.ScatterStep | src/lib.rs:40-43 | one scatter step (decrement, then store at the decremented counter) keeps the loop state: the written part of each bucket holds what the stable pass puts there |
| CountingPass.Scatter | src/lib.rs:39-44 | the right-to-left scatter with pre-decrement writes exactly the stable pass into the output, puts every key at its slot, and leaves `counters[d]` at the number of keys with a byte below `d` |
| Buckets.SlotRange | src/lib.rs:39-44 | every scatter index lies in its key's bucket range and below the output length |
| Buckets.SlotOrder | src/lib.rs:39-44 | smaller bytes get smaller slots, keys with equal bytes keep their input order (stability), and distinct keys get distinct slots |
| Buckets.SlotOnto | src/lib.rs:39-44 | every output position is the slot of some key, so with `SlotOrder` every position is written exactly once |
| Buckets.PassAtSlot | src/lib.rs:39-44 | the stable pass holds key `i` at its slot |
| Permutation.EmbeddingPermutes | src/lib.rs:39-44 | writing each of `n` keys to a distinct one of `n` positions, with nothing else written, produces a permutation of them |
| Buckets.PassPermutes | src/lib.rs:39-44 | one pass keeps the length and the multiset of the keys |
| CountingPass.ResetCounters | src/lib.rs:47 | `counters.fill(0)` leaves all 256 counters zero |
| CountingPass.CountingSortPass | src/lib.rs:24-47 | one round's four phases: zero counters in, the stable counting sort on byte `round` in the output buffer, zero counters out |
| RadixSort.PassExtendsOrder | src/lib.rs:24-44 | a pass on byte `r` over data sorted by its low `r` bytes leaves it sorted by its low `r + 1` bytes |
| RadixSort.LsdInvariant | src/lib.rs:14-48 | after the passes on bytes `0 .. k - 1` the data is sorted by its low `8k` bits |
| RadixSort.PassesUpToPermutes | src/lib.rs:14-48 | any number of passes keeps the length and the multiset |
| RadixSort.RoundsResume | src/lib.rs:48 | the recursion entered at round `k` on the result of the first `k` passes finishes the sort |
| RadixSort.RadixSortIsFourPasses | src/lib.rs:14-16 | the recursion performs exactly four passes, on bytes 0, 1, 2, 3 in that order, and then stops |
| RadixSort.RadixSortRec | src/lib.rs:9-49 | the counters are zero on every entry and on exit; the result of the passes from `round` on lands in `input` when their number is even and in `output` when it is odd; at `round >= 4` nothing changes |
| RadixSort.RadixSortU32 | src/lib.rs:1-6 | the caller's buffer ends ascending, as a permutation of its input, and equal to the four-pass sort |
| RadixSort.RadixSortCorrect | src/lib.rs:1-6 | the four-pass sort is ascending in unsigned order, keeps the multiset and keeps the length |
| RadixSort.RadixSortAgrees | src/lib.rs:90-102 | the result equals any sorted permutation of the input, such as the standard library sort's |
| RadixSort.RadixSortOfSorted | src/lib.rs:63-68 | already ascending data (empty, single-key, all-equal) is left unchanged |
| RadixSort.RadixSortIdempotent | src/lib.rs:1-6 | sorting the result again changes nothing |
| RadixSort.RadixSortOfDescending | src/lib.rs:1-6 | data in descending order comes out reversed |
| RadixSort.ExampleSmall | src/lib.rs:56-61 | `[5, 3, 8, 7]` sorts to `[3, 5, 7, 8]` |
| RadixSort.ExampleRegression | src/lib.rs:63-68 | `[1, 22695478, 2156045615]` sorts to itself |

## Left out

- The `large` unit test (src/lib.rs:70-103), its linear congruential generator and its million-key comparison with the library sort are test fixtures and are not modelled. `RadixSortAgrees` states the property that test samples, for all inputs.
- The `debug_assert!` checks (src/lib.rs:11-12) are `requires` clauses of `RadixSortRec`, and so is the comment that counters start at zero (src/lib.rs:8).
- Inputs of `2^32` or more keys are excluded by `|input| < U32_LIMIT`, because the source's `u32` counters would overflow there. Every counter update below that bound is proved to stay in range.
- The allocation of `vec!` and of the counter array (src/lib.rs:3-4) is modelled as building a sequence of zeros. `counters.fill(0)` is modelled as a loop that zeroes one counter at a time.
- Slices are modelled by value, so aliasing and the borrow of the buffers are not modelled. The slice iterators of the three loops are modelled as index loops over the same order.
- `round` is a `u32` in the source and a `nat` in the model. It never exceeds 4, so no wrap-around can happen.
- GetByte: the shift and mask are modelled as division by `256^round` and remainder modulo 256 on integers, not as bit-vector operations. This is the usual identity for non-negative integers, and it is not proved here.

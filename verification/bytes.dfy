/**
 * Unsigned 32-bit keys and the byte ("digit") extraction used by every pass
 * of the radix sort. Keys are mathematical integers restricted to the range
 * of a Rust `u32`; an unsigned right shift by `8 * round` is division by
 * `256^round`, and masking with `0xFF` is the remainder modulo 256.
 */
module Bytes {

  /** One more than the largest `u32`. */
  const U32_LIMIT: int := 0x1_0000_0000

  /** A Rust `u32`. */
  type u32 = x: int | 0 <= x < U32_LIMIT

  /** Number of passes: one per byte of a 32-bit key. */
  const ROUNDS: nat := 4

  /** Number of possible byte values, and so the length of the counter array. */
  const RADIX: nat := 256

  /** `256^k` for the byte counts a key can have, `2^(8 * k)`. */
  function Pow256(k: nat): (p: nat)
    requires k <= ROUNDS
    ensures p > 0
  {
    if k == 0 then 1
    else if k == 1 then 0x100
    else if k == 2 then 0x1_0000
    else if k == 3 then 0x100_0000
    else U32_LIMIT
  }

  /** The byte of `x` selected by `round`: `(x >> (8 * round)) & 0xFF`. An
    * unsigned right shift by `8 * round` is division by `256^round`, rounding
    * down, and on a non-negative value masking with `0xFF` keeps the
    * remainder modulo 256. */
  function GetByte(x: u32, round: nat): (b: nat)
    requires round < ROUNDS
    ensures b < RADIX
  {
    if round == 0 then x % 0x100
    else if round == 1 then (x / 0x100) % 0x100
    else if round == 2 then (x / 0x1_0000) % 0x100
    else x / 0x100_0000
  }

  /** The value of the low `k` bytes of `x` (its low `8 * k` bits). */
  function LowBytes(x: u32, k: nat): (v: nat)
    requires k <= ROUNDS
    ensures v < Pow256(k)
  {
    x % Pow256(k)
  }

  /** The four bytes are the base-256 digits of the key: they rebuild it. */
  lemma BytesRebuildKey(x: u32)
    ensures x == GetByte(x, 0) + 0x100 * GetByte(x, 1)
                 + 0x1_0000 * GetByte(x, 2) + 0x100_0000 * GetByte(x, 3)
  {
    LowBytesBounds(x);
    LowBytesSplit(x, 0);
    LowBytesSplit(x, 1);
    LowBytesSplit(x, 2);
    LowBytesSplit(x, 3);
  }

  /** Adding byte `k` on top of the low `k` bytes gives the low `k + 1` bytes. */
  lemma LowBytesSplit(x: u32, k: nat)
    requires k < ROUNDS
    ensures LowBytes(x, k + 1) == GetByte(x, k) * Pow256(k) + LowBytes(x, k)
  {
    if k == 1 {
      SplitAt(x, 0x100, 0x1_0000);
    } else if k == 2 {
      SplitAt(x, 0x1_0000, 0x100_0000);
    } else if k == 3 {
      SplitAt(x, 0x100_0000, 0x1_0000_0000);
    }
  }

  /** Below `256 * p`, a number is its digit at `p` times `p` plus its value
    * below `p`. */
  lemma SplitAt(x: u32, p: nat, q: nat)
    requires 0 < p && q == 0x100 * p
    ensures x % q == ((x / p) % 0x100) * p + x % p
  {
    var hi, lo := x / p, x % p;
    assert x == hi * p + lo;
    var top, digit := hi / 0x100, hi % 0x100;
    assert hi == top * 0x100 + digit;
    assert x == top * q + (digit * p + lo);
    assert 0 <= digit * p + lo < q by {
      assert digit * p <= 0xFF * p;
    }
    ModUnique(x, q, top, digit * p + lo);
  }

  /** Division with remainder is unique. */
  lemma ModUnique(x: nat, q: nat, a: nat, b: nat)
    requires 0 < q && x == a * q + b && b < q
    ensures x % q == b
  {
    var m, r := x / q, x % q;
    assert x == m * q + r;
    if a < m {
      HigherDigitDominates(a, m, b, r, q);
    } else if m < a {
      HigherDigitDominates(m, a, r, b, q);
    }
  }

  /** No bytes say nothing about a key; all four bytes are the whole key. */
  lemma LowBytesBounds(x: u32)
    ensures LowBytes(x, 0) == 0
    ensures LowBytes(x, ROUNDS) == x
  {
  }

  /** Byte `k` decides the order of the low `k + 1` bytes; when it ties, the
    * low `k` bytes decide. This is why sorting byte by byte, least significant
    * first and stably, sorts the keys. */
  lemma LowBytesOrder(x: u32, y: u32, k: nat)
    requires k < ROUNDS
    ensures GetByte(x, k) < GetByte(y, k) ==> LowBytes(x, k + 1) < LowBytes(y, k + 1)
    ensures GetByte(x, k) == GetByte(y, k) ==>
              (LowBytes(x, k) <= LowBytes(y, k) <==> LowBytes(x, k + 1) <= LowBytes(y, k + 1))
  {
    LowBytesSplit(x, k);
    LowBytesSplit(y, k);
    if GetByte(x, k) < GetByte(y, k) {
      HigherDigitDominates(GetByte(x, k), GetByte(y, k), LowBytes(x, k), LowBytes(y, k), Pow256(k));
    }
  }

  /** In any base `p`, a higher leading digit beats any lower digits. */
  lemma HigherDigitDominates(gx: nat, gy: nat, lx: nat, ly: nat, p: nat)
    requires gx < gy && lx < p
    ensures gx * p + lx < gy * p + ly
  {
    assert gy * p == gx * p + (gy - gx - 1) * p + p;
    assert (gy - gx - 1) * p >= 0;
  }
}

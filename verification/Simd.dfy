/** The vector operations that the UUID conversions use, each with the meaning of its instruction on
    lanes. A vector is its bytes, lowest first, as a little-endian host stores it. */
module Simd {
  type Vec128 = s: seq<bv8> | |s| == 16 witness [0, 0, 0, 0, 0, 0, 0, 0, 0, 0, 0, 0, 0, 0, 0, 0]
  type Vec256 = s: seq<bv8> | |s| == 32
    witness [0, 0, 0, 0, 0, 0, 0, 0, 0, 0, 0, 0, 0, 0, 0, 0, 0, 0, 0, 0, 0, 0, 0, 0, 0, 0, 0, 0, 0, 0, 0, 0]

  // ---- Lanes ----

  function Byte32(w: bv32, j: nat): bv8 {
    if j == 0 then (w & 0xFF) as bv8
    else if j == 1 then ((w >> 8) & 0xFF) as bv8
    else if j == 2 then ((w >> 16) & 0xFF) as bv8
    else ((w >> 24) & 0xFF) as bv8
  }

  function Byte64(w: bv64, j: nat): bv8 {
    if j < 4 then Byte32((w & 0xFFFF_FFFF) as bv32, j) else Byte32((w >> 32) as bv32, j - 4)
  }

  function Word32(b0: bv8, b1: bv8, b2: bv8, b3: bv8): bv32 {
    b0 as bv32 | (b1 as bv32 << 8) | (b2 as bv32 << 16) | (b3 as bv32 << 24)
  }

  function Lane32(v: seq<bv8>, k: nat): bv32
    requires 4 * k + 4 <= |v|
  {
    Word32(v[4 * k], v[4 * k + 1], v[4 * k + 2], v[4 * k + 3])
  }

  function Word64(b0: bv8, b1: bv8, b2: bv8, b3: bv8, b4: bv8, b5: bv8, b6: bv8, b7: bv8): bv64 {
    Word32(b0, b1, b2, b3) as bv64 | (Word32(b4, b5, b6, b7) as bv64 << 32)
  }

  function Lane64(v: seq<bv8>, k: nat): bv64
    requires 8 * k + 8 <= |v|
  {
    Word64(v[8 * k], v[8 * k + 1], v[8 * k + 2], v[8 * k + 3],
           v[8 * k + 4], v[8 * k + 5], v[8 * k + 6], v[8 * k + 7])
  }

  function Right64(w: bv64, n: bv8): bv64 {
    if n > 63 then 0 else w >> n
  }

  function Left64(w: bv64, n: bv8): bv64 {
    if n > 63 then 0 else w << n
  }

  function Left32(w: bv32, n: bv8): bv32 {
    if n > 31 then 0 else w << n
  }

  function Add32(x: bv32, y: bv32): bv32 {
    x + y
  }

  // ---- Constants ----

  /** _mm256_set1_epi8 */
  function Set1(b: bv8): (r: Vec256)
    ensures forall i :: 0 <= i < 32 ==> r[i] == b
  {
    seq(32, i => b)
  }

  /** _mm256_set_epi32, the arguments from the lowest lane up. */
  function SetEpi32(e: seq<bv32>): (r: Vec256)
    requires |e| == 8
    ensures forall i :: 0 <= i < 32 ==> r[i] == Byte32(e[i / 4], i % 4)
  {
    seq(32, i requires 0 <= i < 32 => Byte32(e[i / 4], i % 4))
  }

  /** _mm256_set_epi64x, the arguments from the lowest lane up. */
  function SetEpi64(e: seq<bv64>): (r: Vec256)
    requires |e| == 4
    ensures forall i :: 0 <= i < 32 ==> r[i] == Byte64(e[i / 8], i % 8)
  {
    seq(32, i requires 0 <= i < 32 => Byte64(e[i / 8], i % 8))
  }

  // ---- Byte by byte ----

  /** _mm256_and_si256 */
  function And(a: Vec256, b: Vec256): (r: Vec256)
    ensures forall i :: 0 <= i < 32 ==> r[i] == a[i] & b[i]
  {
    seq(32, i requires 0 <= i < 32 => a[i] & b[i])
  }

  /** _mm256_or_si256 */
  function Or(a: Vec256, b: Vec256): (r: Vec256)
    ensures forall i :: 0 <= i < 32 ==> r[i] == a[i] | b[i]
  {
    seq(32, i requires 0 <= i < 32 => a[i] | b[i])
  }

  /** _mm256_add_epi8 */
  function Add(a: Vec256, b: Vec256): (r: Vec256)
    ensures forall i :: 0 <= i < 32 ==> r[i] == a[i] + b[i]
  {
    seq(32, i requires 0 <= i < 32 => a[i] + b[i])
  }

  /** _mm256_sub_epi8 */
  function Sub(a: Vec256, b: Vec256): (r: Vec256)
    ensures forall i :: 0 <= i < 32 ==> r[i] == a[i] - b[i]
  {
    seq(32, i requires 0 <= i < 32 => a[i] - b[i])
  }

  /** _mm256_blendv_epi8: the mask's high bit takes from b. */
  function Blend(a: Vec256, b: Vec256, mask: Vec256): (r: Vec256)
    ensures forall i :: 0 <= i < 32 ==> r[i] == if mask[i] & 0x80 != 0 then b[i] else a[i]
  {
    seq(32, i requires 0 <= i < 32 => if mask[i] & 0x80 != 0 then b[i] else a[i])
  }

  // ---- Wider lanes ----

  /** _mm256_srli_epi64 */
  function ShiftRight64(a: Vec256, n: bv8): (r: Vec256)
    ensures forall i :: 0 <= i < 32 ==> r[i] == Byte64(Right64(Lane64(a, i / 8), n), i % 8)
  {
    seq(32, i requires 0 <= i < 32 => Byte64(Right64(Lane64(a, i / 8), n), i % 8))
  }

  /** _mm256_slli_epi64 */
  function ShiftLeft64(a: Vec256, n: bv8): (r: Vec256)
    ensures forall i :: 0 <= i < 32 ==> r[i] == Byte64(Left64(Lane64(a, i / 8), n), i % 8)
  {
    seq(32, i requires 0 <= i < 32 => Byte64(Left64(Lane64(a, i / 8), n), i % 8))
  }

  /** _mm256_sllv_epi32: each lane by its own count. */
  function ShiftLeft32(a: Vec256, n: seq<bv8>): (r: Vec256)
    requires |n| == 8
    ensures forall i :: 0 <= i < 32 ==> r[i] == Byte32(Left32(Lane32(a, i / 4), n[i / 4]), i % 4)
  {
    seq(32, i requires 0 <= i < 32 => Byte32(Left32(Lane32(a, i / 4), n[i / 4]), i % 4))
  }

  /** The 32-bit lane that _mm256_hadd_epi32 puts at k: in each half, the sums of adjacent pairs of
      a, then those of b. */
  function HaddLane(a: Vec256, b: Vec256, k: nat): bv32
    requires k < 8
  {
    var v, j := if k % 4 < 2 then a else b, k / 4 * 4 + k % 2 * 2;
    Add32(Lane32(v, j), Lane32(v, j + 1))
  }

  /** _mm256_hadd_epi32 */
  function Hadd32(a: Vec256, b: Vec256): (r: Vec256)
    ensures forall i :: 0 <= i < 32 ==> r[i] == Byte32(HaddLane(a, b, i / 4), i % 4)
  {
    seq(32, i requires 0 <= i < 32 => Byte32(HaddLane(a, b, i / 4), i % 4))
  }

  // ---- Moving bytes ----

  /** _mm256_unpacklo_epi8: in each half, the low eight bytes of a and b in turn. */
  function UnpackLow(a: Vec256, b: Vec256): (r: Vec256)
    ensures forall i :: 0 <= i < 32 ==> r[i] == (if i % 2 == 0 then a else b)[i / 16 * 16 + i % 16 / 2]
  {
    seq(32, i requires 0 <= i < 32 => (if i % 2 == 0 then a else b)[i / 16 * 16 + i % 16 / 2])
  }

  /** _mm256_unpackhi_epi8: in each half, the high eight bytes of a and b in turn. */
  function UnpackHigh(a: Vec256, b: Vec256): (r: Vec256)
    ensures forall i :: 0 <= i < 32 ==> r[i] == (if i % 2 == 0 then a else b)[i / 16 * 16 + 8 + i % 16 / 2]
  {
    seq(32, i requires 0 <= i < 32 => (if i % 2 == 0 then a else b)[i / 16 * 16 + 8 + i % 16 / 2])
  }

  /** _mm256_shuffle_epi8: a byte of the same half, or zero where the index has its high bit set. */
  function Shuffle(a: Vec256, index: Vec256): (r: Vec256)
    ensures forall i :: 0 <= i < 32 ==>
      r[i] == if index[i] & 0x80 != 0 then 0 else a[i / 16 * 16 + (index[i] & 0x0F) as int]
  {
    seq(32, i requires 0 <= i < 32 =>
      if index[i] & 0x80 != 0 then 0 else a[i / 16 * 16 + (index[i] & 0x0F) as int])
  }

  /** _mm256_permute4x64_epi64: 64-bit lane k is the one that bits 2k and 2k+1 of the selector name. */
  function Permute64(a: Vec256, selector: seq<nat>): (r: Vec256)
    requires |selector| == 4 && forall k :: 0 <= k < 4 ==> selector[k] < 4
    ensures forall i :: 0 <= i < 32 ==> r[i] == a[8 * selector[i / 8] + i % 8]
  {
    seq(32, i requires 0 <= i < 32 => a[8 * selector[i / 8] + i % 8])
  }

  /** _mm256_castsi128_si256: the upper half is whatever the register held. */
  function Cast256(x: Vec128, upper: Vec128): Vec256 {
    x + upper
  }

  /** _mm256_castsi256_si128 */
  function Cast128(a: Vec256): Vec128 {
    a[..16]
  }

  /** _mm256_inserti128_si256(a, x, 1) */
  function InsertHigh128(a: Vec256, x: Vec128): Vec256 {
    a[..16] + x
  }

  /** _mm256_insert_epi16(a, w, 7) */
  function Insert16At7(a: Vec256, w: seq<bv8>): Vec256
    requires |w| == 2
  {
    a[..14] + w + a[16..]
  }

  /** _mm256_insert_epi32(a, w, 7) */
  function Insert32At7(a: Vec256, w: seq<bv8>): Vec256
    requires |w| == 4
  {
    a[..28] + w
  }
}

/** The 128-bit vectors of SSE2 as four 32-bit lanes, lane 0 lowest, and the lane-wise instructions used. */
module Sse2 {
  import opened Bytes

  datatype Vec = Vec(l0: word, l1: word, l2: word, l3: word) {
    function Lane(i: nat): word
      requires i < 4
    {
      if i == 0 then l0 else if i == 1 then l1 else if i == 2 then l2 else l3
    }

    function Lanes(): (s: seq<word>)
      ensures |s| == 4 && forall i | 0 <= i < 4 :: s[i] == Lane(i)
    {
      [l0, l1, l2, l3]
    }
  }

  /** _mm_add_epi32 */
  function AddEpi32(a: Vec, b: Vec): Vec {
    Vec(Add32(a.l0, b.l0), Add32(a.l1, b.l1), Add32(a.l2, b.l2), Add32(a.l3, b.l3))
  }

  /** _mm_xor_si128 */
  function XorSi128(a: Vec, b: Vec): Vec {
    Vec(Xor32(a.l0, b.l0), Xor32(a.l1, b.l1), Xor32(a.l2, b.l2), Xor32(a.l3, b.l3))
  }

  /** _mm_slli_epi32 */
  function SlliEpi32(a: Vec, n: nat): Vec
    requires n <= 32
  {
    Vec(Shl32(a.l0, n), Shl32(a.l1, n), Shl32(a.l2, n), Shl32(a.l3, n))
  }

  /** _mm_srli_epi32 */
  function SrliEpi32(a: Vec, n: nat): Vec
    requires n <= 32
  {
    Vec(Shr32(a.l0, n), Shr32(a.l1, n), Shr32(a.l2, n), Shr32(a.l3, n))
  }

  /** _mm_shuffle_epi32: two bits of the immediate select the source of each lane. */
  function ShuffleEpi32(a: Vec, imm: nat): Vec
    requires imm < 256
  {
    Vec(a.Lane(imm % 4), a.Lane(imm / 4 % 4), a.Lane(imm / 16 % 4), a.Lane(imm / 64 % 4))
  }

  lemma Shuffle93(v: Vec) ensures ShuffleEpi32(v, 0x93) == Vec(v.l3, v.l0, v.l1, v.l2) {}
  lemma Shuffle4E(v: Vec) ensures ShuffleEpi32(v, 0x4E) == Vec(v.l2, v.l3, v.l0, v.l1) {}
  lemma Shuffle39(v: Vec) ensures ShuffleEpi32(v, 0x39) == Vec(v.l1, v.l2, v.l3, v.l0) {}

  /** An aligned load of four consecutive words. */
  function Load(s: seq<word>, i: nat): Vec
    requires i + 4 <= |s|
  {
    Vec(s[i], s[i + 1], s[i + 2], s[i + 3])
  }
}

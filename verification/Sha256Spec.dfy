/** SHA-256 as specified in FIPS 180-4: padding (section 5.1.1) and hash computation (section 6.2). */
module Sha256Spec {
  import opened Bytes

  //////////////////////////////////////////////////////////////////////////////
  // Functions and constants (sections 4.1.2, 4.2.2 and 5.3.3)
  //////////////////////////////////////////////////////////////////////////////

  function Rotr(x: word, n: nat): word
    requires n <= 32
  {
    x.RotateRight(n)
  }

  function Ch(x: word, y: word, z: word): word {
    (x & y) ^ (!x & z)
  }

  function Maj(x: word, y: word, z: word): word {
    (x & y) ^ (x & z) ^ (y & z)
  }

  function BigSigma0(x: word): word {
    Xor32(Xor32(Rotr(x, 2), Rotr(x, 13)), Rotr(x, 22))
  }

  function BigSigma1(x: word): word {
    Xor32(Xor32(Rotr(x, 6), Rotr(x, 11)), Rotr(x, 25))
  }

  function SmallSigma0(x: word): word {
    Xor32(Xor32(Rotr(x, 7), Rotr(x, 18)), Shr32(x, 3))
  }

  function SmallSigma1(x: word): word {
    Xor32(Xor32(Rotr(x, 17), Rotr(x, 19)), Shr32(x, 10))
  }

  const KRND: seq<word> :=
    [0x428a2f98, 0x71374491, 0xb5c0fbcf, 0xe9b5dba5, 0x3956c25b, 0x59f111f1, 0x923f82a4, 0xab1c5ed5] +
    [0xd807aa98, 0x12835b01, 0x243185be, 0x550c7dc3, 0x72be5d74, 0x80deb1fe, 0x9bdc06a7, 0xc19bf174] +
    [0xe49b69c1, 0xefbe4786, 0x0fc19dc6, 0x240ca1cc, 0x2de92c6f, 0x4a7484aa, 0x5cb0a9dc, 0x76f988da] +
    [0x983e5152, 0xa831c66d, 0xb00327c8, 0xbf597fc7, 0xc6e00bf3, 0xd5a79147, 0x06ca6351, 0x14292967] +
    [0x27b70a85, 0x2e1b2138, 0x4d2c6dfc, 0x53380d13, 0x650a7354, 0x766a0abb, 0x81c2c92e, 0x92722c85] +
    [0xa2bfe8a1, 0xa81a664b, 0xc24b8b70, 0xc76c51a3, 0xd192e819, 0xd6990624, 0xf40e3585, 0x106aa070] +
    [0x19a4c116, 0x1e376c08, 0x2748774c, 0x34b0bcb5, 0x391c0cb3, 0x4ed8aa4a, 0x5b9cca4f, 0x682e6ff3] +
    [0x748f82ee, 0x78a5636f, 0x84c87814, 0x8cc70208, 0x90befffa, 0xa4506ceb, 0xbef9a3f7, 0xc67178f2]

  function K(t: nat): word
    requires t < 64
  {
    KRND[t]
  }

  function InitialState(): (s: seq<word>)
    ensures |s| == 8
  {
    [0x6A09E667, 0xBB67AE85, 0x3C6EF372, 0xA54FF53A, 0x510E527F, 0x9B05688C, 0x1F83D9AB, 0x5BE0CD19]
  }

  //////////////////////////////////////////////////////////////////////////////
  // The compression function (section 6.2.2)
  //////////////////////////////////////////////////////////////////////////////

  /** W_t, from the 16 big-endian words M of the block. */
  ghost function Schedule(M: seq<word>, t: nat): word
    requires |M| == 16
  {
    if t < 16 then M[t]
    else
      Add32(Add32(Add32(SmallSigma1(Schedule(M, t - 2)), Schedule(M, t - 7)),
                  SmallSigma0(Schedule(M, t - 15))), Schedule(M, t - 16))
  }

  /** The working variables. */
  datatype Vars = Vars(a: word, b: word, c: word, d: word, e: word, f: word, g: word, h: word)

  /** Step 3 for one t: two temporaries, then every variable moves on by one. */
  function Round(v: Vars, k: word, w: word): Vars {
    var T1 := Add32(Add32(Add32(Add32(v.h, BigSigma1(v.e)), Ch(v.e, v.f, v.g)), k), w);
    var T2 := Add32(BigSigma0(v.a), Maj(v.a, v.b, v.c));
    Vars(Add32(T1, T2), v.a, v.b, v.c, Add32(v.d, T1), v.e, v.f, v.g)
  }

  /** The working variables after t rounds. */
  ghost function Rounds(v: Vars, M: seq<word>, t: nat): Vars
    requires |M| == 16 && t <= 64
  {
    if t == 0 then v else Round(Rounds(v, M, t - 1), K(t - 1), Schedule(M, t - 1))
  }

  function VarsOf(s: seq<word>): Vars
    requires |s| == 8
  {
    Vars(s[0], s[1], s[2], s[3], s[4], s[5], s[6], s[7])
  }

  function SeqOf(v: Vars): (s: seq<word>)
    ensures |s| == 8
  {
    [v.a, v.b, v.c, v.d, v.e, v.f, v.g, v.h]
  }

  function AddState(s: seq<word>, t: seq<word>): (u: seq<word>)
    requires |s| == |t|
    ensures |u| == |s|
  {
    seq(|s|, i requires 0 <= i < |s| => Add32(s[i], t[i]))
  }

  /** The hash value after one more block. */
  ghost function Compress(s: seq<word>, M: seq<word>): (u: seq<word>)
    requires |s| == 8 && |M| == 16
    ensures |u| == 8
  {
    AddState(s, SeqOf(Rounds(VarsOf(s), M, 64)))
  }

  //////////////////////////////////////////////////////////////////////////////
  // Padding and hashing (sections 5.1.1 and 6.2)
  //////////////////////////////////////////////////////////////////////////////

  /** The hash value after the first n blocks of m. */
  ghost function Fold(m: seq<byte>, n: nat): (s: seq<word>)
    requires 64 * n <= |m|
    ensures |s| == 8
  {
    if n == 0 then InitialState()
    else Compress(Fold(m, n - 1), BeWords(m[64 * (n - 1)..64 * (n - 1) + 64]))
  }

  /** The number of zero octets: the least that makes the length 56 modulo 64. */
  function ZeroOctets(len: nat): (z: nat)
    ensures z < 64 && (len + 1 + z) % 64 == 56
  {
    (55 - len) % 64
  }

  function Zeros(n: nat): (s: seq<byte>)
    ensures |s| == n
  {
    seq(n, i => 0)
  }

  /** The message, a one bit, zero bits, and the length in bits as a 64-bit integer. */
  function Padded(m: seq<byte>): (p: seq<byte>)
    ensures |p| == |m| + 9 + ZeroOctets(|m|)
  {
    m + ([0x80] + Zeros(ZeroOctets(|m|))) + BeEnc(8 * |m|, 8)
  }

  ghost function Sha256(m: seq<byte>): (d: seq<byte>)
    ensures |d| == 32
  {
    BeUnwords(Fold(Padded(m), |Padded(m)| / 64))
  }

  /** Octets 4 * k to 4 * k + 3 of the digest are word k of the final hash value, most significant first. */
  lemma DigestWord(m: seq<byte>, k: nat)
    requires k < 8
    ensures BeNat(Sha256(m)[4 * k..4 * k + 4]) == WordVal(Fold(Padded(m), |Padded(m)| / 64)[k])
  {
    hide BeNat, BeUnwords, WordVal, Fold, Padded;
    BeUnwordsAt(Fold(Padded(m), |Padded(m)| / 64), k);
  }

  /**
   The padded message octet by octet: the message, 80 in hexadecimal, zeros, and the number of bits in the last eight
   octets; as short as whole blocks allow.
   */
  lemma PaddingIs(m: seq<byte>)
    ensures var P := Padded(m);
            && |P| % 64 == 0 && |m| + 9 <= |P| < |m| + 73
            && P[..|m|] == m && P[|m|] == 0x80
            && (forall i | |m| < i < |P| - 8 :: P[i] == 0x00)
            && (8 * |m| < TWO64 ==> BeNat(P[|P| - 8..]) == 8 * |m|)
  {
    hide BeEnc, BeNat, Pow256, ZeroOctets;
    var P, z, e := Padded(m), Zeros(ZeroOctets(|m|)), BeEnc(8 * |m|, 8);
    assert P == m + [0x80] + z + e;
    assert P[|P| - 8..] == e;
    Pow256Of8();
    if 8 * |m| < TWO64 {
      BeEncRoundTrip(8 * |m|, 8);
    }
  }

  /** Two messages shorter than 2^61 octets are the same if their padded forms are. */
  lemma PaddedInjective(m: seq<byte>, n: seq<byte>)
    requires 8 * |m| < TWO64 && 8 * |n| < TWO64 && Padded(m) == Padded(n)
    ensures m == n
  {
    hide Padded, BeNat;
    PaddingIs(m);
    PaddingIs(n);
  }

  lemma FoldNext(m: seq<byte>, n: nat)
    requires 64 * n + 64 <= |m|
    ensures Fold(m, n + 1) == Compress(Fold(m, n), BeWords(m[64 * n..64 * n + 64]))
  {
    hide Compress, BeWords;
  }

  /** Later octets do not change the hash value after the first n blocks. */
  lemma {:induction false} FoldPrefix(m: seq<byte>, x: seq<byte>, n: nat)
    requires 64 * n <= |m|
    ensures Fold(m + x, n) == Fold(m, n)
    decreases n
  {
    hide Compress, BeWords;
    if n != 0 {
      FoldPrefix(m, x, n - 1);
      assert (m + x)[64 * (n - 1)..64 * (n - 1) + 64] == m[64 * (n - 1)..64 * (n - 1) + 64];
    }
  }
}

/**
 scrypt as specified in section 6 of RFC 7914, and crypto_scrypt of lib-platform/crypto/crypto_scrypt.c
 and lib/crypto/crypto_scrypt-ref.c.
 */
module Scrypt {
  import opened Bits
  import opened Bytes
  import Collisions
  import opened Mem
  import MixWords
  import Pbkdf2
  import Rfc7914
  import Sha256Spec
  import Smix
  import SmixRef
  import SmixSse2

  //////////////////////////////////////////////////////////////////////////////
  // RFC 7914, section 6
  //////////////////////////////////////////////////////////////////////////////

  /** The first n of the p blocks of 128 * r octets, each mixed on its own. */
  ghost function MixBlocks(B: seq<byte>, N: nat, r: nat, p: nat, n: nat): (M: seq<byte>)
    requires r >= 1 && N >= 1 && |B| == p * (128 * r) && n <= p
    ensures |M| == n * (128 * r)
    decreases n
  {
    if n == 0 then []
    else
      RowBound(n - 1, p, 128 * r);
      MixBlocks(B, N, r, p, n - 1) + Rfc7914.ROMix(Rfc7914.SalsaOctets(), Get(B, (n - 1) * (128 * r), 128 * r), r, N)
  }

  ghost function Scrypt(P: seq<byte>, S: seq<byte>, N: nat, r: nat, p: nat, dkLen: nat): (dk: seq<byte>)
    requires r >= 1 && N >= 1
    ensures |dk| == dkLen
  {
    var B := Pbkdf2.Pbkdf2(P, S, 1, p * (128 * r));
    Pbkdf2.Pbkdf2(P, MixBlocks(B, N, r, p, p), 1, dkLen)
  }

  //////////////////////////////////////////////////////////////////////////////
  // The parameter checks
  //////////////////////////////////////////////////////////////////////////////

  datatype Errno = OK | EINVAL | EFBIG | ENOMEM

  /** The tests as the source makes them; slack is the size of XY beyond 256 * r, 64 octets or none. */
  function Gate(SIZE_MAX: nat, slack: nat, N: nat, r: nat, p: nat, buflen: nat): Errno
    requires SIZE_MAX == SIZE32 || SIZE_MAX == SIZE64
    requires N < TWO64 && slack <= SIZE_MAX
  {
    if r == 0 || p == 0 then EINVAL
    else if SIZE_MAX > TWO32 - 1 && buflen > (TWO32 - 1) * 32 then EFBIG
    else if r * p >= 0x4000_0000 then EFBIG
    else if BitAnd(N, (N + TWO64 - 1) % TWO64) != 0 || N < 2 then EINVAL
    else if r > SIZE_MAX / 128 / p
         || (SIZE_MAX / 256 <= TWO32 - 1 && r > (SIZE_MAX - slack) / 256)
         || N > SIZE_MAX / 128 / r then ENOMEM
    else OK
  }

  /** The parameters of RFC 7914, and every size computed from them is below SIZE_MAX. */
  ghost predicate Acceptable(SIZE_MAX: nat, slack: nat, N: nat, r: nat, p: nat, buflen: nat) {
    && r >= 1 && p >= 1 && r * p < 0x4000_0000
    && N >= 2 && IsPow2(N)
    && (SIZE_MAX == SIZE64 ==> buflen <= (TWO32 - 1) * 32)
    && 128 * r * p <= SIZE_MAX && 256 * r + slack <= SIZE_MAX && 128 * r * N <= SIZE_MAX
  }

  /** The checks accept exactly the acceptable parameters, and report the first thing that is wrong with others. */
  lemma GateIsExact(SIZE_MAX: nat, slack: nat, N: nat, r: nat, p: nat, buflen: nat)
    requires SIZE_MAX == SIZE32 || SIZE_MAX == SIZE64
    requires N < TWO64 && r < TWO32 && p < TWO32 && slack <= 64
    ensures Gate(SIZE_MAX, slack, N, r, p, buflen) == OK <==> Acceptable(SIZE_MAX, slack, N, r, p, buflen)
    ensures Gate(SIZE_MAX, slack, N, r, p, buflen)
         == if r == 0 || p == 0 then EINVAL
            else if (SIZE_MAX == SIZE64 && buflen > 32 * 0xffff_ffff) || r * p >= 0x4000_0000 then EFBIG
            else if N < 2 || !IsPow2(N) then EINVAL
            else if 128 * r * p > SIZE_MAX || 256 * r + slack > SIZE_MAX || 128 * r * N > SIZE_MAX then ENOMEM
            else OK
  {
    hide BitAnd, IsPow2;
    if r >= 1 && p >= 1 && N >= 2 {
      assert (N + TWO64 - 1) % TWO64 == N - 1;
      PowerOfTwoTest(N);
      DivideTwice(SIZE_MAX, 128, p, r);
      DivideTwice(SIZE_MAX, 128, r, N);
      DivideOnce(SIZE_MAX - slack, 256, r);
      assert 128 * p * r == 128 * r * p;
    }
  }

  /** With 64 bits the checks already keep the output length below the point where PBKDF2 never ends. */
  lemma LengthEnds64(slack: nat, N: nat, r: nat, p: nat, buflen: nat)
    requires N < TWO64 && slack <= SIZE64 && buflen > SIZE64 - 31
    ensures Gate(SIZE64, slack, N, r, p, buflen) != OK
  {
    hide BitAnd;
  }

  /** What the computation needs of accepted parameters. */
  lemma AcceptedMeans(SIZE_MAX: nat, slack: nat, N: nat, r: nat, p: nat, buflen: nat)
    requires SIZE_MAX == SIZE32 || SIZE_MAX == SIZE64
    requires Acceptable(SIZE_MAX, slack, N, r, p, buflen) && N < TWO64
    ensures r >= 1 && p >= 1 && N >= 1 && MixWords.LoopSize(N)
    ensures p * (128 * r) <= 32 * (TWO32 - 1) && p * (128 * r) <= SIZE_MAX - 31
    ensures SIZE_MAX == SIZE64 ==> buflen <= 32 * (TWO32 - 1)
  {
    hide Pow2;
    var k: nat :| N == Pow2(k);
    MixWords.Pow2Of64();
    One();
    if k >= 64 {
      Pow2Increases(64, k);
    }
    assert p * (128 * r) == 128 * (r * p) == 128 * r * p;
  }

  lemma One()
    ensures Pow2(0) == 1
  {
  }

  /** The least r for which the checks imply that N < 2^(128 * r / 8), which RFC 7914 also asks for. */
  function RfcMinimum(SIZE_MAX: nat): nat {
    if SIZE_MAX == SIZE64 then 4 else 2
  }

  /** An accepted N = 2^k meets that bound exactly when k < 16 * r. */
  lemma RfcBound(r: nat, k: nat)
    requires r >= 1
    ensures Pow2(k) < Pow2(128 * r / 8) <==> k < 16 * r
  {
    hide Pow2;
    assert 128 * r / 8 == 16 * r;
    if k < 16 * r {
      Pow2Increases(k, 16 * r);
    } else {
      Pow2Increases(16 * r, k);
    }
  }

  lemma AcceptedBelow(SIZE_MAX: nat, slack: nat, N: nat, r: nat, p: nat, buflen: nat)
    requires SIZE_MAX == SIZE32 || SIZE_MAX == SIZE64
    requires Acceptable(SIZE_MAX, slack, N, r, p, buflen) && N < TWO64 && r >= RfcMinimum(SIZE_MAX)
    ensures N < Pow2(128 * r / 8)
  {
    hide Pow2;
    MixWords.Pow2Of64();
    Pow2Of32();
    assert 128 * r / 8 == 16 * r;
    if SIZE_MAX == SIZE64 {
      Pow2Increases(64, 16 * r);
    } else {
      MulMonotone(1, 128 * r, N);
      Pow2Increases(32, 16 * r);
    }
  }

  /** The accepted N that RFC 7914 excludes, for small r. */
  lemma ExcludedAccepted(SIZE_MAX: nat, slack: nat, k: nat, r: nat, p: nat, buflen: nat)
    requires SIZE_MAX == SIZE32 || SIZE_MAX == SIZE64
    requires 1 <= r < RfcMinimum(SIZE_MAX) && 16 * r <= k <= 63 && 128 * r * Pow2(k) <= SIZE_MAX && slack <= 64
    requires p >= 1 && r * p < 0x4000_0000 && 128 * r * p <= SIZE_MAX
    requires SIZE_MAX == SIZE64 ==> buflen <= (TWO32 - 1) * 32
    ensures Pow2(k) < TWO64 && Gate(SIZE_MAX, slack, Pow2(k), r, p, buflen) == OK
    ensures Pow2(k) >= Pow2(128 * r / 8)
  {
    hide Pow2, Gate;
    MixWords.Pow2Of64();
    MixWords.Pow2Of1();
    Pow2Increases(1, k);
    Pow2Increases(k, 64);
    assert p < TWO32 by { MulMonotone(1, r, p); }
    GateIsExact(SIZE_MAX, slack, Pow2(k), r, p, buflen);
    RfcBound(r, k);
  }

  /** For a given r, every N that the checks accept meets the bound of RFC 7914 if and only if r is at least 4, or 2. */
  lemma RfcBoundExact(SIZE_MAX: nat, slack: nat, r: nat)
    requires (SIZE_MAX == SIZE32 || SIZE_MAX == SIZE64) && 1 <= r < TWO32 && slack <= 64
    ensures (forall N: nat, p: nat, buflen: nat |
               N < TWO64 && p < TWO32 && Gate(SIZE_MAX, slack, N, r, p, buflen) == OK :: N < Pow2(128 * r / 8))
       <==> r >= RfcMinimum(SIZE_MAX)
  {
    hide Pow2, Gate, Acceptable;
    if r >= RfcMinimum(SIZE_MAX) {
      forall N: nat, p: nat, buflen: nat | N < TWO64 && p < TWO32 && Gate(SIZE_MAX, slack, N, r, p, buflen) == OK
        ensures N < Pow2(128 * r / 8)
      {
        GateIsExact(SIZE_MAX, slack, N, r, p, buflen);
        AcceptedBelow(SIZE_MAX, slack, N, r, p, buflen);
      }
    } else {
      SmallPowers();
      ExcludedAccepted(SIZE_MAX, slack, 16 * r, r, 1, 0);
    }
  }

  lemma SmallPowers()
    ensures Pow2(16) == 65536 && Pow2(32) == TWO32 && Pow2(48) == 65536 * TWO32
  {
    hide Pow2;
    Pow2Of16();
    Pow2Of32();
    Pow2Split(16, 32);
  }

  lemma Pow2Of32()
    ensures Pow2(32) == TWO32
  {
    hide Pow2;
    Pow2Of16();
    Pow2Split(16, 16);
  }

  /** The least parameters that RFC 7914 excludes and the checks accept. */
  lemma LargeNAccepted()
    ensures 65536 >= Pow2(128 * 1 / 8) && Gate(SIZE64, 64, 65536, 1, 1, 64) == OK
  {
    hide Pow2, Gate;
    Pow2Of16();
    GateIsExact(SIZE64, 64, 65536, 1, 1, 64);
  }

  lemma Pow2Of16()
    ensures Pow2(16) == 65536
  {
    assert Pow2(4) == 16;
    Pow2Split(4, 4);
    Pow2Split(8, 8);
  }

  //////////////////////////////////////////////////////////////////////////////
  // The computation
  //////////////////////////////////////////////////////////////////////////////

  /** The smix routines that crypto_scrypt_internal can be given. */
  datatype Routine = Generic | Vector

  method RunSmix(smix: Routine, B: array<byte>, off: nat, r: nat, N: nat, V: array<word>, XY: array<word>)
    requires r >= 1 && off + 128 * r <= B.Length && MixWords.LoopSize(N)
    requires V != XY && V.Length == N * (32 * r) && XY.Length == 64 * r + 16
    modifies B, V, XY
    ensures N >= 1
    ensures B[..] == Put(old(B[..]), off, Rfc7914.ROMix(Rfc7914.SalsaOctets(), Get(old(B[..]), off, 128 * r), r, N))
  {
    hide *;
    match smix {
      case Generic => Smix.CryptoScryptSmix(B, off, r, N, V, XY);
      case Vector => SmixSse2.CryptoScryptSmixSse2(B, off, r, N, V, XY);
    }
  }

  /** i * 128 * r as the source computes it: i is a 32-bit integer, so its product with 128 wraps. */
  function Offset(i: nat, r: nat): nat {
    i * 128 % TWO32 * r
  }

  /** The number of slices that 32-bit offsets can tell apart. */
  const WRAP: nat := 0x200_0000

  lemma OffsetIs(i: nat, r: nat)
    ensures Offset(i, r) == i % WRAP * (128 * r)
  {
    assert i * 128 % TWO32 == i % WRAP * 128;
    assert i % WRAP * 128 * r == i % WRAP * (128 * r);
  }

  /** The slice handed to smix is inside B. */
  lemma OffsetFits(i: nat, r: nat, p: nat)
    requires i < p
    ensures Offset(i, r) + 128 * r <= p * (128 * r)
  {
    hide Offset;
    OffsetIs(i, r);
    RowBound(i % WRAP, p, 128 * r);
  }

  /** Every slice gets its own offset exactly when there are at most 2^25 of them. */
  lemma OffsetsExact(r: nat, p: nat)
    requires r >= 1
    ensures (forall i | 0 <= i < p :: Offset(i, r) == i * (128 * r)) <==> p <= 0x200_0000
  {
    hide Offset;
    if p <= WRAP {
      forall i | 0 <= i < p
        ensures Offset(i, r) == i * (128 * r)
      {
        OffsetIs(i, r);
      }
    } else {
      OffsetIs(WRAP, r);
      RowBound(0, WRAP, 128 * r);
    }
  }

  /** With a 32-bit size_t the checks leave no more than 2^25 slices. */
  lemma NoWrap32(slack: nat, N: nat, r: nat, p: nat, buflen: nat)
    requires Acceptable(SIZE32, slack, N, r, p, buflen)
    ensures p <= 0x200_0000
  {
    hide IsPow2;
    MulMonotone(1, r, 128 * p);
    assert r * (128 * p) == 128 * r * p;
  }

  /** B after n steps of the loop of crypto_scrypt_internal. */
  ghost function MixSlices(B: seq<byte>, N: nat, r: nat, p: nat, n: nat): (t: seq<byte>)
    requires r >= 1 && N >= 1 && |B| == p * (128 * r) && n <= p
    ensures |t| == |B|
    decreases n
  {
    if n == 0 then B
    else
      OffsetFits(n - 1, r, p);
      var t, c := MixSlices(B, N, r, p, n - 1), Offset(n - 1, r);
      Put(t, c, Rfc7914.ROMix(Rfc7914.SalsaOctets(), Get(t, c, 128 * r), r, N))
  }

  /** Up to 2^25 slices: each is mixed once, as PBKDF2 left it, and nothing else changes. */
  lemma {:induction false} SlicesAreBlocks(B: seq<byte>, N: nat, r: nat, p: nat, n: nat)
    requires r >= 1 && N >= 1 && |B| == p * (128 * r) && n <= p <= WRAP
    ensures |MixBlocks(B, N, r, p, n)| <= |B|
    ensures MixSlices(B, N, r, p, n) == Put(B, 0, MixBlocks(B, N, r, p, n))
    decreases n
  {
    hide Put, Get, Rfc7914.ROMix, Rfc7914.SalsaOctets, Offset;
    if n == 0 {
      PutNothing(B, 0);
    } else {
      SlicesAreBlocks(B, N, r, p, n - 1);
      OffsetIs(n - 1, r);
      RowBound(n - 1, p, 128 * r);
      var M, c := MixBlocks(B, N, r, p, n - 1), (n - 1) * (128 * r);
      GetPutApart(B, 0, M, c, 128 * r);
      PutJoin(B, 0, M, Rfc7914.ROMix(Rfc7914.SalsaOctets(), Get(B, c, 128 * r), r, N));
    }
  }

  /** Slice j of p slices of 128 * r octets. */
  ghost function Slice(B: seq<byte>, r: nat, p: nat, j: nat): (s: seq<byte>)
    requires |B| == p * (128 * r) && j < p
    ensures |s| == 128 * r
  {
    RowBound(j, p, 128 * r);
    Get(B, j * (128 * r), 128 * r)
  }

  /** From slice 2^25 on, nothing is ever mixed. */
  lemma {:induction false} LateSlicesUnmixed(B: seq<byte>, N: nat, r: nat, p: nat, n: nat, j: nat)
    requires r >= 1 && N >= 1 && |B| == p * (128 * r) && n <= p && WRAP <= j < p
    ensures Slice(MixSlices(B, N, r, p, n), r, p, j) == Slice(B, r, p, j)
    decreases n
  {
    hide Put, Get, Rfc7914.ROMix, Rfc7914.SalsaOctets, Offset;
    RowBound(j, p, 128 * r);
    if n != 0 {
      LateSlicesUnmixed(B, N, r, p, n - 1, j);
      OffsetFits(n - 1, r, p);
      OffsetIs(n - 1, r);
      RowBound((n - 1) % WRAP, j, 128 * r);
      var t, c := MixSlices(B, N, r, p, n - 1), Offset(n - 1, r);
      GetPutApart(t, c, Rfc7914.ROMix(Rfc7914.SalsaOctets(), Get(t, c, 128 * r), r, N), j * (128 * r), 128 * r);
    }
  }

  lemma {:induction false} BlockAt(B: seq<byte>, N: nat, r: nat, p: nat, n: nat, j: nat)
    requires r >= 1 && N >= 1 && |B| == p * (128 * r) && j < n <= p
    ensures Slice(MixBlocks(B, N, r, p, n), r, n, j)
         == Rfc7914.ROMix(Rfc7914.SalsaOctets(), Slice(B, r, p, j), r, N)
    decreases n
  {
    hide Rfc7914.ROMix, Rfc7914.SalsaOctets;
    RowBound(j, n, 128 * r);
    RowBound(j, p, 128 * r);
    if j < n - 1 {
      RowBound(j, n - 1, 128 * r);
      BlockAt(B, N, r, p, n - 1, j);
    }
  }

  /** Beyond 2^25 slices the octets given to the second PBKDF2 agree with section 6 only at fixed points of ROMix. */
  lemma WrapBreaksMixing(B: seq<byte>, N: nat, r: nat, p: nat, j: nat)
    requires r >= 1 && N >= 1 && |B| == p * (128 * r) && WRAP <= j < p
    requires MixSlices(B, N, r, p, p) == MixBlocks(B, N, r, p, p)
    ensures Rfc7914.ROMix(Rfc7914.SalsaOctets(), Slice(B, r, p, j), r, N) == Slice(B, r, p, j)
  {
    hide Slice, MixSlices, MixBlocks, Rfc7914.ROMix, Rfc7914.SalsaOctets;
    LateSlicesUnmixed(B, N, r, p, p, j);
    BlockAt(B, N, r, p, p, j);
  }

  /** A string whose slice j is Z. */
  lemma Embed(r: nat, p: nat, j: nat, Z: seq<byte>) returns (B: seq<byte>)
    requires |Z| == 128 * r && j < p
    ensures |B| == p * (128 * r) && Slice(B, r, p, j) == Z
  {
    RowBound(j, p, 128 * r);
    var c := j * (128 * r);
    B := Sha256Spec.Zeros(c) + Z + Sha256Spec.Zeros(p * (128 * r) - c - 128 * r);
  }

  /** Beyond 2^25 slices some string is mixed wrongly, for every r and N. */
  lemma WrongMixing(N: nat, r: nat, p: nat) returns (B: seq<byte>)
    requires r >= 1 && N >= 1 && p > WRAP
    ensures |B| == p * (128 * r) && MixSlices(B, N, r, p, p) != MixBlocks(B, N, r, p, p)
  {
    hide Slice, MixSlices, MixBlocks, Rfc7914.ROMix, Rfc7914.SalsaOctets;
    var Z := Collisions.ROMixMoves(r, N);
    B := Embed(r, p, WRAP, Z);
    if MixSlices(B, N, r, p, p) == MixBlocks(B, N, r, p, p) {
      WrapBreaksMixing(B, N, r, p, WRAP);
      assert false;
    }
  }

  /** The loop mixes every string as RFC 7914 does if and only if there are at most 2^25 slices. */
  lemma MixingExact(N: nat, r: nat, p: nat)
    requires r >= 1 && N >= 1
    ensures (forall B: seq<byte> | |B| == p * (128 * r) :: MixSlices(B, N, r, p, p) == MixBlocks(B, N, r, p, p))
       <==> p <= 0x200_0000
  {
    hide Put, MixSlices, MixBlocks, Rfc7914.ROMix, Rfc7914.SalsaOctets;
    if p <= WRAP {
      forall B: seq<byte> | |B| == p * (128 * r)
        ensures MixSlices(B, N, r, p, p) == MixBlocks(B, N, r, p, p)
      {
        SlicesAreBlocks(B, N, r, p, p);
        PutAll(B, MixBlocks(B, N, r, p, p));
      }
    } else {
      var B := WrongMixing(N, r, p);
    }
  }

  /** A parameter set that passes the checks with a 64-bit size_t and reaches the wrap: slice 2^25 lands on slice 0. */
  lemma WrapIsReachable()
    ensures Gate(SIZE64, 64, 2, 1, WRAP + 1, 32) == OK
    ensures Offset(WRAP, 1) == Offset(0, 1)
  {
    hide Gate;
    assert IsPow2(2) by { assert Pow2(1) == 2; }
    GateIsExact(SIZE64, 64, 2, 1, WRAP + 1, 32);
  }

  /** Step 2 of section 6: every slice of B is mixed, with V and XY reused as they are. */
  method MixAll(smix: Routine, B: array<byte>, N: nat, r: nat, p: nat, V: array<word>, XY: array<word>)
    requires r >= 1 && p >= 1 && B.Length == p * (128 * r) && MixWords.LoopSize(N)
    requires V != XY && V.Length == N * (32 * r) && XY.Length == 64 * r + 16
    modifies B, V, XY
    ensures N >= 1 && B[..] == MixSlices(old(B[..]), N, r, p, p)
    ensures p <= WRAP ==> B[..] == MixBlocks(old(B[..]), N, r, p, p)
  {
    hide Put, Get, MixBlocks, Offset, MixWords.LoopSize, Rfc7914.ROMix, Rfc7914.SalsaOctets;
    ghost var B0 := B[..];
    ghost var m := MixWords.LoopSizeDivides(N);
    for i := 0 to p
      invariant B[..] == MixSlices(B0, N, r, p, i)
    {
      OffsetFits(i, r, p);
      RunSmix(smix, B, Offset(i, r), r, N, V, XY);
    }
    if p <= WRAP {
      SlicesAreBlocks(B0, N, r, p, p);
      PutAll(B0, MixBlocks(B0, N, r, p, p));
    }
  }

  /** The key as the source computes it. */
  ghost function ScryptAsCoded(P: seq<byte>, S: seq<byte>, N: nat, r: nat, p: nat, dkLen: nat): (dk: seq<byte>)
    requires r >= 1 && N >= 1
    ensures |dk| == dkLen
  {
    var B := Pbkdf2.Pbkdf2(P, S, 1, p * (128 * r));
    Pbkdf2.Pbkdf2(P, MixSlices(B, N, r, p, p), 1, dkLen)
  }

  /** Up to 2^25 slices, and so always with a 32-bit size_t, that is scrypt. */
  lemma AsCodedIsScrypt(P: seq<byte>, S: seq<byte>, N: nat, r: nat, p: nat, dkLen: nat)
    requires r >= 1 && N >= 1 && p <= 0x200_0000
    ensures ScryptAsCoded(P, S, N, r, p, dkLen) == Scrypt(P, S, N, r, p, dkLen)
  {
    hide Put, MixSlices, MixBlocks, Pbkdf2.Pbkdf2;
    var B := Pbkdf2.Pbkdf2(P, S, 1, p * (128 * r));
    SlicesAreBlocks(B, N, r, p, p);
    PutAll(B, MixBlocks(B, N, r, p, p));
  }

  /** crypto_scrypt_internal */
  method CryptoScryptInternal(SIZE_MAX: nat, hwaccel: bool, passwd: array<byte>, passwdlen: nat,
                              salt: array<byte>, saltlen: nat, N: nat, r: nat, p: nat,
                              buf: array<byte>, buflen: nat, smix: Routine) returns (errno: Errno)
    requires SIZE_MAX == SIZE32 || SIZE_MAX == SIZE64
    requires N < TWO64 && r < TWO32 && p < TWO32 && passwdlen <= passwd.Length && saltlen <= salt.Length
    requires buflen <= buf.Length && buflen <= SIZE_MAX
    requires buflen > SIZE_MAX - 31 ==> Gate(SIZE_MAX, 64, N, r, p, buflen) != OK
    modifies buf
    ensures errno == OK <==> Acceptable(SIZE_MAX, 64, N, r, p, buflen)
    ensures errno == Gate(SIZE_MAX, 64, N, r, p, buflen)
    ensures errno == OK ==>
              buf[..] == Put(old(buf[..]), 0,
                             ScryptAsCoded(old(passwd[..passwdlen]), old(salt[..saltlen]), N, r, p, buflen))
    ensures errno == OK && p <= 0x200_0000 ==>
              buf[..] == Put(old(buf[..]), 0, Scrypt(old(passwd[..passwdlen]), old(salt[..saltlen]), N, r, p, buflen))
    ensures errno != OK ==> buf[..] == old(buf[..])
  {
    hide Put, MixSlices, MixBlocks, MixWords.LoopSize, Pbkdf2.Pbkdf2, Acceptable, Gate, Scrypt;
    errno := Gate(SIZE_MAX, 64, N, r, p, buflen);
    GateIsExact(SIZE_MAX, 64, N, r, p, buflen);
    if errno != OK {
      return;
    }
    AcceptedMeans(SIZE_MAX, 64, N, r, p, buflen);
    var B := new byte[p * (128 * r)];
    var XY := new word[64 * r + 16];
    var V := new word[N * (32 * r)];
    ghost var P, S, z := passwd[..passwdlen], salt[..saltlen], B[..];
    Pbkdf2.Pbkdf2Sha256(SIZE_MAX, hwaccel, passwd, passwdlen, salt, saltlen, 1, B, 0, p * (128 * r));
    PutAll(z, Pbkdf2.Pbkdf2(P, S, 1, p * (128 * r)));
    MixAll(smix, B, N, r, p, V, XY);
    assert B[..p * (128 * r)] == B[..];
    Pbkdf2.Pbkdf2Sha256(SIZE_MAX, hwaccel, passwd, passwdlen, B, p * (128 * r), 1, buf, 0, buflen);
    if p <= WRAP {
      AsCodedIsScrypt(P, S, N, r, p, buflen);
    }
  }

  /** Step 2 in the reference. */
  method MixAllRef(B: array<byte>, N: nat, r: nat, p: nat, V: array<byte>, XY: array<byte>)
    requires r >= 1 && p >= 1 && B.Length == p * (128 * r) && MixWords.LoopSize(N)
    requires V != XY && B != V && B != XY && V.Length == N * (128 * r) && XY.Length == 256 * r
    modifies B, V, XY
    ensures N >= 1 && B[..] == MixSlices(old(B[..]), N, r, p, p)
  {
    hide Put, Get, Offset, MixWords.LoopSize, Rfc7914.ROMix, Rfc7914.SalsaOctets;
    ghost var B0 := B[..];
    ghost var m := MixWords.LoopSizeDivides(N);
    for i := 0 to p
      invariant B[..] == MixSlices(B0, N, r, p, i)
    {
      OffsetFits(i, r, p);
      SmixRef.SMix(B, Offset(i, r), r, N, V, XY);
    }
  }

  /** crypto_scrypt of the reference */
  method CryptoScryptRef(SIZE_MAX: nat, hwaccel: bool, passwd: array<byte>, passwdlen: nat,
                         salt: array<byte>, saltlen: nat, N: nat, r: nat, p: nat,
                         buf: array<byte>, buflen: nat) returns (errno: Errno)
    requires SIZE_MAX == SIZE32 || SIZE_MAX == SIZE64
    requires N < TWO64 && r < TWO32 && p < TWO32 && passwdlen <= passwd.Length && saltlen <= salt.Length
    requires buflen <= buf.Length && buflen <= SIZE_MAX
    requires buflen > SIZE_MAX - 31 ==> Gate(SIZE_MAX, 0, N, r, p, buflen) != OK
    modifies buf
    ensures errno == OK <==> Acceptable(SIZE_MAX, 0, N, r, p, buflen)
    ensures errno == Gate(SIZE_MAX, 0, N, r, p, buflen)
    ensures errno == OK ==>
              buf[..] == Put(old(buf[..]), 0,
                             ScryptAsCoded(old(passwd[..passwdlen]), old(salt[..saltlen]), N, r, p, buflen))
    ensures errno != OK ==> buf[..] == old(buf[..])
  {
    hide Put, MixSlices, MixWords.LoopSize, Pbkdf2.Pbkdf2, Acceptable, Gate;
    errno := Gate(SIZE_MAX, 0, N, r, p, buflen);
    GateIsExact(SIZE_MAX, 0, N, r, p, buflen);
    if errno != OK {
      return;
    }
    AcceptedMeans(SIZE_MAX, 0, N, r, p, buflen);
    var B := new byte[p * (128 * r)];
    var XY := new byte[256 * r];
    var V := new byte[N * (128 * r)];
    ghost var P, S, z := passwd[..passwdlen], salt[..saltlen], B[..];
    Pbkdf2.Pbkdf2Sha256(SIZE_MAX, hwaccel, passwd, passwdlen, salt, saltlen, 1, B, 0, p * (128 * r));
    PutAll(z, Pbkdf2.Pbkdf2(P, S, 1, p * (128 * r)));
    MixAllRef(B, N, r, p, V, XY);
    assert B[..p * (128 * r)] == B[..];
    Pbkdf2.Pbkdf2Sha256(SIZE_MAX, hwaccel, passwd, passwdlen, B, p * (128 * r), 1, buf, 0, buflen);
  }
}

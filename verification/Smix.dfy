/** The generic smix of lib/crypto/crypto_scrypt_smix.c on arrays of 32-bit words. */
module Smix {
  import opened Bits
  import opened Bytes
  import opened Mem
  import opened MixMemory
  import opened MixWords
  import opened Salsa
  import Rfc7914

  /** blkcpy: n words of src from s to dst from d. */
  method BlkCpy(dst: array<word>, d: nat, src: array<word>, s: nat, n: nat)
    requires d + n <= dst.Length && s + n <= src.Length
    requires dst == src ==> d + n <= s || s + n <= d
    modifies dst
    ensures dst[..] == Put(old(dst[..]), d, Get(old(src[..]), s, n))
  {
    MemCpy(dst, d, src, s, n);
  }

  /** blkxor: n words of src from s into dst from d. */
  method BlkXor(dst: array<word>, d: nat, src: array<word>, s: nat, n: nat)
    requires d + n <= dst.Length && s + n <= src.Length
    requires dst == src ==> d + n <= s || s + n <= d
    modifies dst
    ensures dst[..] == Put(old(dst[..]), d, XorWords(Get(old(dst[..]), d, n), Get(old(src[..]), s, n)))
  {
    hide Xor32;
    ghost var a, b := Get(dst[..], d, n), Get(src[..], s, n);
    var i := 0;
    while i < n
      invariant 0 <= i <= n
      invariant forall k | d <= k < d + i :: dst[k] == Xor32(a[k - d], b[k - d])
      invariant forall k | 0 <= k < dst.Length && !(d <= k < d + i) :: dst[k] == old(dst[k])
      invariant src != dst ==> unchanged(src)
    {
      assert src[s + i] == b[i] && dst[d + i] == a[i];
      dst[d + i] := Xor32(dst[d + i], src[s + i]);
      i := i + 1;
    }
    assert dst[d..d + n] == XorWords(a, b);
    PutIs(old(dst[..]), dst[..], d, XorWords(a, b));
  }

  /** The three memory operations of a step, taken together. */
  lemma BlockStep(t: seq<word>, t1: seq<word>, t2: seq<word>, bin: nat, z: nat, r: nat, i: nat, B: seq<word>)
    requires r >= 1 && bin + 32 * r <= |t| && z + 16 <= |t| && i < 2 * r
    requires B == Get(t, bin, 32 * r) && Get(t, z, 16) == Chain(SalsaCore(), B, r, i)
    requires t1 == Put(t, z, XorWords(Get(t, z, 16), Get(t, bin + 16 * i, 16)))
    requires t2 == Put(t1, z, Salsa20_8(Get(t1, z, 16)))
    ensures t2 == Put(t, z, Chain(SalsaCore(), B, r, i + 1))
    ensures Get(t2, z, 16) == Chain(SalsaCore(), B, r, i + 1)
  {
    hide SalsaCore, Put, Get, Salsa20_8, XorWords, IsSalsaCore, Chain;
    var X' := Chain(SalsaCore(), B, r, i + 1);
    ChainStep(t, bin, r, i, B);
    var u := XorWords(Get(t, z, 16), Get(t, bin + 16 * i, 16));
    GetPut(t, z, u);
    PutPut(t, z, u, X');
    GetPut(t, z, X');
  }

  lemma ChainStep(t: seq<word>, bin: nat, r: nat, i: nat, B: seq<word>)
    requires r >= 1 && bin + 32 * r <= |t| && i < 2 * r && B == Get(t, bin, 32 * r)
    ensures Chain(SalsaCore(), B, r, i + 1)
         == Salsa20_8(XorWords(Chain(SalsaCore(), B, r, i), Get(t, bin + 16 * i, 16)))
  {
    hide SalsaCore, Get, Salsa20_8, XorWords, IsSalsaCore, Block;
    GetGet(t, bin, 32 * r, 16 * i, 16);
    BlockIsGet(B, i);
    SalsaCoreAt(XorWords(Chain(SalsaCore(), B, r, i), Block(B, i)));
  }

  /** Steps 3 and 4 of the loop of blockmix_salsa8: X <-- H(X xor B_i), then a copy of X to dst. */
  method MixBlock(XY: array<word>, bin: nat, dst: nat, z: nat, r: nat, i: nat, ghost B: seq<word>)
    requires r >= 1 && bin + 32 * r <= XY.Length && dst + 16 <= XY.Length && z + 16 <= XY.Length && i < 2 * r
    requires z + 16 <= bin || bin + 32 * r <= z
    requires z + 16 <= dst || dst + 16 <= z
    requires B == Get(XY[..], bin, 32 * r) && Get(XY[..], z, 16) == Chain(SalsaCore(), B, r, i)
    modifies XY
    ensures var X := Chain(SalsaCore(), B, r, i + 1);
            XY[..] == Put(Put(old(XY[..]), z, X), dst, X)
  {
    hide Chain, SalsaCore, Put, Get, Salsa20_8, XorWords, IsSalsaCore;
    ghost var t := XY[..];
    BlkXor(XY, z, XY, bin + 16 * i, 16);
    ghost var t1 := XY[..];
    SalsaInPlace(XY, z);
    BlockStep(t, t1, XY[..], bin, z, r, i, B);
    BlkCpy(XY, dst, XY, z, 16);
  }

  /** The loop body of blockmix_salsa8: two steps, with i == 2 * m. */
  method MixPair(XY: array<word>, bin: nat, bout: nat, z: nat, r: nat, i: nat, ghost m: nat, ghost s: seq<word>,
                 ghost B: seq<word>)
    requires r >= 1 && bin + 32 * r <= XY.Length == |s| && bout + 32 * r <= XY.Length && z + 16 <= XY.Length
    requires bout + 32 * r <= bin || bin + 32 * r <= bout
    requires z + 16 <= bin || bin + 32 * r <= z
    requires z + 16 <= bout || bout + 32 * r <= z
    requires B == Get(s, bin, 32 * r) && m < r && i == 2 * m
    requires XY[..] == MixState(SalsaCore(), s, B, bout, z, r, m, m, 2 * m)
    modifies XY
    ensures XY[..] == MixState(SalsaCore(), s, B, bout, z, r, m + 1, m + 1, 2 * m + 2)
  {
    hide SalsaCore, IsSalsaCore, Put, Get, MixState, Chain;
    MixStateEven(SalsaCore(), s, B, bout, z, r, m);
    MixStateReads(SalsaCore(), s, B, bin, bout, z, r, m, m, 2 * m);
    assert i * 8 == 16 * m && i + 1 == 2 * m + 1 && r * 16 == 16 * r;
    MixBlock(XY, bin, bout + i * 8, z, r, i, B);
    MixStateOdd(SalsaCore(), s, B, bout, z, r, m);
    MixStateReads(SalsaCore(), s, B, bin, bout, z, r, m + 1, m, 2 * m + 1);
    assert bout + i * 8 + r * 16 == bout + 16 * r + 16 * m;
    MixBlock(XY, bin, bout + i * 8 + r * 16, z, r, i + 1, B);
  }

  /** blockmix_salsa8(Bin, Bout, X, r) with the three areas inside the work array XY. */
  method BlockMixSalsa8(XY: array<word>, bin: nat, bout: nat, z: nat, r: nat)
    requires r >= 1 && bin + 32 * r <= XY.Length && bout + 32 * r <= XY.Length && z + 16 <= XY.Length
    requires bout + 32 * r <= bin || bin + 32 * r <= bout
    requires z + 16 <= bin || bin + 32 * r <= z
    requires z + 16 <= bout || bout + 32 * r <= z
    modifies XY
    ensures var B := Get(old(XY[..]), bin, 32 * r);
            XY[..] == Put(Put(old(XY[..]), bout, BlockMix(SalsaCore(), B, r)), z, Chain(SalsaCore(), B, r, 2 * r))
  {
    hide SalsaCore, IsSalsaCore, Put, Get, MixState, Chain, BlockMix;
    ghost var s := XY[..];
    ghost var B := Get(s, bin, 32 * r);
    // The chain starts from the last block.
    BlkCpy(XY, z, XY, bin + (2 * r - 1) * 16, 16);
    MixStateStart(SalsaCore(), s, B, bin, bout, z, r);
    // The chain goes through all blocks in order.
    var i := 0;
    ghost var m := 0;
    while i < 2 * r
      invariant i == 2 * m && m <= r
      invariant XY[..] == MixState(SalsaCore(), s, B, bout, z, r, m, m, 2 * m)
    {
      MixPair(XY, bin, bout, z, r, i, m, s, B);
      i, m := i + 2, m + 1;
    }
    MixStateEnd(SalsaCore(), s, B, bout, z, r);
  }

  //////////////////////////////////////////////////////////////////////////////
  // crypto_scrypt_smix
  //////////////////////////////////////////////////////////////////////////////

  /** One BlockMix between the areas X and Y of the work array. */
  method BlockMixTo(XY: array<word>, src: nat, dst: nat, r: nat)
    requires r >= 1 && XY.Length == 64 * r + 16
    requires (src == 0 && dst == 32 * r) || (src == 32 * r && dst == 0)
    modifies XY
    ensures Get(XY[..], dst, 32 * r) == BlockMix(SalsaCore(), old(Get(XY[..], src, 32 * r)), r)
  {
    hide Get, Put, BlockMix, Chain, SalsaCore, IsSalsaCore;
    ghost var s := XY[..];
    ghost var B := Get(s, src, 32 * r);
    ghost var out, X := BlockMix(SalsaCore(), B, r), Chain(SalsaCore(), B, r, 2 * r);
    BlockMixSalsa8(XY, src, dst, 64 * r, r);
    GetPutApart(Put(s, dst, out), 64 * r, X, dst, 32 * r);
    GetPut(s, dst, out);
  }

  /** Steps 3 and 4 of the first loop: V_i <-- X, X <-- H(X), from one area of XY to the other. */
  method FillStep(V: array<word>, XY: array<word>, src: nat, dst: nat, r: nat, i: nat, ghost V0: seq<word>,
                  ghost rows: seq<seq<word>>)
    requires r >= 1 && XY.Length == 64 * r + 16 && V != XY
    requires (src == 0 && dst == 32 * r) || (src == 32 * r && dst == 0)
    requires |rows| == i && RowsOf(rows, 32 * r) && i * (32 * r) <= (i + 1) * (32 * r) <= |V0|
    requires V[..] == PutRows(V0, rows, 32 * r)
    modifies V, XY
    ensures Get(XY[..], dst, 32 * r) == BlockMix(SalsaCore(), old(Get(XY[..], src, 32 * r)), r)
    ensures RowsOf(rows + [old(Get(XY[..], src, 32 * r))], 32 * r)
    ensures V[..] == PutRows(V0, rows + [old(Get(XY[..], src, 32 * r))], 32 * r)
  {
    hide Get, Put, BlockMix, SalsaCore, IsSalsaCore, PutRows;
    PutRowsStep(V0, rows, 32 * r, Get(XY[..], src, 32 * r));
    BlkCpy(V, i * (32 * r), XY, src, 32 * r);
    BlockMixTo(XY, src, dst, r);
  }

  /** integerify(B, r): the 64-bit integer at the start of the last block. */
  method IntegerifyAt(XY: array<word>, src: nat, r: nat) returns (j: nat)
    requires r >= 1 && src + 32 * r <= XY.Length
    ensures j == Integerify(Get(XY[..], src, 32 * r), r)
  {
    hide WordVal;
    var X := src + (2 * r - 1) * 16;
    ghost var B := Get(XY[..], src, 32 * r);
    assert B[16 * (2 * r - 1)] == XY[X] && B[16 * (2 * r - 1) + 1] == XY[X + 1];
    j := WordVal(XY[X + 1]) * TWO32 + WordVal(XY[X]);
  }

  /** Steps 7 and 8 of the second loop: j <-- Integerify(X) mod N, X <-- H(X xor V_j). */
  method MixStep(V: array<word>, XY: array<word>, src: nat, dst: nat, r: nat, N: nat, ghost V0: seq<word>,
                 ghost rows: seq<seq<word>>)
    requires r >= 1 && XY.Length == 64 * r + 16 && V != XY && LoopSize(N) && N >= 1
    requires (src == 0 && dst == 32 * r) || (src == 32 * r && dst == 0)
    requires |rows| == N && RowsOf(rows, 32 * r) && N * (32 * r) <= |V0|
    requires V[..] == PutRows(V0, rows, 32 * r)
    modifies XY
    ensures var X := old(Get(XY[..], src, 32 * r));
            Get(XY[..], dst, 32 * r) == BlockMix(SalsaCore(), XorWords(X, rows[Integerify(X, r) % N]), r)
  {
    hide Get, Put, BlockMix, SalsaCore, IsSalsaCore, Integerify, XorWords, PutRows;
    var j := IntegerifyAt(XY, src, r);
    MaskIsModulo(j, N);
    j := BitAnd(j, N - 1);
    GetRow(V0, rows, 32 * r, j);
    ghost var s := XY[..];
    BlkXor(XY, src, V, j * (32 * r), 32 * r);
    GetPut(s, src, XorWords(Get(s, src, 32 * r), rows[j]));
    BlockMixTo(XY, src, dst, r);
  }

  /** Step 1: X <-- B, decoding n little-endian words. */
  method LoadWords(XY: array<word>, B: array<byte>, off: nat, n: nat)
    requires n <= XY.Length && off + 4 * n <= B.Length
    modifies XY
    ensures XY[..] == Put(old(XY[..]), 0, Words(Get(B[..], off, 4 * n)))
  {
    hide Le32;
    ghost var b := Get(B[..], off, 4 * n);
    var k := 0;
    while k < n
      invariant 0 <= k <= n
      invariant XY[..k] == Words(b)[..k]
      invariant forall i | n <= i < XY.Length :: XY[i] == old(XY[i])
    {
      WordsAt(b, k);
      XY[k] := Le32(B[off + 4 * k], B[off + 4 * k + 1], B[off + 4 * k + 2], B[off + 4 * k + 3]);
      assert Words(b)[..k + 1] == Words(b)[..k] + [Words(b)[k]];
      assert XY[..k + 1] == XY[..k] + [XY[k]];
      k := k + 1;
    }
    PutIs(old(XY[..]), XY[..], 0, Words(b));
  }

  /** Step 10: B' <-- X, encoding n words. */
  method StoreWords(B: array<byte>, off: nat, XY: array<word>, n: nat)
    requires n <= XY.Length && off + 4 * n <= B.Length
    modifies B
    ensures B[..] == Put(old(B[..]), off, Unwords(Get(XY[..], 0, n)))
  {
    hide Le32Enc, Unwords, Put;
    ghost var s, u := B[..], Unwords(Get(XY[..], 0, n));
    PutNothing(s, off);
    var k := 0;
    while k < n
      invariant 0 <= k <= n
      invariant B[..] == Put(s, off, u[..4 * k])
    {
      UnwordsAt(Get(XY[..], 0, n), k);
      PutJoin(s, off, u[..4 * k], Le32Enc(XY[k]));
      assert u[..4 * (k + 1)] == u[..4 * k] + u[4 * k..4 * k + 4];
      StoreWord(B, off + 4 * k, XY[k]);
      k := k + 1;
    }
    assert u[..4 * n] == u;
  }

  /** le32enc */
  method StoreWord(B: array<byte>, i: nat, w: word)
    requires i + 4 <= B.Length
    modifies B
    ensures B[..] == Put(old(B[..]), i, Le32Enc(w))
  {
    hide Le32Enc;
    var e := Le32Enc(w);
    B[i], B[i + 1], B[i + 2], B[i + 3] := e[0], e[1], e[2], e[3];
    assert B[i..i + 4] == e;
    PutIs(old(B[..]), B[..], i, e);
  }

  /** The word form of ROMix between decoding and encoding is ROMix on octets. */
  lemma RefinesROMix(b: seq<byte>, r: nat, N: nat)
    requires r >= 1 && |b| == 128 * r && LoopSize(N)
    ensures N >= 1 && Unwords(Mix(SalsaCore(), Words(b), r, N, N)) == Rfc7914.ROMix(Rfc7914.SalsaOctets(), b, r, N)
  {
    hide Words, Unwords, Mix, SalsaCore, IsSalsaCore, Rfc7914.SalsaOctets, Rfc7914.IsSalsaOctets, Simulates,
         Rfc7914.Mix;
    MaskIsModulo(0, N);
    SalsaSimulates();
    MixSteps(Rfc7914.SalsaOctets(), SalsaCore(), b, r, N, N);
    UnwordsWords(Rfc7914.ROMix(Rfc7914.SalsaOctets(), b, r, N));
  }

  /**
   crypto_scrypt_smix(B, r, N, V, XY) on the 128 * r octets of B at off: they become their ROMix, the
   rest of B keeps its value, and what V and XY held before does not matter.
   */
  method CryptoScryptSmix(B: array<byte>, off: nat, r: nat, N: nat, V: array<word>, XY: array<word>)
    requires r >= 1 && off + 128 * r <= B.Length && LoopSize(N)
    requires V != XY && V.Length == N * (32 * r) && XY.Length == 64 * r + 16
    modifies B, V, XY
    ensures N >= 1
    ensures B[..] == Put(old(B[..]), off, Rfc7914.ROMix(Rfc7914.SalsaOctets(), Get(old(B[..]), off, 128 * r), r, N))
  {
    hide Get, Put, SalsaCore, IsSalsaCore, Mix, Words, Unwords, Rfc7914.SalsaOctets, Rfc7914.ROMix;
    ghost var s := B[..];
    ghost var W := Words(Get(s, off, 128 * r));
    MaskIsModulo(0, N);
    // The slice becomes the work buffer.
    assert 4 * (32 * r) == 128 * r;
    LoadWords(XY, B, off, 32 * r);
    GetPut(old(XY[..]), 0, W);
    ghost var V0 := FirstLoop(V, XY, r, N, W);
    SecondLoop(V, XY, r, N, V0, W);
    // The work buffer goes back into the slice.
    StoreWords(B, off, XY, 32 * r);
    RefinesROMix(Get(s, off, 128 * r), r, N);
  }

  /** The loop of steps 2 to 4, two steps at a time. */
  method FirstLoop(V: array<word>, XY: array<word>, r: nat, N: nat, ghost W: seq<word>) returns (ghost V0: seq<word>)
    requires r >= 1 && N % 2 == 0 && V != XY && V.Length == N * (32 * r) && XY.Length == 64 * r + 16
    requires |W| == 32 * r && W == Get(XY[..], 0, 32 * r)
    modifies V, XY
    ensures Get(XY[..], 0, 32 * r) == Iterate(SalsaCore(), W, r, N)
    ensures |V0| == N * (32 * r) && V[..] == PutRows(V0, Rows(SalsaCore(), W, r, N), 32 * r)
  {
    hide Get, Put, BlockMix, SalsaCore, IsSalsaCore, PutRows, Iterate;
    ghost var H := SalsaCore();
    V0 := V[..];
    RowsStart(H, V0, W, r);
    var i := 0;
    while i < N
      invariant 0 <= i <= N && i % 2 == 0 && i * (32 * r) <= |V0|
      invariant Get(XY[..], 0, 32 * r) == Iterate(H, W, r, i)
      invariant V[..] == PutRows(V0, Rows(H, W, r, i), 32 * r)
    {
      RowBound(i, N, 32 * r);
      RowBound(i + 1, N, 32 * r);
      IterateStep(H, W, r, i);
      IterateStep(H, W, r, i + 1);
      FillStep(V, XY, 0, 32 * r, r, i, V0, Rows(H, W, r, i));
      FillStep(V, XY, 32 * r, 0, r, i + 1, V0, Rows(H, W, r, i + 1));
      i := i + 2;
    }
  }

  /** The loop of steps 6 to 8, two steps at a time. */
  method SecondLoop(V: array<word>, XY: array<word>, r: nat, N: nat, ghost V0: seq<word>, ghost W: seq<word>)
    requires r >= 1 && LoopSize(N) && N >= 1 && N % 2 == 0 && V != XY && XY.Length == 64 * r + 16
    requires |V0| == N * (32 * r) && |W| == 32 * r
    requires Get(XY[..], 0, 32 * r) == Iterate(SalsaCore(), W, r, N)
    requires V[..] == PutRows(V0, Rows(SalsaCore(), W, r, N), 32 * r)
    modifies XY
    ensures Get(XY[..], 0, 32 * r) == Mix(SalsaCore(), W, r, N, N)
  {
    hide Get, Put, BlockMix, SalsaCore, IsSalsaCore, PutRows, Rows, Iterate, Mix, Integerify, XorWords, RowsOf,
         LoopSize;
    ghost var H := SalsaCore();
    ghost var rows := Rows(H, W, r, N);
    MixStart(H, W, r, N);
    var i := 0;
    while i < N
      invariant 0 <= i <= N && i % 2 == 0
      invariant Get(XY[..], 0, 32 * r) == Mix(H, W, r, N, i)
      invariant V[..] == PutRows(V0, rows, 32 * r)
    {
      MixStepIs(H, W, r, N, i);
      MixStepIs(H, W, r, N, i + 1);
      MixStep(V, XY, 0, 32 * r, r, N, V0, rows);
      MixStep(V, XY, 32 * r, 0, r, N, V0, rows);
      i := i + 2;
    }
  }
}

/** The reference smix of lib/crypto/crypto_scrypt-ref.c, octet by octet. */
module SmixRef {
  import opened Bits
  import opened Bytes
  import opened Mem
  import opened Rfc7914
  import MixMemory
  import MixWords
  import Salsa

  /** blkcpy */
  method BlkCpy(dst: array<byte>, d: nat, src: array<byte>, s: nat, len: nat)
    requires d + len <= dst.Length && s + len <= src.Length
    requires dst == src ==> d + len <= s || s + len <= d
    modifies dst
    ensures dst[..] == Put(old(dst[..]), d, Get(old(src[..]), s, len))
  {
    ghost var b := Get(src[..], s, len);
    var i := 0;
    while i < len
      invariant 0 <= i <= len
      invariant forall k | d <= k < d + i :: dst[k] == b[k - d]
      invariant forall k | 0 <= k < dst.Length && !(d <= k < d + i) :: dst[k] == old(dst[k])
      invariant src != dst ==> unchanged(src)
    {
      assert src[s + i] == b[i];
      dst[d + i] := src[s + i];
      i := i + 1;
    }
    PutIs(old(dst[..]), dst[..], d, b);
  }

  /** blkxor */
  method BlkXor(dst: array<byte>, d: nat, src: array<byte>, s: nat, len: nat)
    requires d + len <= dst.Length && s + len <= src.Length
    requires dst == src ==> d + len <= s || s + len <= d
    modifies dst
    ensures dst[..] == Put(old(dst[..]), d, XorBytes(Get(old(dst[..]), d, len), Get(old(src[..]), s, len)))
  {
    hide Xor8;
    ghost var a, b := Get(dst[..], d, len), Get(src[..], s, len);
    var i := 0;
    while i < len
      invariant 0 <= i <= len
      invariant forall k | d <= k < d + i :: dst[k] == Xor8(a[k - d], b[k - d])
      invariant forall k | 0 <= k < dst.Length && !(d <= k < d + i) :: dst[k] == old(dst[k])
      invariant src != dst ==> unchanged(src)
    {
      assert src[s + i] == b[i] && dst[d + i] == a[i];
      dst[d + i] := Xor8(dst[d + i], src[s + i]);
      i := i + 1;
    }
    assert dst[d..d + len] == XorBytes(a, b);
    PutIs(old(dst[..]), dst[..], d, XorBytes(a, b));
  }

  /** salsa20_8 on 64 octets: decode, double rounds, add, encode. */
  method SalsaOctetsInPlace(B: array<byte>)
    requires B.Length == 64
    modifies B
    ensures B[..] == Unwords(Salsa.Salsa20_8(Words(old(B[..]))))
  {
    hide Le32, Le32Enc, Salsa.DoubleRound, Words, Unwords, Add32;
    ghost var w := Words(B[..]);
    // The octets are decoded.
    var B32 := DecodeBlock(B);
    // Four double rounds on a copy.
    var x := new word[16](i requires 0 <= i < 16 reads B32 => B32[i]);
    assert x[..] == w;
    var i := 0;
    while i < 8
      invariant 0 <= i <= 8 && i % 2 == 0
      invariant x[..] == Salsa.DoubleRounds(w, i / 2)
      invariant B32[..] == w
    {
      Salsa.DoubleRoundInPlace(x);
      assert (i + 2) / 2 == i / 2 + 1;
      i := i + 2;
    }
    // The input is added to their result.
    ghost var y := x[..];
    i := 0;
    while i < 16
      invariant 0 <= i <= 16 && x[..] == y
      invariant forall k | 0 <= k < 16 :: B32[k] == if k < i then Add32(w[k], y[k]) else w[k]
    {
      B32[i] := Add32(B32[i], x[i]);
      i := i + 1;
    }
    assert B32[..] == Salsa.AddWords(w, y);
    // The sum is encoded.
    EncodeBlock(B, B32);
  }

  method DecodeBlock(B: array<byte>) returns (B32: array<word>)
    requires B.Length == 64
    ensures fresh(B32) && B32.Length == 16 && B32[..] == Words(B[..])
  {
    hide Le32;
    B32 := new word[16];
    var i := 0;
    while i < 16
      invariant 0 <= i <= 16
      invariant B32[..i] == Words(B[..])[..i]
    {
      B32[i] := Le32(B[4 * i], B[4 * i + 1], B[4 * i + 2], B[4 * i + 3]);
      i := i + 1;
    }
  }

  method EncodeBlock(B: array<byte>, B32: array<word>)
    requires B.Length == 64 && B32.Length == 16
    modifies B
    ensures B[..] == Unwords(B32[..])
  {
    hide Le32Enc, Unwords;
    ghost var u := Unwords(B32[..]);
    var i := 0;
    while i < 16
      invariant 0 <= i <= 16
      invariant B[..4 * i] == u[..4 * i]
    {
      var e := Le32Enc(B32[i]);
      UnwordsAt(B32[..], i);
      label L:
      B[4 * i], B[4 * i + 1], B[4 * i + 2], B[4 * i + 3] := e[0], e[1], e[2], e[3];
      assert B[..4 * i] == old@L(B[..4 * i]);
      assert B[4 * i..4 * i + 4] == e;
      assert B[..4 * (i + 1)] == B[..4 * i] + B[4 * i..4 * i + 4];
      assert u[..4 * (i + 1)] == u[..4 * i] + u[4 * i..4 * i + 4];
      i := i + 1;
    }
  }

  /** Y_0, ..., Y_{n - 1} in the order they are computed. */
  ghost function Steps(B: seq<byte>, r: nat, n: nat): (Y: seq<byte>)
    requires r >= 1 && |B| == 128 * r && n <= 2 * r
    ensures |Y| == 64 * n
  {
    if n == 0 then [] else Steps(B, r, n - 1) + Chain(SalsaOctets(), B, r, n)
  }

  lemma {:induction false} StepsAt(B: seq<byte>, r: nat, n: nat, i: nat)
    requires r >= 1 && |B| == 128 * r && i < n <= 2 * r
    ensures Get(Steps(B, r, n), 64 * i, 64) == Chain(SalsaOctets(), B, r, i + 1)
    decreases n
  {
    hide Chain, SalsaOctets, IsSalsaOctets;
    if i < n - 1 {
      StepsAt(B, r, n - 1, i);
      assert Get(Steps(B, r, n), 64 * i, 64) == Get(Steps(B, r, n - 1), 64 * i, 64);
    }
  }

  lemma ChainNext(t: seq<byte>, b: nat, r: nat, i: nat, B: seq<byte>)
    requires r >= 1 && b + 128 * r <= |t| && i < 2 * r && B == Get(t, b, 128 * r)
    ensures Chain(SalsaOctets(), B, r, i + 1)
         == Unwords(Salsa.Salsa20_8(Words(XorBytes(Chain(SalsaOctets(), B, r, i), Get(t, b + 64 * i, 64)))))
    ensures Steps(B, r, i + 1) == Steps(B, r, i) + Chain(SalsaOctets(), B, r, i + 1)
  {
    hide SalsaOctets, Get, Salsa.Salsa20_8, XorBytes, IsSalsaOctets, Block, Words, Unwords;
    GetGet(t, b, 128 * r, 64 * i, 64);
    BlockIsGet(B, i);
    MixWords.SalsaOctetsAt(XorBytes(Chain(SalsaOctets(), B, r, i), Block(B, i)));
  }

  lemma BlockIsGet(B: seq<byte>, i: nat)
    requires 64 * i + 64 <= |B|
    ensures Block(B, i) == Get(B, 64 * i, 64)
  {
  }

  /** Steps 3 and 4: X <-- H(X xor B_i), Y_i <-- X. */
  method Step(XY: array<byte>, X: array<byte>, b: nat, y: nat, r: nat, i: nat, ghost s: seq<byte>, ghost B: seq<byte>)
    requires X.Length == 64 && X != XY && r >= 1 && i < 2 * r
    requires b + 128 * r <= XY.Length == |s| && y + 128 * r <= XY.Length
    requires b + 128 * r <= y || y + 128 * r <= b
    requires B == Get(s, b, 128 * r)
    requires X[..] == Chain(SalsaOctets(), B, r, i) && XY[..] == Put(s, y, Steps(B, r, i))
    modifies XY, X
    ensures X[..] == Chain(SalsaOctets(), B, r, i + 1) && XY[..] == Put(s, y, Steps(B, r, i + 1))
  {
    hide Chain, SalsaOctets, IsSalsaOctets, Steps, Get, Put, XorBytes, Words, Unwords, Salsa.Salsa20_8;
    ChainNext(s, b, r, i, B);
    GetPutApart(s, y, Steps(B, r, i), b + 64 * i, 64);
    ghost var x := X[..];
    WholeArea(x);
    WholePut(x, XorBytes(x, Get(s, b + 64 * i, 64)));
    BlkXor(X, 0, XY, b + i * 64, 64);
    SalsaOctetsInPlace(X);
    WholeArea(X[..]);
    PutJoin(s, y, Steps(B, r, i), X[..]);
    BlkCpy(XY, y + i * 64, X, 0, 64);
  }

  lemma WholeArea(x: seq<byte>)
    ensures Get(x, 0, |x|) == x
  {
  }

  lemma WholePut(x: seq<byte>, z: seq<byte>)
    requires |x| == |z|
    ensures Put(x, 0, z) == z
  {
  }

  lemma OutputNext(B: seq<byte>, r: nat, i: nat)
    requires r >= 1 && |B| == 128 * r && i < r
    ensures Evens(SalsaOctets(), B, r, i + 1) == Evens(SalsaOctets(), B, r, i) + Chain(SalsaOctets(), B, r, 2 * i + 1)
    ensures Odds(SalsaOctets(), B, r, i + 1) == Odds(SalsaOctets(), B, r, i) + Chain(SalsaOctets(), B, r, 2 * i + 2)
  {
    hide Chain, SalsaOctets, IsSalsaOctets;
  }

  lemma LoopsStart(B: seq<byte>, r: nat)
    requires r >= 1 && |B| == 128 * r
    ensures Chain(SalsaOctets(), B, r, 0) == Block(B, 2 * r - 1)
    ensures Steps(B, r, 0) == Evens(SalsaOctets(), B, r, 0) == Odds(SalsaOctets(), B, r, 0) == []
  {
    hide SalsaOctets, IsSalsaOctets;
  }

  /** blockmix_salsa8(B, Y, r): in place at b, with Y at y. */
  method BlockMixSalsa8(XY: array<byte>, b: nat, y: nat, r: nat)
    requires r >= 1 && b + 128 * r <= XY.Length && y + 128 * r <= XY.Length
    requires b + 128 * r <= y || y + 128 * r <= b
    modifies XY
    ensures var B := Get(old(XY[..]), b, 128 * r);
            XY[..] == Put(Put(old(XY[..]), y, Steps(B, r, 2 * r)), b, BlockMix(SalsaOctets(), B, r))
  {
    hide Chain, SalsaOctets, IsSalsaOctets, Steps, Get, Put, Evens, Odds;
    ghost var s := XY[..];
    ghost var B := Get(s, b, 128 * r);
    LoopsStart(B, r);
    // The chain starts from the last block.
    var X := new byte[64];
    WholePut(X[..], Block(B, 2 * r - 1));
    BlkCpy(X, 0, XY, b + (2 * r - 1) * 64, 64);
    GetGet(s, b, 128 * r, 64 * (2 * r - 1), 64);
    BlockIsGet(B, 2 * r - 1);
    PutNothing(s, y);
    // The chain goes through all blocks in order.
    var i := 0;
    while i < 2 * r
      invariant 0 <= i <= 2 * r
      invariant X[..] == Chain(SalsaOctets(), B, r, i) && XY[..] == Put(s, y, Steps(B, r, i))
    {
      Step(XY, X, b, y, r, i, s, B);
      i := i + 1;
    }
    GetPut(s, y, Steps(B, r, 2 * r));
    Reorder(XY, b, y, r, B);
  }

  /** Step 6: the even Y_i, then the odd ones, copied back over B. */
  method Reorder(XY: array<byte>, b: nat, y: nat, r: nat, ghost B: seq<byte>)
    requires r >= 1 && b + 128 * r <= XY.Length && y + 128 * r <= XY.Length && |B| == 128 * r
    requires b + 128 * r <= y || y + 128 * r <= b
    requires Get(XY[..], y, 128 * r) == Steps(B, r, 2 * r)
    modifies XY
    ensures XY[..] == Put(old(XY[..]), b, BlockMix(SalsaOctets(), B, r))
  {
    hide Chain, SalsaOctets, IsSalsaOctets, Steps, Get, Put, Evens, Odds;
    ghost var h, s := SalsaOctets(), XY[..];
    CopyEvens(XY, b, y, r, B);
    CopyOdds(XY, b, y, r, B, s);
    PutJoin(s, b, Evens(h, B, r, r), Odds(h, B, r, r));
  }

  /** The first loop of step 6. */
  method CopyEvens(XY: array<byte>, b: nat, y: nat, r: nat, ghost B: seq<byte>)
    requires r >= 1 && b + 128 * r <= XY.Length && y + 128 * r <= XY.Length && |B| == 128 * r
    requires b + 128 * r <= y || y + 128 * r <= b
    requires Get(XY[..], y, 128 * r) == Steps(B, r, 2 * r)
    modifies XY
    ensures XY[..] == Put(old(XY[..]), b, Evens(SalsaOctets(), B, r, r))
  {
    hide Chain, SalsaOctets, IsSalsaOctets, Steps, Get, Put, Evens, Odds;
    ghost var h, s := SalsaOctets(), XY[..];
    LoopsStart(B, r);
    PutNothing(s, b);
    var i := 0;
    while i < r
      invariant 0 <= i <= r && XY[..] == Put(s, b, Evens(h, B, r, i))
    {
      OutputNext(B, r, i);
      ReadStep(s, b, y, r, B, 2 * i, Evens(h, B, r, i));
      PutJoin(s, b, Evens(h, B, r, i), Chain(h, B, r, 2 * i + 1));
      BlkCpy(XY, b + i * 64, XY, y + (i * 2) * 64, 64);
      i := i + 1;
    }
  }

  /** The second loop of step 6. */
  method CopyOdds(XY: array<byte>, b: nat, y: nat, r: nat, ghost B: seq<byte>, ghost s: seq<byte>)
    requires r >= 1 && b + 128 * r <= XY.Length == |s| && y + 128 * r <= XY.Length && |B| == 128 * r
    requires b + 128 * r <= y || y + 128 * r <= b
    requires Get(s, y, 128 * r) == Steps(B, r, 2 * r)
    requires XY[..] == Put(s, b, Evens(SalsaOctets(), B, r, r))
    modifies XY
    ensures XY[..] == Put(Put(s, b, Evens(SalsaOctets(), B, r, r)), b + 64 * r, Odds(SalsaOctets(), B, r, r))
  {
    hide Chain, SalsaOctets, IsSalsaOctets, Steps, Get, Put, Evens, Odds;
    ghost var h, evens := SalsaOctets(), Evens(SalsaOctets(), B, r, r);
    LoopsStart(B, r);
    PutNothing(Put(s, b, evens), b + 64 * r);
    var i := 0;
    while i < r
      invariant 0 <= i <= r && XY[..] == Put(Put(s, b, evens), b + 64 * r, Odds(h, B, r, i))
    {
      OutputNext(B, r, i);
      GetPutApart(Put(s, b, evens), b + 64 * r, Odds(h, B, r, i), y + 64 * (2 * i + 1), 64);
      ReadStep(s, b, y, r, B, 2 * i + 1, evens);
      PutJoin(Put(s, b, evens), b + 64 * r, Odds(h, B, r, i), Chain(h, B, r, 2 * i + 2));
      BlkCpy(XY, b + (i + r) * 64, XY, y + (i * 2 + 1) * 64, 64);
      i := i + 1;
    }
  }

  /** Y_i is still in place while the first half of B is overwritten. */
  lemma ReadStep(s: seq<byte>, b: nat, y: nat, r: nat, B: seq<byte>, i: nat, x: seq<byte>)
    requires r >= 1 && b + 128 * r <= |s| && y + 128 * r <= |s| && |B| == 128 * r && i < 2 * r
    requires b + 128 * r <= y || y + 128 * r <= b
    requires Get(s, y, 128 * r) == Steps(B, r, 2 * r) && |x| <= 128 * r
    ensures Get(Put(s, b, x), y + 64 * i, 64) == Chain(SalsaOctets(), B, r, i + 1)
  {
    hide Chain, SalsaOctets, IsSalsaOctets, Steps, Get, Put;
    GetPutApart(s, b, x, y + 64 * i, 64);
    GetGet(s, y, 128 * r, 64 * i, 64);
    StepsAt(B, r, 2 * r, i);
  }

  //////////////////////////////////////////////////////////////////////////////
  // smix
  //////////////////////////////////////////////////////////////////////////////

  /** One BlockMix of X, with Y as work space. */
  method BlockMixX(XY: array<byte>, r: nat)
    requires r >= 1 && XY.Length == 256 * r
    modifies XY
    ensures Get(XY[..], 0, 128 * r) == BlockMix(SalsaOctets(), old(Get(XY[..], 0, 128 * r)), r)
  {
    hide Get, Put, BlockMix, SalsaOctets, IsSalsaOctets, Steps;
    ghost var s := XY[..];
    ghost var B := Get(s, 0, 128 * r);
    BlockMixSalsa8(XY, 0, 128 * r, r);
    GetPut(Put(s, 128 * r, Steps(B, r, 2 * r)), 0, BlockMix(SalsaOctets(), B, r));
  }

  lemma FirstOctets(s: seq<byte>, r: nat)
    requires r >= 1 && 128 * r <= |s|
    ensures var X := (2 * r - 1) * 64; s[X..X + 8] == Block(Get(s, 0, 128 * r), 2 * r - 1)[..8]
  {
    var X := (2 * r - 1) * 64;
    var a, b := s[X..X + 8], Block(Get(s, 0, 128 * r), 2 * r - 1)[..8];
    assert |a| == |b|;
    assert forall k | 0 <= k < 8 :: a[k] == s[X + k] == b[k];
  }

  /** integerify(B, r) & (N - 1): le64dec of the last block, masked. */
  method MaskedIntegerify(XY: array<byte>, r: nat, N: nat) returns (j: nat)
    requires r >= 1 && XY.Length == 256 * r && MixWords.LoopSize(N)
    ensures N >= 1 && j == Integerify(Get(XY[..], 0, 128 * r), r) % N
  {
    hide LeNat, Integerify, MixWords.Integerify;
    ghost var B := Get(XY[..], 0, 128 * r);
    var X := (2 * r - 1) * 64;
    var x := LeNat(XY[X..X + 8]);
    FirstOctets(XY[..], r);
    MixWords.IntegerifyWords(B, r);
    MixWords.IntegerifyMod(B, r, N);
    MixMemory.MaskIsModulo(x, N);
    j := BitAnd(x, N - 1);
  }

  /** V_0, ..., V_{n - 1}. */
  ghost function Rows(W: seq<byte>, r: nat, n: nat): (rows: seq<seq<byte>>)
    requires r >= 1 && |W| == 128 * r
    ensures |rows| == n && RowsOf(rows, 128 * r)
    ensures forall i | 0 <= i < n :: rows[i] == Iterate(SalsaOctets(), W, r, i)
  {
    if n == 0 then [] else Rows(W, r, n - 1) + [Iterate(SalsaOctets(), W, r, n - 1)]
  }

  lemma RowsStart(V: seq<byte>, W: seq<byte>, r: nat)
    requires r >= 1 && |W| == 128 * r
    ensures PutRows(V, Rows(W, r, 0), 128 * r) == V
    ensures Iterate(SalsaOctets(), W, r, 0) == W
  {
    hide BlockMix, SalsaOctets, IsSalsaOctets;
  }

  lemma RowsNext(W: seq<byte>, r: nat, i: nat)
    requires r >= 1 && |W| == 128 * r
    ensures Iterate(SalsaOctets(), W, r, i + 1) == BlockMix(SalsaOctets(), Iterate(SalsaOctets(), W, r, i), r)
    ensures Rows(W, r, i + 1) == Rows(W, r, i) + [Iterate(SalsaOctets(), W, r, i)]
  {
    hide BlockMix, SalsaOctets, IsSalsaOctets;
  }

  lemma MixStart(W: seq<byte>, r: nat, N: nat)
    requires r >= 1 && |W| == 128 * r && N >= 1
    ensures Mix(SalsaOctets(), W, r, N, 0) == Iterate(SalsaOctets(), W, r, N)
  {
    hide BlockMix, SalsaOctets, IsSalsaOctets, Iterate;
  }

  lemma MixNext(W: seq<byte>, r: nat, N: nat, k: nat)
    requires r >= 1 && |W| == 128 * r && N >= 1
    ensures (var X := Mix(SalsaOctets(), W, r, N, k);
             BlockMix(SalsaOctets(), XorBytes(X, Rows(W, r, N)[Integerify(X, r) % N]), r))
         == Mix(SalsaOctets(), W, r, N, k + 1)
  {
    hide BlockMix, SalsaOctets, IsSalsaOctets, Iterate, Rows, Integerify, XorBytes;
  }

  /** Steps 2 to 4. */
  method FirstLoop(V: array<byte>, XY: array<byte>, r: nat, N: nat, ghost W: seq<byte>) returns (ghost V0: seq<byte>)
    requires r >= 1 && V != XY && V.Length == N * (128 * r) && XY.Length == 256 * r
    requires |W| == 128 * r && W == Get(XY[..], 0, 128 * r)
    modifies V, XY
    ensures Get(XY[..], 0, 128 * r) == Iterate(SalsaOctets(), W, r, N)
    ensures |V0| == N * (128 * r) && V[..] == PutRows(V0, Rows(W, r, N), 128 * r)
  {
    hide Get, Put, BlockMix, SalsaOctets, IsSalsaOctets, PutRows, Iterate, Rows;
    V0 := V[..];
    RowsStart(V0, W, r);
    var i := 0;
    while i < N
      invariant 0 <= i <= N && i * (128 * r) <= |V0|
      invariant Get(XY[..], 0, 128 * r) == Iterate(SalsaOctets(), W, r, i)
      invariant V[..] == PutRows(V0, Rows(W, r, i), 128 * r)
    {
      RowBound(i, N, 128 * r);
      RowsNext(W, r, i);
      PutRowsStep(V0, Rows(W, r, i), 128 * r, Iterate(SalsaOctets(), W, r, i));
      BlkCpy(V, i * (128 * r), XY, 0, 128 * r);
      BlockMixX(XY, r);
      i := i + 1;
    }
  }

  /** Steps 6 to 8. */
  method SecondLoop(V: array<byte>, XY: array<byte>, r: nat, N: nat, ghost V0: seq<byte>, ghost W: seq<byte>)
    requires r >= 1 && MixWords.LoopSize(N) && N >= 1 && V != XY && XY.Length == 256 * r
    requires |V0| == N * (128 * r) && |W| == 128 * r
    requires Get(XY[..], 0, 128 * r) == Iterate(SalsaOctets(), W, r, N)
    requires V[..] == PutRows(V0, Rows(W, r, N), 128 * r)
    modifies XY
    ensures Get(XY[..], 0, 128 * r) == Mix(SalsaOctets(), W, r, N, N)
  {
    hide Get, Put, BlockMix, SalsaOctets, IsSalsaOctets, PutRows, Iterate, Rows, Mix, Integerify, XorBytes, RowsOf,
         MixWords.LoopSize;
    ghost var rows := Rows(W, r, N);
    MixStart(W, r, N);
    var i := 0;
    while i < N
      invariant 0 <= i <= N
      invariant Get(XY[..], 0, 128 * r) == Mix(SalsaOctets(), W, r, N, i)
      invariant V[..] == PutRows(V0, rows, 128 * r)
    {
      MixNext(W, r, N, i);
      var j := MaskedIntegerify(XY, r, N);
      GetRow(V0, rows, 128 * r, j);
      ghost var s := XY[..];
      GetPut(s, 0, XorBytes(Get(s, 0, 128 * r), rows[j]));
      BlkXor(XY, 0, V, j * (128 * r), 128 * r);
      BlockMixX(XY, r);
      i := i + 1;
    }
  }

  /** smix(B, r, N, V, XY): the 128 * r octets of B at off become their ROMix. */
  method SMix(B: array<byte>, off: nat, r: nat, N: nat, V: array<byte>, XY: array<byte>)
    requires r >= 1 && off + 128 * r <= B.Length && MixWords.LoopSize(N)
    requires V != XY && B != V && B != XY && V.Length == N * (128 * r) && XY.Length == 256 * r
    modifies B, V, XY
    ensures N >= 1
    ensures B[..] == Put(old(B[..]), off, ROMix(SalsaOctets(), Get(old(B[..]), off, 128 * r), r, N))
  {
    hide Get, Put, SalsaOctets, IsSalsaOctets, Mix;
    ghost var s, t := B[..], XY[..];
    ghost var W := Get(s, off, 128 * r);
    MixMemory.MaskIsModulo(0, N);
    // The slice becomes the work buffer.
    BlkCpy(XY, 0, B, off, 128 * r);
    GetPut(t, 0, W);
    ghost var V0 := FirstLoop(V, XY, r, N, W);
    SecondLoop(V, XY, r, N, V0, W);
    // The work buffer goes back into the slice.
    BlkCpy(B, off, XY, 0, 128 * r);
  }
}

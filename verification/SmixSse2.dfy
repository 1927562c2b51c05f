/** The SSE2 smix of lib/crypto/crypto_scrypt_smix_sse2.c: vectors of four words over the shuffled layout. */
module SmixSse2 {
  import opened Bits
  import opened Bytes
  import opened Mem
  import opened MixMemory
  import opened MixWords
  import opened Salsa
  import opened ShuffledMix
  import opened Sse2
  import Rfc7914
  import Smix

  /** A vector loaded from an area. */
  lemma LoadIs(s: seq<word>, i: nat, n: nat, k: nat)
    requires i + n <= |s| && 4 * k + 4 <= n
    ensures Load(s, i + 4 * k) == Load(Get(s, i, n), 4 * k)
  {
  }

  lemma LoadLanes(c: seq<word>, k: nat)
    requires 4 * k + 4 <= |c|
    ensures Load(c, 4 * k).Lanes() == c[4 * k..4 * k + 4]
  {
  }

  lemma LoadXor(a: seq<word>, b: seq<word>, k: nat)
    requires |a| == |b| && 4 * k + 4 <= |a|
    ensures XorSi128(Load(a, 4 * k), Load(b, 4 * k)) == Load(XorWords(a, b), 4 * k)
  {
    hide Xor32;
  }

  /** A write that has reached element 4 * k, extended by one vector. */
  lemma PutMore(s: seq<word>, d: nat, c: seq<word>, k: nat)
    requires d + |c| <= |s| && 4 * k + 4 <= |c|
    ensures Put(Put(s, d, c[..4 * k]), d + 4 * k, c[4 * k..4 * k + 4]) == Put(s, d, c[..4 * (k + 1)])
  {
    PutJoin(s, d, c[..4 * k], c[4 * k..4 * k + 4]);
    assert c[..4 * (k + 1)] == c[..4 * k] + c[4 * k..4 * k + 4];
  }

  /** What lies at or above the point reached is not yet changed. */
  lemma PutAhead(s: seq<word>, d: nat, c: seq<word>, k: nat, j: nat)
    requires d + |c| <= |s| && 4 * k + 4 <= |c| && j + 4 <= |s|
    requires j == d + 4 * k || j + 4 <= d || d + |c| <= j
    ensures Load(Put(s, d, c[..4 * k]), j) == Load(s, j)
  {
  }

  /** blkcpy: L vectors of src from s to dst from d. */
  method BlkCpy(dst: array<word>, d: nat, src: array<word>, s: nat, L: nat)
    requires d + 4 * L <= dst.Length && s + 4 * L <= src.Length
    requires dst == src ==> d + 4 * L <= s || s + 4 * L <= d
    modifies dst
    ensures dst[..] == Put(old(dst[..]), d, Get(old(src[..]), s, 4 * L))
  {
    hide Get, Put, Load;
    ghost var d0, s0 := dst[..], src[..];
    ghost var c := Get(s0, s, 4 * L);
    PutNothing(d0, d);
    var i := 0;
    while i < L
      invariant 0 <= i <= L
      invariant dst[..] == Put(d0, d, c[..4 * i])
      invariant src != dst ==> src[..] == s0
    {
      var v := Load(src[..], s + 4 * i);
      LoadIs(s0, s, 4 * L, i);
      LoadLanes(c, i);
      if src == dst {
        PutAhead(d0, d, c, i, s + 4 * i);
      }
      PutMore(d0, d, c, i);
      Store(dst, d + 4 * i, v);
      i := i + 1;
    }
    assert c[..4 * L] == c;
  }

  /** blkxor: L vectors of src from s into dst from d. */
  method BlkXor(dst: array<word>, d: nat, src: array<word>, s: nat, L: nat)
    requires d + 4 * L <= dst.Length && s + 4 * L <= src.Length
    requires dst == src ==> d + 4 * L <= s || s + 4 * L <= d
    modifies dst
    ensures dst[..] == Put(old(dst[..]), d, XorWords(Get(old(dst[..]), d, 4 * L), Get(old(src[..]), s, 4 * L)))
  {
    hide Get, Put, Load, XorWords, XorSi128;
    ghost var d0, s0 := dst[..], src[..];
    ghost var a, b := Get(d0, d, 4 * L), Get(s0, s, 4 * L);
    ghost var c := XorWords(a, b);
    PutNothing(d0, d);
    var i := 0;
    while i < L
      invariant 0 <= i <= L
      invariant dst[..] == Put(d0, d, c[..4 * i])
      invariant src != dst ==> src[..] == s0
    {
      var u, v := Load(dst[..], d + 4 * i), Load(src[..], s + 4 * i);
      LoadIs(d0, d, 4 * L, i);
      LoadIs(s0, s, 4 * L, i);
      PutAhead(d0, d, c, i, d + 4 * i);
      if src == dst {
        PutAhead(d0, d, c, i, s + 4 * i);
      }
      LoadXor(a, b, i);
      LoadLanes(c, i);
      PutMore(d0, d, c, i);
      Store(dst, d + 4 * i, XorSi128(u, v));
      i := i + 1;
    }
    assert c[..4 * L] == c;
  }

  /** The three memory operations of a step, taken together. */
  lemma BlockStep(t: seq<word>, t1: seq<word>, t2: seq<word>, bin: nat, z: nat, r: nat, i: nat, B: seq<word>)
    requires r >= 1 && bin + 32 * r <= |t| && z + 16 <= |t| && i < 2 * r
    requires B == Get(t, bin, 32 * r) && Get(t, z, 16) == Chain(ShuffledCore(SalsaCore()), B, r, i)
    requires t1 == Put(t, z, XorWords(Get(t, z, 16), Get(t, bin + 16 * i, 16)))
    requires t2 == Put(t1, z, Shuffled(Salsa20_8(Unshuffled(Get(t1, z, 16)))))
    ensures t2 == Put(t, z, Chain(ShuffledCore(SalsaCore()), B, r, i + 1))
    ensures Get(t2, z, 16) == Chain(ShuffledCore(SalsaCore()), B, r, i + 1)
  {
    hide SalsaCore, Put, Get, Salsa20_8, XorWords, IsSalsaCore, Shuffled, Unshuffled, ShuffledCore, Chain;
    var X' := Chain(ShuffledCore(SalsaCore()), B, r, i + 1);
    ChainStep(t, bin, r, i, B);
    var u := XorWords(Get(t, z, 16), Get(t, bin + 16 * i, 16));
    GetPut(t, z, u);
    PutPut(t, z, u, X');
    GetPut(t, z, X');
  }

  lemma ShuffledSalsaAt(x: seq<word>)
    requires |x| == 16
    ensures ShuffledCore(SalsaCore())(x) == Shuffled(Salsa20_8(Unshuffled(x)))
  {
    hide Salsa20_8, Shuffled, Unshuffled, SalsaCore;
    SalsaCoreAt(Unshuffled(x));
  }

  lemma ChainStep(t: seq<word>, bin: nat, r: nat, i: nat, B: seq<word>)
    requires r >= 1 && bin + 32 * r <= |t| && i < 2 * r && B == Get(t, bin, 32 * r)
    ensures Chain(ShuffledCore(SalsaCore()), B, r, i + 1)
         == Shuffled(Salsa20_8(Unshuffled(XorWords(Chain(ShuffledCore(SalsaCore()), B, r, i),
                                                   Get(t, bin + 16 * i, 16)))))
  {
    hide SalsaCore, Get, Salsa20_8, XorWords, IsSalsaCore, Shuffled, Unshuffled, ShuffledCore, Block;
    GetGet(t, bin, 32 * r, 16 * i, 16);
    BlockIsGet(B, i);
    ShuffledSalsaAt(XorWords(Chain(ShuffledCore(SalsaCore()), B, r, i), Block(B, i)));
  }

  /** Steps 3 and 4 of the loop of blockmix_salsa8: X <-- H(X xor B_i), then a copy of X to dst. */
  method MixBlock(XY: array<word>, bin: nat, dst: nat, z: nat, r: nat, i: nat, ghost B: seq<word>)
    requires r >= 1 && bin + 32 * r <= XY.Length && dst + 16 <= XY.Length && z + 16 <= XY.Length && i < 2 * r
    requires z + 16 <= bin || bin + 32 * r <= z
    requires z + 16 <= dst || dst + 16 <= z
    requires B == Get(XY[..], bin, 32 * r) && Get(XY[..], z, 16) == Chain(ShuffledCore(SalsaCore()), B, r, i)
    modifies XY
    ensures var X := Chain(ShuffledCore(SalsaCore()), B, r, i + 1);
            XY[..] == Put(Put(old(XY[..]), z, X), dst, X)
  {
    hide Chain, SalsaCore, Put, Get, Salsa20_8, XorWords, IsSalsaCore, ShuffledCore;
    ghost var t := XY[..];
    BlkXor(XY, z, XY, bin + 16 * i, 4);
    ghost var t1 := XY[..];
    SalsaSse2(XY, z);
    BlockStep(t, t1, XY[..], bin, z, r, i, B);
    BlkCpy(XY, dst, XY, z, 4);
  }

  /** The loop body of blockmix_salsa8: steps 2i and 2i + 1. */
  method MixPair(XY: array<word>, bin: nat, bout: nat, z: nat, r: nat, i: nat, ghost s: seq<word>, ghost B: seq<word>)
    requires r >= 1 && bin + 32 * r <= XY.Length == |s| && bout + 32 * r <= XY.Length && z + 16 <= XY.Length
    requires bout + 32 * r <= bin || bin + 32 * r <= bout
    requires z + 16 <= bin || bin + 32 * r <= z
    requires z + 16 <= bout || bout + 32 * r <= z
    requires B == Get(s, bin, 32 * r) && i < r
    requires XY[..] == MixState(ShuffledCore(SalsaCore()), s, B, bout, z, r, i, i, 2 * i)
    modifies XY
    ensures XY[..] == MixState(ShuffledCore(SalsaCore()), s, B, bout, z, r, i + 1, i + 1, 2 * i + 2)
  {
    hide SalsaCore, IsSalsaCore, ShuffledCore, Put, Get, MixState, Chain;
    ghost var H := ShuffledCore(SalsaCore());
    MixStateEven(H, s, B, bout, z, r, i);
    MixStateReads(H, s, B, bin, bout, z, r, i, i, 2 * i);
    MixBlock(XY, bin, bout + 16 * i, z, r, 2 * i, B);
    MixStateOdd(H, s, B, bout, z, r, i);
    MixStateReads(H, s, B, bin, bout, z, r, i + 1, i, 2 * i + 1);
    assert bout + 16 * (r + i) == bout + 16 * r + 16 * i;
    MixBlock(XY, bin, bout + 16 * (r + i), z, r, 2 * i + 1, B);
  }

  /** blockmix_salsa8(Bin, Bout, X, r) with the three areas inside the work array XY. */
  method BlockMixSalsa8(XY: array<word>, bin: nat, bout: nat, z: nat, r: nat)
    requires r >= 1 && bin + 32 * r <= XY.Length && bout + 32 * r <= XY.Length && z + 16 <= XY.Length
    requires bout + 32 * r <= bin || bin + 32 * r <= bout
    requires z + 16 <= bin || bin + 32 * r <= z
    requires z + 16 <= bout || bout + 32 * r <= z
    modifies XY
    ensures var B := Get(old(XY[..]), bin, 32 * r);
            XY[..] == Put(Put(old(XY[..]), bout, BlockMix(ShuffledCore(SalsaCore()), B, r)),
                          z, Chain(ShuffledCore(SalsaCore()), B, r, 2 * r))
  {
    hide SalsaCore, IsSalsaCore, ShuffledCore, Put, Get, MixState, Chain, BlockMix;
    ghost var s := XY[..];
    ghost var B := Get(s, bin, 32 * r);
    // The chain starts from the last block.
    BlkCpy(XY, z, XY, bin + (2 * r - 1) * 16, 4);
    MixStateStart(ShuffledCore(SalsaCore()), s, B, bin, bout, z, r);
    // The chain goes through all blocks in order.
    var i := 0;
    while i < r
      invariant 0 <= i <= r
      invariant XY[..] == MixState(ShuffledCore(SalsaCore()), s, B, bout, z, r, i, i, 2 * i)
    {
      MixPair(XY, bin, bout, z, r, i, s, B);
      i := i + 1;
    }
    MixStateEnd(ShuffledCore(SalsaCore()), s, B, bout, z, r);
  }

  //////////////////////////////////////////////////////////////////////////////
  // crypto_scrypt_smix
  //////////////////////////////////////////////////////////////////////////////

  /** One BlockMix between the areas X and Y of the work array. */
  method BlockMixTo(XY: array<word>, src: nat, dst: nat, r: nat)
    requires r >= 1 && XY.Length == 64 * r + 16
    requires (src == 0 && dst == 32 * r) || (src == 32 * r && dst == 0)
    modifies XY
    ensures Get(XY[..], dst, 32 * r) == BlockMix(ShuffledCore(SalsaCore()), old(Get(XY[..], src, 32 * r)), r)
  {
    hide Get, Put, BlockMix, Chain, SalsaCore, IsSalsaCore, ShuffledCore;
    ghost var s := XY[..];
    ghost var B := Get(s, src, 32 * r);
    ghost var out, X := BlockMix(ShuffledCore(SalsaCore()), B, r), Chain(ShuffledCore(SalsaCore()), B, r, 2 * r);
    BlockMixSalsa8(XY, src, dst, 64 * r, r);
    GetPutApart(Put(s, dst, out), 64 * r, X, dst, 32 * r);
    GetPut(s, dst, out);
  }

  /** Steps 3 and 4 of the first loop: V_i <-- X, X <-- H(X), from one area of XY to the other. */
  method FillStep(V: array<word>, XY: array<word>, src: nat, dst: nat, r: nat, i: nat, ghost V0: seq<word>,
                  ghost rows: seq<seq<word>>)
    requires r >= 1 && XY.Length == 64 * r + 16 && V != XY
    requires (src == 0 && dst == 32 * r) || (src == 32 * r && dst == 0)
    requires |rows| == i && RowsOf(rows, 32 * r) && i * (32 * r) <= (i + 1) * (32 * r) <= |V0|
    requires V[..] == PutRows(V0, rows, 32 * r)
    modifies V, XY
    ensures Get(XY[..], dst, 32 * r) == BlockMix(ShuffledCore(SalsaCore()), old(Get(XY[..], src, 32 * r)), r)
    ensures RowsOf(rows + [old(Get(XY[..], src, 32 * r))], 32 * r)
    ensures V[..] == PutRows(V0, rows + [old(Get(XY[..], src, 32 * r))], 32 * r)
  {
    hide Get, Put, BlockMix, SalsaCore, IsSalsaCore, ShuffledCore, PutRows;
    PutRowsStep(V0, rows, 32 * r, Get(XY[..], src, 32 * r));
    BlkCpy(V, i * (32 * r), XY, src, 8 * r);
    BlockMixTo(XY, src, dst, r);
  }

  /** integerify(B, r): lane 0 of X[0] and lane 1 of X[3] of the last block. */
  method IntegerifyAt(XY: array<word>, src: nat, r: nat) returns (j: nat)
    requires r >= 1 && src + 32 * r <= XY.Length
    ensures j == IntegerifyShuffled(Get(XY[..], src, 32 * r), r)
  {
    hide WordVal;
    var X := src + (2 * r - 1) * 16;
    ghost var S := Get(XY[..], src, 32 * r);
    var X0 := Load(XY[..], X).l0;
    var X13 := Load(XY[..], X + 12).l1;
    assert S[16 * (2 * r - 1)] == X0 && S[16 * (2 * r - 1) + 13] == X13;
    j := WordVal(X13) * TWO32 + WordVal(X0);
  }

  /** Steps 7 and 8 of the second loop: j <-- Integerify(X) mod N, X <-- H(X xor V_j). */
  method MixStep(V: array<word>, XY: array<word>, src: nat, dst: nat, r: nat, N: nat, ghost V0: seq<word>,
                 ghost rows: seq<seq<word>>)
    requires r >= 1 && XY.Length == 64 * r + 16 && V != XY && LoopSize(N) && N >= 1
    requires (src == 0 && dst == 32 * r) || (src == 32 * r && dst == 0)
    requires |rows| == N && RowsOf(rows, 32 * r) && N * (32 * r) <= |V0|
    requires V[..] == PutRows(V0, rows, 32 * r)
    modifies XY
    ensures Get(XY[..], dst, 32 * r)
         == (var X := old(Get(XY[..], src, 32 * r));
             BlockMix(ShuffledCore(SalsaCore()), XorWords(X, rows[IntegerifyShuffled(X, r) % N]), r))
  {
    hide Get, Put, BlockMix, SalsaCore, IsSalsaCore, ShuffledCore, IntegerifyShuffled, XorWords, PutRows;
    var j := IntegerifyAt(XY, src, r);
    MaskIsModulo(j, N);
    j := BitAnd(j, N - 1);
    GetRow(V0, rows, 32 * r, j);
    ghost var s := XY[..];
    BlkXor(XY, src, V, j * (32 * r), 8 * r);
    GetPut(s, src, XorWords(Get(s, src, 32 * r), rows[j]));
    BlockMixTo(XY, src, dst, r);
  }

  /** Block k of the input decoded into the shuffled layout: the inner loop of step 1. */
  method LoadBlock(XY: array<word>, k: nat, B: array<byte>, off: nat)
    requires 16 * k + 16 <= XY.Length && off + 64 * k + 64 <= B.Length
    modifies XY
    ensures XY[..] == Put(old(XY[..]), 16 * k, Shuffled(Words(Get(B[..], off + 64 * k, 64))))
  {
    hide Le32;
    ghost var b := Get(B[..], off + 64 * k, 64);
    ghost var x := Shuffled(Words(b));
    var i := 0;
    while i < 16
      invariant 0 <= i <= 16
      invariant XY[16 * k..16 * k + i] == x[..i]
      invariant forall j | 0 <= j < XY.Length && !(16 * k <= j < 16 * k + 16) :: XY[j] == old(XY[j])
    {
      var w := i * 5 % 16;
      var p := off + (k * 16 + w) * 4;
      WordsAt(b, w);
      assert p == off + 64 * k + 4 * w;
      label L:
      XY[k * 16 + i] := Le32(B[p], B[p + 1], B[p + 2], B[p + 3]);
      assert XY[16 * k..16 * k + i] == old@L(XY[16 * k..16 * k + i]);
      assert XY[16 * k..16 * k + i + 1] == XY[16 * k..16 * k + i] + [XY[16 * k + i]];
      assert x[..i + 1] == x[..i] + [x[i]];
      i := i + 1;
    }
    PutIs(old(XY[..]), XY[..], 16 * k, x);
  }

  /** Step 1: X <-- B, block by block. */
  method LoadWords(XY: array<word>, B: array<byte>, off: nat, r: nat)
    requires 32 * r <= XY.Length && off + 128 * r <= B.Length
    modifies XY
    ensures XY[..] == Put(old(XY[..]), 0, ShuffleAll(Words(Get(B[..], off, 128 * r))))
  {
    hide Put, Shuffled, ShuffleAll, Words;
    ghost var s, b := XY[..], Get(B[..], off, 128 * r);
    PutNothing(s, 0);
    LoadNothing(b);
    var k := 0;
    while k < 2 * r
      invariant 0 <= k <= 2 * r
      invariant XY[..] == Put(s, 0, ShuffleAll(Words(b[..64 * k])))
    {
      LoadedMore(b, k);
      GetGet(B[..], off, 128 * r, 64 * k, 64);
      PutJoin(s, 0, ShuffleAll(Words(b[..64 * k])), Shuffled(Words(Get(b, 64 * k, 64))));
      LoadBlock(XY, k, B, off);
      k := k + 1;
    }
    assert b[..64 * k] == b;
  }

  lemma LoadNothing(b: seq<byte>)
    ensures ShuffleAll(Words(b[..0])) == []
  {
  }

  lemma LoadedMore(b: seq<byte>, k: nat)
    requires 64 * k + 64 <= |b|
    ensures |Words(b[..64 * k])| == 16 * k
    ensures ShuffleAll(Words(b[..64 * (k + 1)])) == ShuffleAll(Words(b[..64 * k])) + Shuffled(Words(Get(b, 64 * k, 64)))
  {
    hide Shuffled, ShuffleAll, Words;
    var a, c := b[..64 * k], Get(b, 64 * k, 64);
    assert b[..64 * (k + 1)] == a + c;
    assert |a| == 4 * (16 * k);
    WordsConcat(a, c);
    ShuffleAllConcat(Words(a), k, Words(c));
    ShuffleOne(Words(c));
  }

  /** Storing one word of a block changes that word of the block. */
  lemma PutWord(s: seq<byte>, o: nat, y: seq<word>, w: nat, v: word)
    requires |y| == 16 && o + 64 <= |s| && w < 16
    ensures Put(Put(s, o, Unwords(y)), o + 4 * w, Le32Enc(v)) == Put(s, o, Unwords(y[w := v]))
  {
    hide Le32Enc, Unwords, Put;
    var t, e := Unwords(y), Le32Enc(v);
    var a, b, c := t[..4 * w], t[4 * w..4 * w + 4], t[4 * w + 4..];
    assert t == a + b + c;
    PutJoin(s, o, a + b, c);
    PutJoin(s, o, a, b);
    PutCommutes(Put(Put(s, o, a), o + 4 * w, b), o + 4 * w + 4, c, o + 4 * w, e);
    PutPut(Put(s, o, a), o + 4 * w, b, e);
    PutJoin(s, o, a, e);
    PutJoin(s, o, a + e, c);
    UnwordsUpdate(y, w, v);
  }

  lemma UnwordsUpdate(y: seq<word>, w: nat, v: word)
    requires w < |y|
    ensures Unwords(y[w := v]) == Unwords(y)[..4 * w] + Le32Enc(v) + Unwords(y)[4 * w + 4..]
  {
    hide Le32Enc;
    var t, u := Unwords(y), Unwords(y[w := v]);
    forall i | 0 <= i < |t|
      ensures u[i] == (t[..4 * w] + Le32Enc(v) + t[4 * w + 4..])[i]
    {
      if 4 * w <= i < 4 * w + 4 {
        assert i / 4 == w && i % 4 == i - 4 * w;
      }
    }
  }

  /** Block k of the result encoded from the shuffled layout: the inner loop of step 10. */
  method StoreBlock(B: array<byte>, off: nat, XY: array<word>, k: nat)
    requires 16 * k + 16 <= XY.Length && off + 64 * k + 64 <= B.Length
    modifies B
    ensures B[..] == Put(old(B[..]), off + 64 * k, Unwords(Unshuffled(Get(XY[..], 16 * k, 16))))
  {
    hide Le32Enc, Unwords, Put, Filled, Unshuffled;
    ghost var s, x := B[..], Get(XY[..], 16 * k, 16);
    ghost var y := Words(Get(s, off + 64 * k, 64));
    UnwordsWords(Get(s, off + 64 * k, 64));
    PutSame(s, off + 64 * k, 64);
    FilledNone(y, x);
    var i := 0;
    while i < 16
      invariant 0 <= i <= 16 && |y| == 16
      invariant B[..] == Put(s, off + 64 * k, Unwords(y))
      invariant Filled(y, x, i)
    {
      var w := i * 5 % 16;
      PutWord(s, off + 64 * k, y, w, XY[k * 16 + i]);
      assert off + (k * 16 + w) * 4 == off + 64 * k + 4 * w;
      FilledNext(y, x, i);
      Smix.StoreWord(B, off + (k * 16 + w) * 4, XY[k * 16 + i]);
      y := y[w := XY[k * 16 + i]];
      i := i + 1;
    }
    FilledAll(y, x);
  }

  /** The first i words of x are in their places. */
  ghost predicate Filled(y: seq<word>, x: seq<word>, i: nat)
    requires |y| == 16 && |x| == 16 && i <= 16
  {
    forall j | 0 <= j < i :: y[j * 5 % 16] == x[j]
  }

  lemma FilledNone(y: seq<word>, x: seq<word>)
    requires |y| == 16 && |x| == 16
    ensures Filled(y, x, 0)
  {
  }

  lemma FilledNext(y: seq<word>, x: seq<word>, i: nat)
    requires |y| == 16 && |x| == 16 && i < 16 && Filled(y, x, i)
    ensures Filled(y[i * 5 % 16 := x[i]], x, i + 1)
  {
    var w := i * 5 % 16;
    forall j | 0 <= j < i + 1
      ensures y[w := x[i]][j * 5 % 16] == x[j]
    {
      ShuffleIndices(i);
      ShuffleIndices(j);
    }
  }

  lemma FilledAll(y: seq<word>, x: seq<word>)
    requires |y| == 16 && |x| == 16 && Filled(y, x, 16)
    ensures y == Unshuffled(x)
  {
    forall w | 0 <= w < 16
      ensures y[w] == Unshuffled(x)[w]
    {
      ShuffleIndices(w);
      assert y[(w * 13 % 16) * 5 % 16] == x[w * 13 % 16];
    }
  }

  lemma PutSame(s: seq<byte>, i: nat, n: nat)
    requires i + n <= |s|
    ensures Put(s, i, Get(s, i, n)) == s
  {
  }

  /** Step 10: B' <-- X, block by block, where X is W in the shuffled layout. */
  method StoreWords(B: array<byte>, off: nat, XY: array<word>, r: nat, ghost W: seq<word>)
    requires 32 * r <= XY.Length && off + 128 * r <= B.Length
    requires |W| == 32 * r && Get(XY[..], 0, 32 * r) == ShuffleAll(W)
    modifies B
    ensures B[..] == Put(old(B[..]), off, Unwords(W))
  {
    hide Put, Get, Shuffled, Unshuffled, ShuffleAll, Unwords;
    ghost var s := B[..];
    PutNothing(s, off);
    UnwordsNothing(W);
    var k := 0;
    while k < 2 * r
      invariant 0 <= k <= 2 * r
      invariant B[..] == Put(s, off, Unwords(W[..16 * k]))
    {
      StoredMore(XY[..], r, W, k);
      PutJoin(s, off, Unwords(W[..16 * k]), Unwords(MixWords.Block(W, k)));
      StoreBlock(B, off, XY, k);
      k := k + 1;
    }
    assert W[..16 * k] == W;
  }

  lemma UnwordsNothing(W: seq<word>)
    ensures Unwords(W[..0]) == []
  {
  }

  lemma StoredMore(t: seq<word>, r: nat, W: seq<word>, k: nat)
    requires 32 * r <= |t| && |W| == 32 * r && Get(t, 0, 32 * r) == ShuffleAll(W) && k < 2 * r
    ensures Unshuffled(Get(t, 16 * k, 16)) == MixWords.Block(W, k)
    ensures Unwords(W[..16 * (k + 1)]) == Unwords(W[..16 * k]) + Unwords(MixWords.Block(W, k))
  {
    hide Shuffled, Unshuffled, ShuffleAll, Unwords;
    GetGet(t, 0, 32 * r, 16 * k, 16);
    assert Get(ShuffleAll(W), 16 * k, 16) == MixWords.Block(ShuffleAll(W), k);
    ShuffleBlock(W, k);
    ShuffleInverse(MixWords.Block(W, k));
    assert W[..16 * (k + 1)] == W[..16 * k] + MixWords.Block(W, k);
    UnwordsConcat(W[..16 * k], MixWords.Block(W, k));
  }

  /** The loop of steps 2 to 4, two steps at a time. */
  method FirstLoop(V: array<word>, XY: array<word>, r: nat, N: nat, ghost S: seq<word>) returns (ghost V0: seq<word>)
    requires r >= 1 && N % 2 == 0 && V != XY && V.Length == N * (32 * r) && XY.Length == 64 * r + 16
    requires |S| == 32 * r && S == Get(XY[..], 0, 32 * r)
    modifies V, XY
    ensures Get(XY[..], 0, 32 * r) == Iterate(ShuffledCore(SalsaCore()), S, r, N)
    ensures |V0| == N * (32 * r) && V[..] == PutRows(V0, Rows(ShuffledCore(SalsaCore()), S, r, N), 32 * r)
  {
    hide Get, Put, BlockMix, SalsaCore, IsSalsaCore, ShuffledCore, PutRows, Iterate;
    ghost var H := ShuffledCore(SalsaCore());
    V0 := V[..];
    RowsStart(H, V0, S, r);
    var i := 0;
    while i < N
      invariant 0 <= i <= N && i % 2 == 0 && i * (32 * r) <= |V0|
      invariant Get(XY[..], 0, 32 * r) == Iterate(H, S, r, i)
      invariant V[..] == PutRows(V0, Rows(H, S, r, i), 32 * r)
    {
      RowBound(i, N, 32 * r);
      RowBound(i + 1, N, 32 * r);
      IterateStep(H, S, r, i);
      IterateStep(H, S, r, i + 1);
      FillStep(V, XY, 0, 32 * r, r, i, V0, Rows(H, S, r, i));
      FillStep(V, XY, 32 * r, 0, r, i + 1, V0, Rows(H, S, r, i + 1));
      i := i + 2;
    }
  }

  /** A step of the second loop in terms of the shuffled table. */
  lemma ShuffledStepIs(W: seq<word>, r: nat, N: nat, k: nat)
    requires r >= 1 && |W| == 32 * r && N >= 1
    ensures (var X := ShuffleAll(Mix(SalsaCore(), W, r, N, k));
             var rows := Rows(ShuffledCore(SalsaCore()), ShuffleAll(W), r, N);
             BlockMix(ShuffledCore(SalsaCore()), XorWords(X, rows[IntegerifyShuffled(X, r) % N]), r))
         == ShuffleAll(Mix(SalsaCore(), W, r, N, k + 1))
  {
    hide BlockMix, IntegerifyShuffled, XorWords, Iterate, Rows, Mix, ShuffleAll, ShuffledCore, SalsaCore, IsSalsaCore;
    ShuffledMixStep(SalsaCore(), W, r, N, k);
  }

  /** The loop of steps 6 to 8, two steps at a time, starting from the table of the word array W. */
  method SecondLoop(V: array<word>, XY: array<word>, r: nat, N: nat, ghost V0: seq<word>, ghost W: seq<word>)
    requires r >= 1 && LoopSize(N) && N >= 1 && N % 2 == 0 && V != XY && XY.Length == 64 * r + 16
    requires |V0| == N * (32 * r) && |W| == 32 * r
    requires Get(XY[..], 0, 32 * r) == Iterate(ShuffledCore(SalsaCore()), ShuffleAll(W), r, N)
    requires V[..] == PutRows(V0, Rows(ShuffledCore(SalsaCore()), ShuffleAll(W), r, N), 32 * r)
    modifies XY
    ensures Get(XY[..], 0, 32 * r) == ShuffleAll(Mix(SalsaCore(), W, r, N, N))
  {
    hide Get, Put, BlockMix, SalsaCore, IsSalsaCore, ShuffledCore, ShuffleAll, PutRows, Rows, Iterate, Mix,
         IntegerifyShuffled, XorWords, RowsOf, LoopSize;
    ghost var rows := Rows(ShuffledCore(SalsaCore()), ShuffleAll(W), r, N);
    MixStart(SalsaCore(), W, r, N);
    ShuffledIterate(SalsaCore(), W, r, N);
    var i := 0;
    while i < N
      invariant 0 <= i <= N && i % 2 == 0
      invariant Get(XY[..], 0, 32 * r) == ShuffleAll(Mix(SalsaCore(), W, r, N, i))
      invariant V[..] == PutRows(V0, rows, 32 * r)
    {
      ShuffledStepIs(W, r, N, i);
      ShuffledStepIs(W, r, N, i + 1);
      MixStep(V, XY, 0, 32 * r, r, N, V0, rows);
      MixStep(V, XY, 32 * r, 0, r, N, V0, rows);
      i := i + 2;
    }
  }

  /** crypto_scrypt_smix_sse2(B, r, N, V, XY): the same effect on B as the generic code. */
  method CryptoScryptSmixSse2(B: array<byte>, off: nat, r: nat, N: nat, V: array<word>, XY: array<word>)
    requires r >= 1 && off + 128 * r <= B.Length && LoopSize(N)
    requires V != XY && V.Length == N * (32 * r) && XY.Length == 64 * r + 16
    modifies B, V, XY
    ensures N >= 1
    ensures B[..] == Put(old(B[..]), off, Rfc7914.ROMix(Rfc7914.SalsaOctets(), Get(old(B[..]), off, 128 * r), r, N))
  {
    hide Get, Put, SalsaCore, IsSalsaCore, ShuffledCore, ShuffleAll, Mix, Words, Unwords, Rfc7914.SalsaOctets,
         Rfc7914.ROMix;
    ghost var s := B[..];
    ghost var W := Words(Get(s, off, 128 * r));
    MaskIsModulo(0, N);
    // The slice becomes the work buffer.
    LoadWords(XY, B, off, r);
    GetPut(old(XY[..]), 0, ShuffleAll(W));
    ghost var V0 := FirstLoop(V, XY, r, N, ShuffleAll(W));
    SecondLoop(V, XY, r, N, V0, W);
    // The work buffer goes back into the slice.
    StoreWords(B, off, XY, r, Mix(SalsaCore(), W, r, N, N));
    Smix.RefinesROMix(Get(s, off, 128 * r), r, N);
  }
}

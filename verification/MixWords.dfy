/** The same functions on 32-bit words, and the proof that little-endian decoding carries one to the other. */
module MixWords {
  import opened Bytes
  import opened Bits
  import Rfc7914
  import opened Salsa

  /** Block i of an array of 16-word blocks. */
  ghost function Block(B: seq<word>, i: nat): (b: seq<word>)
    requires 16 * i + 16 <= |B|
    ensures |b| == 16
  {
    B[16 * i..16 * i + 16]
  }

  ghost function Chain(H: Core, B: seq<word>, r: nat, i: nat): (X: seq<word>)
    requires r >= 1 && |B| == 32 * r && i <= 2 * r
    ensures |X| == 16
  {
    if i == 0 then Block(B, 2 * r - 1) else H(XorWords(Chain(H, B, r, i - 1), Block(B, i - 1)))
  }

  ghost function Evens(H: Core, B: seq<word>, r: nat, n: nat): (Y: seq<word>)
    requires r >= 1 && |B| == 32 * r && n <= r
    ensures |Y| == 16 * n
  {
    if n == 0 then [] else Evens(H, B, r, n - 1) + Chain(H, B, r, 2 * n - 1)
  }

  ghost function Odds(H: Core, B: seq<word>, r: nat, n: nat): (Y: seq<word>)
    requires r >= 1 && |B| == 32 * r && n <= r
    ensures |Y| == 16 * n
  {
    if n == 0 then [] else Odds(H, B, r, n - 1) + Chain(H, B, r, 2 * n)
  }

  ghost function BlockMix(H: Core, B: seq<word>, r: nat): (B': seq<word>)
    requires r >= 1 && |B| == 32 * r
    ensures |B'| == 32 * r
  {
    Evens(H, B, r, r) + Odds(H, B, r, r)
  }

  // One unfolding of each recursive definition, for proofs that hide the definitions.

  lemma ChainFirst(H: Core, B: seq<word>, r: nat)
    requires r >= 1 && |B| == 32 * r
    ensures Chain(H, B, r, 0) == Block(B, 2 * r - 1)
  {
  }

  lemma ChainNext(H: Core, B: seq<word>, r: nat, i: nat)
    requires r >= 1 && |B| == 32 * r && i < 2 * r
    ensures Chain(H, B, r, i + 1) == H(XorWords(Chain(H, B, r, i), Block(B, i)))
  {
    hide XorWords, Block;
  }

  lemma OutputFirst(H: Core, B: seq<word>, r: nat)
    requires r >= 1 && |B| == 32 * r
    ensures Evens(H, B, r, 0) == Odds(H, B, r, 0) == []
  {
  }

  lemma OutputNext(H: Core, B: seq<word>, r: nat, n: nat)
    requires r >= 1 && |B| == 32 * r && n < r
    ensures Evens(H, B, r, n + 1) == Evens(H, B, r, n) + Chain(H, B, r, 2 * n + 1)
    ensures Odds(H, B, r, n + 1) == Odds(H, B, r, n) + Chain(H, B, r, 2 * n + 2)
  {
    hide Chain;
  }

  /** The low 64 bits of the last block. */
  ghost function Integerify(B: seq<word>, r: nat): nat
    requires r >= 1 && |B| == 32 * r
  {
    var X := Block(B, 2 * r - 1);
    WordVal(X[1]) * TWO32 + WordVal(X[0])
  }

  ghost function Iterate(H: Core, B: seq<word>, r: nat, i: nat): (X: seq<word>)
    requires r >= 1 && |B| == 32 * r
    ensures |X| == 32 * r
  {
    if i == 0 then B else BlockMix(H, Iterate(H, B, r, i - 1), r)
  }

  ghost function Mix(H: Core, B: seq<word>, r: nat, N: nat, k: nat): (X: seq<word>)
    requires r >= 1 && |B| == 32 * r && N >= 1
    ensures |X| == 32 * r
  {
    if k == 0 then Iterate(H, B, r, N)
    else
      var X := Mix(H, B, r, N, k - 1);
      BlockMix(H, XorWords(X, Iterate(H, B, r, Integerify(X, r) % N)), r)
  }

  //////////////////////////////////////////////////////////////////////////////
  // Simulation of the octet functions
  //////////////////////////////////////////////////////////////////////////////

  /** Decoding carries the octet core h to the word core H. */
  ghost predicate Simulates(h: Rfc7914.OctetCore, H: Core) {
    forall x {:trigger h(x)} :: |x| == 64 ==> Words(h(x)) == H(Words(x))
  }

  lemma SalsaCoreAt(x: seq<word>)
    requires |x| == 16
    ensures SalsaCore()(x) == Salsa20_8(x)
  {
    hide Salsa20_8, SalsaCore;
  }

  lemma SalsaOctetsAt(x: seq<byte>)
    requires |x| == 64
    ensures Rfc7914.SalsaOctets()(x) == Unwords(Salsa20_8(Words(x)))
  {
    hide Salsa20_8, Words, Unwords, Rfc7914.SalsaOctets;
  }

  lemma SalsaSimulates()
    ensures Simulates(Rfc7914.SalsaOctets(), SalsaCore())
  {
    hide Salsa20_8, Words, Unwords, SalsaCore, IsSalsaCore, Rfc7914.SalsaOctets, Rfc7914.IsSalsaOctets;
    forall x: seq<byte> | |x| == 64
      ensures Words(Rfc7914.SalsaOctets()(x)) == SalsaCore()(Words(x))
    {
      SalsaCoreAt(Words(x));
      SalsaOctetsAt(x);
      WordsUnwords(Salsa20_8(Words(x)));
    }
  }

  lemma BlockWords(B: seq<byte>, r: nat, i: nat)
    requires |B| == 128 * r && i < 2 * r
    ensures Words(Rfc7914.Block(B, i)) == Block(Words(B), i)
  {
    hide Words;
    assert 16 * i + 16 <= 16 * (2 * r) == |B| / 4;
    WordsSlice(B, 16 * i, 16 * i + 16);
    assert 4 * (16 * i) == 64 * i && 4 * (16 * i + 16) == 64 * i + 64;
  }

  lemma {:induction false} ChainWords(h: Rfc7914.OctetCore, H: Core, B: seq<byte>, r: nat, i: nat)
    requires Simulates(h, H)
    requires r >= 1 && |B| == 128 * r && i <= 2 * r
    ensures Words(Rfc7914.Chain(h, B, r, i)) == Chain(H, Words(B), r, i)
    decreases i
  {
    hide Words, XorBytes, XorWords, Block, Rfc7914.Block, Simulates;
    if i == 0 {
      BlockWords(B, r, 2 * r - 1);
    } else {
      ChainWords(h, H, B, r, i - 1);
      BlockWords(B, r, i - 1);
      var X, b := Rfc7914.Chain(h, B, r, i - 1), Rfc7914.Block(B, i - 1);
      WordsXor(X, b);
      SimulatesAt(h, H, XorBytes(X, b));
    }
  }

  lemma SimulatesAt(h: Rfc7914.OctetCore, H: Core, x: seq<byte>)
    requires Simulates(h, H) && |x| == 64
    ensures Words(h(x)) == H(Words(x))
  {
  }

  lemma {:induction false} OutputWords(h: Rfc7914.OctetCore, H: Core, B: seq<byte>, r: nat, n: nat)
    requires Simulates(h, H)
    requires r >= 1 && |B| == 128 * r && n <= r
    ensures Words(Rfc7914.Evens(h, B, r, n)) == Evens(H, Words(B), r, n)
    ensures Words(Rfc7914.Odds(h, B, r, n)) == Odds(H, Words(B), r, n)
    decreases n
  {
    hide Words, Chain, Rfc7914.Chain;
    if n == 0 {
      assert Words([]) == [];
    } else {
      OutputWords(h, H, B, r, n - 1);
      ChainWords(h, H, B, r, 2 * n - 1);
      ChainWords(h, H, B, r, 2 * n);
      WordsConcat(Rfc7914.Evens(h, B, r, n - 1), Rfc7914.Chain(h, B, r, 2 * n - 1));
      WordsConcat(Rfc7914.Odds(h, B, r, n - 1), Rfc7914.Chain(h, B, r, 2 * n));
    }
  }

  /** Decoding carries the octet form of BlockMix to the word form. */
  lemma BlockMixWords(h: Rfc7914.OctetCore, H: Core, B: seq<byte>, r: nat)
    requires Simulates(h, H)
    requires r >= 1 && |B| == 128 * r
    ensures Words(Rfc7914.BlockMix(h, B, r)) == BlockMix(H, Words(B), r)
  {
    hide Words, Evens, Odds, Rfc7914.Evens, Rfc7914.Odds;
    OutputWords(h, H, B, r, r);
    WordsConcat(Rfc7914.Evens(h, B, r, r), Rfc7914.Odds(h, B, r, r));
  }

  lemma MulAssoc(a: nat, b: nat, c: nat) ensures a * (b * c) == a * b * c {}

  lemma {:induction false} LeNatSplit(b: seq<byte>, k: nat)
    requires k <= |b|
    ensures LeNat(b) == LeNat(b[..k]) + Pow256(k) * LeNat(b[k..])
  {
    hide ByteVal;
    if k == 0 {
      assert b[..0] == [] && b[0..] == b;
    } else {
      LeNatSplit(b[1..], k - 1);
      assert b[..k][1..] == b[1..][..k - 1];
      assert b[1..][k - 1..] == b[k..];
      assert LeNat(b[..k]) == ByteVal(b[0]) + 256 * LeNat(b[1..][..k - 1]);
      MulAssoc(256, Pow256(k - 1), LeNat(b[k..]));
    }
  }

  /** The word form reads the low 64 bits of the integer of the octet form. */
  lemma IntegerifyWords(B: seq<byte>, r: nat)
    requires r >= 1 && |B| == 128 * r
    ensures Integerify(Words(B), r) == LeNat(Rfc7914.Block(B, 2 * r - 1)[..8])
    ensures exists q: nat :: Rfc7914.Integerify(B, r) == Integerify(Words(B), r) + TWO64 * q
  {
    hide Le32, WordVal, ByteVal, LeNat, Words;
    var b := Rfc7914.Block(B, 2 * r - 1);
    BlockWords(B, r, 2 * r - 1);
    assert Words(b)[0] == Le32(b[0], b[1], b[2], b[3]) && Words(b)[1] == Le32(b[4], b[5], b[6], b[7]) by {
      WordsAt(b, 0);
      WordsAt(b, 1);
    }
    var lo := b[..8];
    LeNat4(lo[..4]);
    LeNat4(lo[4..]);
    LeNatSplit(lo, 4);
    LeNatSplit(b, 8);
    Pow256Of4();
    Pow256Of8();
    assert Rfc7914.Integerify(B, r) == Integerify(Words(B), r) + TWO64 * LeNat(b[8..]);
  }

  lemma WordsAt(b: seq<byte>, k: nat)
    requires |b| % 4 == 0 && k < |b| / 4
    ensures Words(b)[k] == Le32(b[4 * k], b[4 * k + 1], b[4 * k + 2], b[4 * k + 3])
  {
  }

  lemma Pow256Of4() ensures Pow256(4) == TWO32 {}

  lemma {:induction false} IterateWords(h: Rfc7914.OctetCore, H: Core, B: seq<byte>, r: nat, i: nat)
    requires Simulates(h, H)
    requires r >= 1 && |B| == 128 * r
    ensures Words(Rfc7914.Iterate(h, B, r, i)) == Iterate(H, Words(B), r, i)
    decreases i
  {
    hide Words, Rfc7914.BlockMix, BlockMix;
    if i != 0 {
      IterateWords(h, H, B, r, i - 1);
      BlockMixWords(h, H, Rfc7914.Iterate(h, B, r, i - 1), r);
    }
  }

  /** The loop sizes the source accepts: powers of two between 2 and 2^63. */
  ghost predicate LoopSize(N: nat) {
    exists k: nat :: 1 <= k <= 63 && N == Pow2(k)
  }

  lemma Pow2Of64()
    ensures Pow2(64) == TWO64
  {
    assert Pow2(1) == 2 && Pow2(2) == 4;
    assert Pow2(2 + 2) == 16 by { Pow2Split(2, 2); }
    assert Pow2(4 + 4) == 256 by { Pow2Split(4, 4); }
    assert Pow2(8 + 8) == 65536 by { Pow2Split(8, 8); }
    assert Pow2(16 + 16) == Pow2(16) * Pow2(16) by { Pow2Split(16, 16); }
    assert Pow2(32 + 32) == Pow2(32) * Pow2(32) by { Pow2Split(32, 32); }
  }

  lemma Pow2Of1() ensures Pow2(1) == 2 {}

  lemma LoopSizeDivides(N: nat) returns (m: nat)
    requires LoopSize(N)
    ensures N >= 2 && TWO64 == m * N
  {
    hide Pow2;
    var k: nat :| 1 <= k <= 63 && N == Pow2(k);
    Pow2Split(k, 64 - k);
    Pow2Of64();
    Pow2Of1();
    Pow2Increases(1, k);
    m := Pow2(64 - k);
    assert TWO64 == N * m;
  }

  /** Reducing the low 64 bits of the last block is reducing the whole 512-bit integer. */
  lemma IntegerifyMod(B: seq<byte>, r: nat, N: nat)
    requires r >= 1 && |B| == 128 * r && LoopSize(N)
    ensures Integerify(Words(B), r) % N == Rfc7914.Integerify(B, r) % N
  {
    hide *;
    IntegerifyWords(B, r);
    var x, y := Integerify(Words(B), r), Rfc7914.Integerify(B, r);
    var q: nat :| y == x + TWO64 * q;
    var m := LoopSizeDivides(N);
    assert TWO64 * q == (m * q) * N;
    ModAddMultiple(x, N, m * q);
  }

  /** Decoding carries the octet form of ROMix to the word form. */
  lemma {:induction false} MixSteps(h: Rfc7914.OctetCore, H: Core, B: seq<byte>, r: nat, N: nat, k: nat)
    requires Simulates(h, H)
    requires r >= 1 && |B| == 128 * r && LoopSize(N)
    ensures Words(Rfc7914.Mix(h, B, r, N, k)) == Mix(H, Words(B), r, N, k)
    decreases k
  {
    hide Words, Rfc7914.BlockMix, BlockMix, Rfc7914.Iterate, Iterate, XorBytes, XorWords, Integerify,
         Rfc7914.Integerify;
    if k == 0 {
      IterateWords(h, H, B, r, N);
    } else {
      MixSteps(h, H, B, r, N, k - 1);
      var X := Rfc7914.Mix(h, B, r, N, k - 1);
      IntegerifyMod(X, r, N);
      var V := Rfc7914.Iterate(h, B, r, Rfc7914.Integerify(X, r) % N);
      IterateWords(h, H, B, r, Rfc7914.Integerify(X, r) % N);
      WordsXor(X, V);
      BlockMixWords(h, H, XorBytes(X, V), r);
    }
  }
}

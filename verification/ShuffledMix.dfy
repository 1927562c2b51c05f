/**
 The SSE2 code keeps every block by its diagonals.  A core conjugated by that layout turns the word
 functions of MixWords into those of the SSE2 code, so the whole of smix commutes with the layout.
 */
module ShuffledMix {
  import opened Bytes
  import opened MixWords
  import opened Salsa

  ghost function ShuffledApply(H: Core, x: seq<word>): (y: seq<word>)
    ensures |y| == |x|
  {
    if |x| == 16 then Shuffled(H(Unshuffled(x))) else x
  }

  /** The core that the SSE2 code applies to a shuffled block. */
  ghost function ShuffledCore(H: Core): Core {
    x => ShuffledApply(H, x)
  }

  /** Every block of an array in the shuffled layout. */
  ghost function ShuffleAll(W: seq<word>): (S: seq<word>)
    ensures |S| == |W|
  {
    if |W| < 16 then W else Shuffled(W[..16]) + ShuffleAll(W[16..])
  }

  lemma {:induction false} ShuffleAllConcat(a: seq<word>, n: nat, b: seq<word>)
    requires |a| == 16 * n
    ensures ShuffleAll(a + b) == ShuffleAll(a) + ShuffleAll(b)
    decreases n
  {
    hide Shuffled;
    if n == 0 {
      assert a + b == b;
    } else {
      assert (a + b)[..16] == a[..16] && (a + b)[16..] == a[16..] + b;
      ShuffleAllConcat(a[16..], n - 1, b);
    }
  }

  lemma ShuffleNone()
    ensures ShuffleAll([]) == []
  {
  }

  lemma ShuffleOne(b: seq<word>)
    requires |b| == 16
    ensures ShuffleAll(b) == Shuffled(b)
  {
    hide Shuffled;
    assert b[..16] == b && b[16..] == [];
  }

  lemma BlockSplit(W: seq<word>, i: nat)
    requires 16 * i + 16 <= |W|
    ensures W == W[..16 * i] + (Block(W, i) + W[16 * i + 16..])
  {
  }

  lemma BlockJoin(a: seq<word>, b: seq<word>, c: seq<word>, i: nat)
    requires |a| == 16 * i && |b| == 16
    ensures Block(a + (b + c), i) == b
  {
  }

  lemma ShuffleBlock(W: seq<word>, i: nat)
    requires 16 * i + 16 <= |W|
    ensures Block(ShuffleAll(W), i) == Shuffled(Block(W, i))
  {
    hide *;
    var a, b, c := W[..16 * i], Block(W, i), W[16 * i + 16..];
    BlockSplit(W, i);
    ShuffleAllConcat(a, i, b + c);
    ShuffleAllConcat(b, 1, c);
    ShuffleOne(b);
    BlockJoin(ShuffleAll(a), Shuffled(b), ShuffleAll(c), i);
  }

  lemma {:induction false} ShuffleXor(a: seq<word>, b: seq<word>)
    requires |a| == |b|
    ensures XorWords(ShuffleAll(a), ShuffleAll(b)) == ShuffleAll(XorWords(a, b))
    decreases |a|
  {
    hide Shuffled, Xor32;
    if |a| >= 16 {
      ShuffleXor(a[16..], b[16..]);
      ShuffledXor(a[..16], b[..16]);
      assert XorWords(a, b)[..16] == XorWords(a[..16], b[..16]);
      assert XorWords(a, b)[16..] == XorWords(a[16..], b[16..]);
    }
  }

  lemma ShuffledCoreAt(H: Core, x: seq<word>)
    requires |x| == 16
    ensures ShuffledCore(H)(Shuffled(x)) == Shuffled(H(x))
  {
    hide Shuffled, Unshuffled;
    ShuffleInverse(x);
  }

  lemma ShuffledStep(H: Core, X: seq<word>, b: seq<word>)
    requires |X| == 16 && |b| == 16
    ensures ShuffledCore(H)(XorWords(Shuffled(X), Shuffled(b))) == Shuffled(H(XorWords(X, b)))
  {
    hide *;
    ShuffledXor(X, b);
    ShuffledCoreAt(H, XorWords(X, b));
  }

  lemma {:induction false} ShuffledChain(H: Core, B: seq<word>, r: nat, i: nat)
    requires r >= 1 && |B| == 32 * r && i <= 2 * r
    ensures Chain(ShuffledCore(H), ShuffleAll(B), r, i) == Shuffled(Chain(H, B, r, i))
    decreases i
  {
    hide *;
    if i == 0 {
      ChainFirst(H, B, r);
      ChainFirst(ShuffledCore(H), ShuffleAll(B), r);
      ShuffleBlock(B, 2 * r - 1);
    } else {
      ShuffledChain(H, B, r, i - 1);
      ChainNext(H, B, r, i - 1);
      ChainNext(ShuffledCore(H), ShuffleAll(B), r, i - 1);
      ShuffleBlock(B, i - 1);
      ShuffledStep(H, Chain(H, B, r, i - 1), Block(B, i - 1));
    }
  }

  lemma {:induction false} ShuffledOutputs(H: Core, B: seq<word>, r: nat, n: nat)
    requires r >= 1 && |B| == 32 * r && n <= r
    ensures Evens(ShuffledCore(H), ShuffleAll(B), r, n) == ShuffleAll(Evens(H, B, r, n))
    ensures Odds(ShuffledCore(H), ShuffleAll(B), r, n) == ShuffleAll(Odds(H, B, r, n))
    decreases n
  {
    hide *;
    if n == 0 {
      OutputFirst(H, B, r);
      OutputFirst(ShuffledCore(H), ShuffleAll(B), r);
      ShuffleNone();
    } else {
      ShuffledOutputs(H, B, r, n - 1);
      OutputNext(H, B, r, n - 1);
      OutputNext(ShuffledCore(H), ShuffleAll(B), r, n - 1);
      ShuffledChain(H, B, r, 2 * n - 1);
      ShuffledChain(H, B, r, 2 * n);
      ShuffleAllConcat(Evens(H, B, r, n - 1), n - 1, Chain(H, B, r, 2 * n - 1));
      ShuffleAllConcat(Odds(H, B, r, n - 1), n - 1, Chain(H, B, r, 2 * n));
      ShuffleOne(Chain(H, B, r, 2 * n - 1));
      ShuffleOne(Chain(H, B, r, 2 * n));
    }
  }

  /** BlockMix commutes with the layout. */
  lemma ShuffledBlockMix(H: Core, B: seq<word>, r: nat)
    requires r >= 1 && |B| == 32 * r
    ensures BlockMix(ShuffledCore(H), ShuffleAll(B), r) == ShuffleAll(BlockMix(H, B, r))
  {
    hide ShuffleAll, ShuffledCore, Evens, Odds;
    ShuffledOutputs(H, B, r, r);
    ShuffleAllConcat(Evens(H, B, r, r), r, Odds(H, B, r, r));
  }

  lemma {:induction false} ShuffledIterate(H: Core, W: seq<word>, r: nat, i: nat)
    requires r >= 1 && |W| == 32 * r
    ensures Iterate(ShuffledCore(H), ShuffleAll(W), r, i) == ShuffleAll(Iterate(H, W, r, i))
    decreases i
  {
    hide ShuffleAll, ShuffledCore, BlockMix;
    if i != 0 {
      ShuffledIterate(H, W, r, i - 1);
      ShuffledBlockMix(H, Iterate(H, W, r, i - 1), r);
    }
  }

  /** The integer that the SSE2 integerify reads: lane 0 of X[0] and lane 1 of X[3] of the last block. */
  ghost function IntegerifyShuffled(S: seq<word>, r: nat): nat
    requires r >= 1 && |S| == 32 * r
  {
    var X := Block(S, 2 * r - 1);
    WordVal(X[13]) * TWO32 + WordVal(X[0])
  }

  /** Those lanes hold words 1 and 0 of the block. */
  lemma ShuffledIntegerify(W: seq<word>, r: nat)
    requires r >= 1 && |W| == 32 * r
    ensures IntegerifyShuffled(ShuffleAll(W), r) == Integerify(W, r)
  {
    hide WordVal, ShuffleAll, Block, Shuffled;
    ShuffleBlock(W, 2 * r - 1);
    ShuffledWords0(Block(W, 2 * r - 1));
    ShuffledWords3(Block(W, 2 * r - 1));
  }

  /** A step of the second loop commutes with the layout. */
  lemma ShuffledMixStep(H: Core, W: seq<word>, r: nat, N: nat, k: nat)
    requires r >= 1 && |W| == 32 * r && N >= 1
    ensures (var S := ShuffleAll(Mix(H, W, r, N, k));
             BlockMix(ShuffledCore(H),
                      XorWords(S, Iterate(ShuffledCore(H), ShuffleAll(W), r, IntegerifyShuffled(S, r) % N)), r))
         == ShuffleAll(Mix(H, W, r, N, k + 1))
  {
    hide BlockMix, Integerify, IntegerifyShuffled, XorWords, Iterate, ShuffleAll, ShuffledCore;
    var X := Mix(H, W, r, N, k);
    ShuffledIntegerify(X, r);
    var j := Integerify(X, r) % N;
    ShuffledIterate(H, W, r, j);
    ShuffleXor(X, Iterate(H, W, r, j));
    ShuffledBlockMix(H, XorWords(X, Iterate(H, W, r, j)), r);
  }
}

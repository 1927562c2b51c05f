/**
 Two strings that scryptROMix does not tell apart.  Inverting the top bit of all 16 words of a block leaves Salsa20/8
 unchanged, and so inverting them in the first 64-octet block changes neither BlockMix nor ROMix.  ROMix is therefore
 not injective, and for every r and N there is a string that it does not leave as it is.
 */
module Collisions {
  import opened Bytes
  import opened Mem
  import MixWords
  import opened Rfc7914
  import opened Salsa

  //////////////////////////////////////////////////////////////////////////////
  // Salsa20/8 and the top bits
  //////////////////////////////////////////////////////////////////////////////

  const TOP: word := 0x8000_0000

  function Invert(a: word): word {
    Xor32(a, TOP)
  }

  lemma InvertIsAdd(a: word) ensures Invert(a) == Add32(a, TOP) {}

  lemma TwoTops(a: word, b: word) ensures Add32(Add32(a, TOP), Add32(b, TOP)) == Add32(a, b) {}

  /** The two top bits that are added carry out of the word. */
  lemma SumOfInverted(a: word, b: word)
    ensures Add32(Invert(a), Invert(b)) == Add32(a, b)
  {
    hide Invert, Add32;
    InvertIsAdd(a);
    InvertIsAdd(b);
    TwoTops(a, b);
  }

  lemma XorOfInverted(a: word, b: word) ensures Xor32(Invert(a), b) == Invert(Xor32(a, b)) {}

  /** Inverting all inputs of a quarterround inverts all its outputs. */
  lemma QuarterInverted(y0: word, y1: word, y2: word, y3: word)
    ensures var q := QuarterRound(y0, y1, y2, y3);
            QuarterRound(Invert(y0), Invert(y1), Invert(y2), Invert(y3))
            == Quad(Invert(q.z0), Invert(q.z1), Invert(q.z2), Invert(q.z3))
  {
    hide Invert, Xor32, Add32, Rotl;
    var q := QuarterRound(y0, y1, y2, y3);
    SumOfInverted(y0, y3);
    XorOfInverted(y1, Rotl(Add32(y0, y3), 7));
    SumOfInverted(q.z1, y0);
    XorOfInverted(y2, Rotl(Add32(q.z1, y0), 9));
    SumOfInverted(q.z2, q.z1);
    XorOfInverted(y3, Rotl(Add32(q.z2, q.z1), 13));
    SumOfInverted(q.z3, q.z2);
    XorOfInverted(y0, Rotl(Add32(q.z3, q.z2), 18));
  }

  function InvertAll(x: seq<word>): (y: seq<word>)
    ensures |y| == |x|
  {
    seq(|x|, i requires 0 <= i < |x| => Invert(x[i]))
  }

  lemma RowRoundInverted(y: seq<word>)
    requires |y| == 16
    ensures RowRound(InvertAll(y)) == InvertAll(RowRound(y))
  {
    hide QuarterRound, Invert, Block16, RowRound;
    var t := InvertAll(y);
    RowWords(y);
    RowWords(t);
    QuarterInverted(y[0], y[1], y[2], y[3]);
    QuarterInverted(y[5], y[6], y[7], y[4]);
    QuarterInverted(y[10], y[11], y[8], y[9]);
    QuarterInverted(y[15], y[12], y[13], y[14]);
    SameElements(RowRound(t), InvertAll(RowRound(y)));
  }

  lemma TransposeInverted(x: seq<word>)
    requires |x| == 16
    ensures Transpose(InvertAll(x)) == InvertAll(Transpose(x))
  {
    hide Invert, Block16, Transpose;
    TransposeIndex(x);
    TransposeIndex(InvertAll(x));
    SameElements(Transpose(InvertAll(x)), InvertAll(Transpose(x)));
  }

  lemma DoubleRoundInverted(x: seq<word>)
    requires |x| == 16
    ensures DoubleRound(InvertAll(x)) == InvertAll(DoubleRound(x))
  {
    hide RowRound, Transpose, InvertAll;
    TransposeInverted(x);
    RowRoundInverted(Transpose(x));
    TransposeInverted(RowRound(Transpose(x)));
    RowRoundInverted(ColumnRound(x));
  }

  lemma {:induction false} DoubleRoundsInverted(x: seq<word>, n: nat)
    requires |x| == 16
    ensures DoubleRounds(InvertAll(x), n) == InvertAll(DoubleRounds(x, n))
  {
    hide DoubleRound, InvertAll;
    if n != 0 {
      DoubleRoundsInverted(x, n - 1);
      DoubleRoundInverted(DoubleRounds(x, n - 1));
    }
  }

  lemma SumsOfInverted(x: seq<word>, y: seq<word>)
    requires |x| == |y|
    ensures AddWords(InvertAll(x), InvertAll(y)) == AddWords(x, y)
  {
    hide Invert, Add32;
    forall i | 0 <= i < |x|
      ensures AddWords(InvertAll(x), InvertAll(y))[i] == AddWords(x, y)[i]
    {
      SumOfInverted(x[i], y[i]);
    }
  }

  /** Salsa20/8 does not see whether all top bits are inverted. */
  lemma SalsaIgnoresTops(x: seq<word>)
    requires |x| == 16
    ensures Salsa20_8(InvertAll(x)) == Salsa20_8(x)
  {
    hide DoubleRounds, InvertAll, AddWords;
    DoubleRoundsInverted(x, 4);
    SumsOfInverted(x, DoubleRounds(x, 4));
  }

  //////////////////////////////////////////////////////////////////////////////
  // The same on octets
  //////////////////////////////////////////////////////////////////////////////

  /** The octet string of 16 little-endian words that have only the top bit. */
  function Tops(): (F: seq<byte>)
    ensures |F| == 64
  {
    seq(64, i => if i % 4 == 3 then 0x80 else 0x00)
  }

  lemma TopWord()
    ensures Le32(0x00, 0x00, 0x00, 0x80) == TOP
  {
  }

  lemma WordsOfTops(k: nat)
    requires k < 16
    ensures Words(Tops())[k] == TOP
  {
    hide Le32;
    TopWord();
    assert (4 * k) % 4 == 0 && (4 * k + 1) % 4 == 1 && (4 * k + 2) % 4 == 2 && (4 * k + 3) % 4 == 3;
  }

  lemma WordsInverted(x: seq<byte>)
    requires |x| == 64
    ensures Words(XorBytes(x, Tops())) == InvertAll(Words(x))
  {
    hide Words, Tops, Xor32, XorBytes;
    WordsXor(x, Tops());
    forall k | 0 <= k < 16
      ensures XorWords(Words(x), Words(Tops()))[k] == InvertAll(Words(x))[k]
    {
      WordsOfTops(k);
    }
  }

  /** The core h gives the same for a block and for the block xored with F. */
  ghost predicate Ignores(h: OctetCore, F: seq<byte>)
    requires |F| == 64
  {
    forall x: seq<byte> {:trigger h(x)} :: |x| == 64 ==> h(XorBytes(x, F)) == h(x)
  }

  lemma SalsaIgnores()
    ensures Ignores(SalsaOctets(), Tops())
  {
    hide Salsa20_8, Words, Unwords, SalsaOctets, IsSalsaOctets, InvertAll, XorBytes, Tops;
    forall x: seq<byte> | |x| == 64
      ensures SalsaOctets()(XorBytes(x, Tops())) == SalsaOctets()(x)
    {
      MixWords.SalsaOctetsAt(x);
      MixWords.SalsaOctetsAt(XorBytes(x, Tops()));
      WordsInverted(x);
      SalsaIgnoresTops(Words(x));
    }
  }

  //////////////////////////////////////////////////////////////////////////////
  // BlockMix and ROMix for any core that ignores F
  //////////////////////////////////////////////////////////////////////////////

  /** The first 64 octets xored with F. */
  function Changed(B: seq<byte>, F: seq<byte>): (C: seq<byte>)
    requires |F| == 64 && |B| >= 64
    ensures |C| == |B|
  {
    XorBytes(B[..64], F) + B[64..]
  }

  lemma XorAssociates(a: byte, b: byte, c: byte) ensures Xor8(a, Xor8(b, c)) == Xor8(Xor8(a, b), c) {}

  lemma XorBytesAssociates(a: seq<byte>, b: seq<byte>, c: seq<byte>)
    requires |a| == |b| == |c|
    ensures XorBytes(a, XorBytes(b, c)) == XorBytes(XorBytes(a, b), c)
  {
    hide Xor8;
    forall i | 0 <= i < |a|
      ensures XorBytes(a, XorBytes(b, c))[i] == XorBytes(XorBytes(a, b), c)[i]
    {
      XorAssociates(a[i], b[i], c[i]);
    }
  }

  /** Changing a string and then xoring it into another changes the result of the xor. */
  lemma XorChanged(X: seq<byte>, B: seq<byte>, F: seq<byte>)
    requires |F| == 64 && |B| == |X| >= 64
    ensures XorBytes(X, Changed(B, F)) == Changed(XorBytes(X, B), F)
  {
    hide Xor8;
    XorBytesAssociates(X[..64], B[..64], F);
    var l, r := XorBytes(X, Changed(B, F)), Changed(XorBytes(X, B), F);
    assert XorBytes(X, B)[..64] == XorBytes(X[..64], B[..64]);
    assert l[..64] == XorBytes(X[..64], XorBytes(B[..64], F)) == r[..64];
    assert l[64..] == XorBytes(X[64..], B[64..]) == r[64..];
    assert l == l[..64] + l[64..] && r == r[..64] + r[64..];
  }

  lemma BlocksChanged(B: seq<byte>, F: seq<byte>, i: nat)
    requires |F| == 64 && 64 * i + 64 <= |B|
    ensures Block(Changed(B, F), i) == if i == 0 then XorBytes(Block(B, 0), F) else Block(B, i)
  {
    hide Xor8;
    if i == 0 {
      assert B[0..64] == B[..64];
    } else {
      assert 64 * i >= 64;
    }
  }

  lemma {:induction false} ChainSame(h: OctetCore, F: seq<byte>, B: seq<byte>, r: nat, i: nat)
    requires |F| == 64 && Ignores(h, F) && r >= 1 && |B| == 128 * r && 1 <= i <= 2 * r
    ensures Chain(h, Changed(B, F), r, i) == Chain(h, B, r, i)
    decreases i
  {
    hide XorBytes, Block, Changed, Ignores;
    var C := Changed(B, F);
    BlocksChanged(B, F, i - 1);
    if i == 1 {
      BlocksChanged(B, F, 2 * r - 1);
      var X := Block(B, 2 * r - 1);
      XorBytesAssociates(X, Block(B, 0), F);
      IgnoresAt(h, F, XorBytes(X, Block(B, 0)));
      ChainAt(h, B, r, 0);
      ChainAt(h, C, r, 0);
    } else {
      ChainSame(h, F, B, r, i - 1);
      ChainAt(h, B, r, i - 1);
      ChainAt(h, C, r, i - 1);
    }
  }

  lemma IgnoresAt(h: OctetCore, F: seq<byte>, x: seq<byte>)
    requires |F| == 64 && Ignores(h, F) && |x| == 64
    ensures h(XorBytes(x, F)) == h(x)
  {
    hide XorBytes;
  }

  lemma ChainAt(h: OctetCore, B: seq<byte>, r: nat, i: nat)
    requires r >= 1 && |B| == 128 * r && i < 2 * r
    ensures Chain(h, B, r, 0) == Block(B, 2 * r - 1)
    ensures Chain(h, B, r, i + 1) == h(XorBytes(Chain(h, B, r, i), Block(B, i)))
  {
    hide XorBytes, Block;
  }

  lemma {:induction false} OutputsSame(h: OctetCore, F: seq<byte>, B: seq<byte>, r: nat, n: nat)
    requires |F| == 64 && Ignores(h, F) && r >= 1 && |B| == 128 * r && n <= r
    ensures Evens(h, Changed(B, F), r, n) == Evens(h, B, r, n)
    ensures Odds(h, Changed(B, F), r, n) == Odds(h, B, r, n)
    decreases n
  {
    hide Chain, Changed, Ignores;
    if n != 0 {
      OutputsSame(h, F, B, r, n - 1);
      ChainSame(h, F, B, r, 2 * n - 1);
      ChainSame(h, F, B, r, 2 * n);
    }
  }

  lemma BlockMixSame(h: OctetCore, F: seq<byte>, B: seq<byte>, r: nat)
    requires |F| == 64 && Ignores(h, F) && r >= 1 && |B| == 128 * r
    ensures BlockMix(h, Changed(B, F), r) == BlockMix(h, B, r)
  {
    hide Evens, Odds, Changed, Ignores;
    OutputsSame(h, F, B, r, r);
  }

  lemma {:induction false} IterateSame(h: OctetCore, F: seq<byte>, B: seq<byte>, r: nat, i: nat)
    requires |F| == 64 && Ignores(h, F) && r >= 1 && |B| == 128 * r
    ensures Iterate(h, Changed(B, F), r, i) == if i == 0 then Changed(B, F) else Iterate(h, B, r, i)
    decreases i
  {
    hide BlockMix, Changed, Ignores;
    if i == 1 {
      BlockMixSame(h, F, B, r);
      assert Iterate(h, B, r, 0) == B;
    } else if i > 1 {
      IterateSame(h, F, B, r, i - 1);
    }
  }

  lemma {:induction false} MixSame(h: OctetCore, F: seq<byte>, B: seq<byte>, r: nat, N: nat, k: nat)
    requires |F| == 64 && Ignores(h, F) && r >= 1 && |B| == 128 * r && N >= 1
    ensures Mix(h, Changed(B, F), r, N, k) == Mix(h, B, r, N, k)
    decreases k
  {
    hide BlockMix, Changed, Ignores, Iterate, XorBytes, Integerify;
    if k == 0 {
      IterateSame(h, F, B, r, N);
    } else {
      MixSame(h, F, B, r, N, k - 1);
      var X := Mix(h, B, r, N, k - 1);
      var j := Integerify(X, r) % N;
      IterateSame(h, F, B, r, j);
      if j == 0 {
        IterateSame(h, F, B, r, 0);
        StartsWith(h, B, r);
        XorChanged(X, B, F);
        BlockMixSame(h, F, XorBytes(X, B), r);
      }
    }
  }

  lemma StartsWith(h: OctetCore, B: seq<byte>, r: nat)
    requires r >= 1 && |B| == 128 * r
    ensures Iterate(h, B, r, 0) == B
  {
    hide BlockMix;
  }

  /** ROMix gives the same for a string and for the string with the top bits of its first block inverted. */
  lemma ROMixCollides(B: seq<byte>, r: nat, N: nat)
    requires r >= 1 && |B| == 128 * r && N >= 1
    ensures Changed(B, Tops()) != B
    ensures ROMix(SalsaOctets(), Changed(B, Tops()), r, N) == ROMix(SalsaOctets(), B, r, N)
  {
    hide Mix, Changed, SalsaOctets, Tops, Ignores;
    SalsaIgnores();
    MixSame(SalsaOctets(), Tops(), B, r, N, N);
    TopsChange(B);
  }

  lemma TopsChange(B: seq<byte>)
    requires |B| >= 64
    ensures Changed(B, Tops()) != B
  {
    hide Xor8;
    InvertedDiffers(B[3]);
    assert Changed(B, Tops())[3] == Xor8(B[3], 0x80);
  }

  lemma InvertedDiffers(b: byte) ensures Xor8(b, 0x80) != b {}

  /** For every r and N some string is not a fixed point of ROMix. */
  lemma ROMixMoves(r: nat, N: nat) returns (Z: seq<byte>)
    requires r >= 1 && N >= 1
    ensures |Z| == 128 * r && ROMix(SalsaOctets(), Z, r, N) != Z
  {
    hide ROMix, Changed, SalsaOctets, Tops;
    Z := seq(128 * r, i => 0);
    ROMixCollides(Z, r, N);
    if ROMix(SalsaOctets(), Z, r, N) == Z {
      Z := Changed(Z, Tops());
    }
  }
}

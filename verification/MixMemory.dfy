/** How the areas of the work array and the table V evolve during smix, for an arbitrary core H. */
module MixMemory {
  import opened Bits
  import opened Bytes
  import opened Mem
  import opened MixWords
  import opened Salsa

  /** The work array of blockmix_salsa8 with e even and o odd blocks of the output in place and X at z: the
   state after i = e + o steps. */
  ghost function MixState(H: Core, s: seq<word>, B: seq<word>, bout: nat, z: nat, r: nat, e: nat, o: nat,
                          i: nat): (t: seq<word>)
    requires r >= 1 && |B| == 32 * r && o <= e <= r && i == e + o
    requires bout + 32 * r <= |s| && z + 16 <= |s|
    ensures |t| == |s|
  {
    Put(Put(Put(s, bout, Evens(H, B, r, e)), bout + 16 * r, Odds(H, B, r, o)), z, Chain(H, B, r, i))
  }

  /** The algebra of a step that writes to the first half of the output. */
  lemma EvenStep(s: seq<word>, bout: nat, z: nat, r: nat, m: nat, evens: seq<word>, odds: seq<word>, X: seq<word>,
                 X': seq<word>)
    requires m < r && |evens| == |odds| == 16 * m && |X| == |X'| == 16
    requires bout + 32 * r <= |s| && z + 16 <= |s|
    requires z + 16 <= bout || bout + 32 * r <= z
    ensures Put(Put(Put(Put(Put(s, bout, evens), bout + 16 * r, odds), z, X), z, X'), bout + 16 * m, X')
         == Put(Put(Put(s, bout, evens + X'), bout + 16 * r, odds), z, X')
  {
    hide Put;
    var s1 := Put(s, bout, evens);
    var s2 := Put(s1, bout + 16 * r, odds);
    PutPut(s2, z, X, X');
    PutCommutes(s2, z, X', bout + 16 * m, X');
    PutCommutes(s1, bout + 16 * r, odds, bout + 16 * m, X');
    PutJoin(s, bout, evens, X');
  }

  /** The algebra of a step that writes to the second half of the output. */
  lemma OddStep(s1: seq<word>, bout: nat, z: nat, r: nat, m: nat, odds: seq<word>, X: seq<word>, X': seq<word>)
    requires m < r && |odds| == 16 * m && |X| == |X'| == 16
    requires bout + 32 * r <= |s1| && z + 16 <= |s1|
    requires z + 16 <= bout || bout + 32 * r <= z
    ensures Put(Put(Put(Put(s1, bout + 16 * r, odds), z, X), z, X'), bout + 16 * r + 16 * m, X')
         == Put(Put(s1, bout + 16 * r, odds + X'), z, X')
  {
    hide Put;
    var s2 := Put(s1, bout + 16 * r, odds);
    PutPut(s2, z, X, X');
    PutCommutes(s2, z, X', bout + 16 * r + 16 * m, X');
    PutJoin(s1, bout + 16 * r, odds, X');
  }

  /** Areas written apart from the input leave the input alone, and the last write is read back. */
  lemma ReadThrough(s: seq<word>, bin: nat, bout: nat, z: nat, r: nat, evens: seq<word>, odds: seq<word>, X: seq<word>)
    requires |evens| <= 16 * r && |odds| <= 16 * r && |X| == 16
    requires bin + 32 * r <= |s| && bout + 32 * r <= |s| && z + 16 <= |s|
    requires bout + 32 * r <= bin || bin + 32 * r <= bout
    requires z + 16 <= bin || bin + 32 * r <= z
    ensures Get(Put(Put(Put(s, bout, evens), bout + 16 * r, odds), z, X), bin, 32 * r) == Get(s, bin, 32 * r)
    ensures Get(Put(Put(Put(s, bout, evens), bout + 16 * r, odds), z, X), z, 16) == X
  {
    hide Put, Get;
    var s1 := Put(s, bout, evens);
    var s2 := Put(s1, bout + 16 * r, odds);
    GetPut(s2, z, X);
    GetPutApart(s2, z, X, bin, 32 * r);
    GetPutApart(s1, bout + 16 * r, odds, bin, 32 * r);
    GetPutApart(s, bout, evens, bin, 32 * r);
  }

  /** Writing X over z and to its slot in the first half of the output leads to the next state. */
  lemma MixStateEven(H: Core, s: seq<word>, B: seq<word>, bout: nat, z: nat, r: nat, m: nat)
    requires r >= 1 && |B| == 32 * r && m < r
    requires bout + 32 * r <= |s| && z + 16 <= |s|
    requires z + 16 <= bout || bout + 32 * r <= z
    ensures (var X := Chain(H, B, r, 2 * m + 1);
             Put(Put(MixState(H, s, B, bout, z, r, m, m, 2 * m), z, X), bout + 16 * m, X))
         == MixState(H, s, B, bout, z, r, m + 1, m, 2 * m + 1)
  {
    hide Chain, Put, Evens, Odds;
    OutputNext(H, B, r, m);
    EvenStep(s, bout, z, r, m, Evens(H, B, r, m), Odds(H, B, r, m), Chain(H, B, r, 2 * m), Chain(H, B, r, 2 * m + 1));
  }

  /** The same for a slot in the second half. */
  lemma MixStateOdd(H: Core, s: seq<word>, B: seq<word>, bout: nat, z: nat, r: nat, m: nat)
    requires r >= 1 && |B| == 32 * r && m < r
    requires bout + 32 * r <= |s| && z + 16 <= |s|
    requires z + 16 <= bout || bout + 32 * r <= z
    ensures (var X := Chain(H, B, r, 2 * m + 2);
             Put(Put(MixState(H, s, B, bout, z, r, m + 1, m, 2 * m + 1), z, X), bout + 16 * r + 16 * m, X))
         == MixState(H, s, B, bout, z, r, m + 1, m + 1, 2 * m + 2)
  {
    hide Chain, Put, Evens, Odds;
    OutputNext(H, B, r, m);
    OddStep(Put(s, bout, Evens(H, B, r, m + 1)), bout, z, r, m, Odds(H, B, r, m),
            Chain(H, B, r, 2 * m + 1), Chain(H, B, r, 2 * m + 2));
  }

  /** The input and X are where the next step reads them. */
  lemma MixStateReads(H: Core, s: seq<word>, B: seq<word>, bin: nat, bout: nat, z: nat, r: nat, e: nat, o: nat, i: nat)
    requires r >= 1 && bin + 32 * r <= |s| && B == Get(s, bin, 32 * r) && o <= e <= r && i == e + o
    requires bout + 32 * r <= |s| && z + 16 <= |s|
    requires bout + 32 * r <= bin || bin + 32 * r <= bout
    requires z + 16 <= bin || bin + 32 * r <= z
    ensures Get(MixState(H, s, B, bout, z, r, e, o, i), bin, 32 * r) == B
    ensures Get(MixState(H, s, B, bout, z, r, e, o, i), z, 16) == Chain(H, B, r, i)
  {
    hide Chain, Put, Get, Evens, Odds;
    ReadThrough(s, bin, bout, z, r, Evens(H, B, r, e), Odds(H, B, r, o), Chain(H, B, r, i));
  }

  lemma BlockIsGet(B: seq<word>, i: nat)
    requires 16 * i + 16 <= |B|
    ensures Block(B, i) == Get(B, 16 * i, 16)
  {
  }

  lemma MixStateStart(H: Core, s: seq<word>, B: seq<word>, bin: nat, bout: nat, z: nat, r: nat)
    requires r >= 1 && bin + 32 * r <= |s| && B == Get(s, bin, 32 * r)
    requires bout + 32 * r <= |s| && z + 16 <= |s|
    ensures MixState(H, s, B, bout, z, r, 0, 0, 0) == Put(s, z, Get(s, bin + (2 * r - 1) * 16, 16))
  {
    hide Put, Get;
    BlockIsGet(B, 2 * r - 1);
    assert 16 * (2 * r - 1) == (2 * r - 1) * 16;
    PutNothing(s, bout);
    PutNothing(s, bout + 16 * r);
    GetGet(s, bin, 32 * r, 16 * (2 * r - 1), 16);
  }

  lemma MixStateEnd(H: Core, s: seq<word>, B: seq<word>, bout: nat, z: nat, r: nat)
    requires r >= 1 && |B| == 32 * r
    requires bout + 32 * r <= |s| && z + 16 <= |s|
    ensures MixState(H, s, B, bout, z, r, r, r, 2 * r)
         == Put(Put(s, bout, BlockMix(H, B, r)), z, Chain(H, B, r, 2 * r))
  {
    hide Put, Evens, Odds, Chain;
    PutJoin(s, bout, Evens(H, B, r, r), Odds(H, B, r, r));
  }

  /** V_0, ..., V_{n - 1}: BlockMix applied 0 to n - 1 times to W. */
  ghost function Rows(H: Core, W: seq<word>, r: nat, n: nat): (rows: seq<seq<word>>)
    requires r >= 1 && |W| == 32 * r
    ensures |rows| == n && RowsOf(rows, 32 * r)
    ensures forall i | 0 <= i < n :: rows[i] == Iterate(H, W, r, i)
  {
    if n == 0 then [] else Rows(H, W, r, n - 1) + [Iterate(H, W, r, n - 1)]
  }

  lemma RowsStart(H: Core, V: seq<word>, W: seq<word>, r: nat)
    requires r >= 1 && |W| == 32 * r
    ensures PutRows(V, Rows(H, W, r, 0), 32 * r) == V
    ensures Iterate(H, W, r, 0) == W
  {
    hide BlockMix;
  }

  lemma IterateStep(H: Core, W: seq<word>, r: nat, i: nat)
    requires r >= 1 && |W| == 32 * r
    ensures Iterate(H, W, r, i + 1) == BlockMix(H, Iterate(H, W, r, i), r)
    ensures Rows(H, W, r, i + 1) == Rows(H, W, r, i) + [Iterate(H, W, r, i)]
  {
    hide BlockMix;
  }

  lemma MixStart(H: Core, W: seq<word>, r: nat, N: nat)
    requires r >= 1 && |W| == 32 * r && N >= 1
    ensures Mix(H, W, r, N, 0) == Iterate(H, W, r, N)
  {
    hide BlockMix, Iterate;
  }

  /** A step of the second loop in terms of the table of rows. */
  lemma MixStepIs(H: Core, W: seq<word>, r: nat, N: nat, k: nat)
    requires r >= 1 && |W| == 32 * r && N >= 1
    ensures (var X := Mix(H, W, r, N, k);
             BlockMix(H, XorWords(X, Rows(H, W, r, N)[Integerify(X, r) % N]), r))
         == Mix(H, W, r, N, k + 1)
  {
    hide BlockMix, Integerify, XorWords, Iterate, Rows;
  }

  /** The sizes N accepted are even, and the mask N - 1 reduces modulo N. */
  lemma MaskIsModulo(x: nat, N: nat)
    requires LoopSize(N)
    ensures N >= 2 && N % 2 == 0 && BitAnd(x, N - 1) == x % N < N
  {
    var k: nat :| 1 <= k <= 63 && N == Pow2(k);
    MaskIsMod(x, k);
    Pow2Increases(0, k);
    assert Pow2(k) == 2 * Pow2(k - 1);
  }
}

/** The Salsa20/8 core: Bernstein's row and column rounds, the scalar code and the SSE2 code. */
module Salsa {
  import opened Bytes
  import opened Mem
  import opened Sse2

  //////////////////////////////////////////////////////////////////////////////
  // Specification: sections 3 to 8 of the Salsa20 specification, four double rounds
  //////////////////////////////////////////////////////////////////////////////

  function Rotl(a: word, n: nat): word
    requires n <= 32
  {
    a.RotateLeft(n)
  }

  datatype Quad = Quad(z0: word, z1: word, z2: word, z3: word)

  function QuarterRound(y0: word, y1: word, y2: word, y3: word): Quad {
    var z1 := Xor32(y1, Rotl(Add32(y0, y3), 7));
    var z2 := Xor32(y2, Rotl(Add32(z1, y0), 9));
    var z3 := Xor32(y3, Rotl(Add32(z2, z1), 13));
    var z0 := Xor32(y0, Rotl(Add32(z3, z2), 18));
    Quad(z0, z1, z2, z3)
  }

  /** A block of 16 words. */
  function Block16(w0: word, w1: word, w2: word, w3: word, w4: word, w5: word, w6: word, w7: word, w8: word, w9: word,
                   w10: word, w11: word, w12: word, w13: word, w14: word, w15: word): (b: seq<word>)
    ensures |b| == 16
  {
    [w0, w1, w2, w3, w4, w5, w6, w7, w8, w9, w10, w11, w12, w13, w14, w15]
  }

  // Reading a block word by word, four words at a time to keep each proof small.

  lemma Block16Words0(w0: word, w1: word, w2: word, w3: word, w4: word, w5: word, w6: word, w7: word, w8: word,
                      w9: word, w10: word, w11: word, w12: word, w13: word, w14: word, w15: word)
    ensures var b := Block16(w0, w1, w2, w3, w4, w5, w6, w7, w8, w9, w10, w11, w12, w13, w14, w15);
            b[0] == w0 && b[1] == w1 && b[2] == w2 && b[3] == w3
  {
  }
  lemma Block16Words1(w0: word, w1: word, w2: word, w3: word, w4: word, w5: word, w6: word, w7: word, w8: word,
                      w9: word, w10: word, w11: word, w12: word, w13: word, w14: word, w15: word)
    ensures var b := Block16(w0, w1, w2, w3, w4, w5, w6, w7, w8, w9, w10, w11, w12, w13, w14, w15);
            b[4] == w4 && b[5] == w5 && b[6] == w6 && b[7] == w7
  {
  }
  lemma Block16Words2(w0: word, w1: word, w2: word, w3: word, w4: word, w5: word, w6: word, w7: word, w8: word,
                      w9: word, w10: word, w11: word, w12: word, w13: word, w14: word, w15: word)
    ensures var b := Block16(w0, w1, w2, w3, w4, w5, w6, w7, w8, w9, w10, w11, w12, w13, w14, w15);
            b[8] == w8 && b[9] == w9 && b[10] == w10 && b[11] == w11
  {
  }
  lemma Block16Words3(w0: word, w1: word, w2: word, w3: word, w4: word, w5: word, w6: word, w7: word, w8: word,
                      w9: word, w10: word, w11: word, w12: word, w13: word, w14: word, w15: word)
    ensures var b := Block16(w0, w1, w2, w3, w4, w5, w6, w7, w8, w9, w10, w11, w12, w13, w14, w15);
            b[12] == w12 && b[13] == w13 && b[14] == w14 && b[15] == w15
  {
  }

  lemma Block16Index(w0: word, w1: word, w2: word, w3: word, w4: word, w5: word, w6: word, w7: word, w8: word,
                     w9: word, w10: word, w11: word, w12: word, w13: word, w14: word, w15: word)
    ensures var b := Block16(w0, w1, w2, w3, w4, w5, w6, w7, w8, w9, w10, w11, w12, w13, w14, w15);
            b[0] == w0 && b[1] == w1 && b[2] == w2 && b[3] == w3 && b[4] == w4 && b[5] == w5 && b[6] == w6 &&
            b[7] == w7 && b[8] == w8 && b[9] == w9 && b[10] == w10 && b[11] == w11 && b[12] == w12 &&
            b[13] == w13 && b[14] == w14 && b[15] == w15
  {
    hide Block16;
    Block16Words0(w0, w1, w2, w3, w4, w5, w6, w7, w8, w9, w10, w11, w12, w13, w14, w15);
    Block16Words1(w0, w1, w2, w3, w4, w5, w6, w7, w8, w9, w10, w11, w12, w13, w14, w15);
    Block16Words2(w0, w1, w2, w3, w4, w5, w6, w7, w8, w9, w10, w11, w12, w13, w14, w15);
    Block16Words3(w0, w1, w2, w3, w4, w5, w6, w7, w8, w9, w10, w11, w12, w13, w14, w15);
  }

  lemma Block16Ext(b: seq<word>)
    requires |b| == 16
    ensures b == Block16(b[0], b[1], b[2], b[3], b[4], b[5], b[6], b[7], b[8], b[9], b[10], b[11], b[12], b[13],
                         b[14], b[15])
  {
  }

  function RowRound(y: seq<word>): (z: seq<word>)
    requires |y| == 16
    ensures |z| == 16
  {
    var a := QuarterRound(y[0], y[1], y[2], y[3]);
    var b := QuarterRound(y[5], y[6], y[7], y[4]);
    var c := QuarterRound(y[10], y[11], y[8], y[9]);
    var d := QuarterRound(y[15], y[12], y[13], y[14]);
    Block16(a.z0, a.z1, a.z2, a.z3, b.z3, b.z0, b.z1, b.z2, c.z2, c.z3, c.z0, c.z1, d.z1, d.z2, d.z3, d.z0)
  }

  /** The matrix of 16 words transposed. */
  function Transpose(x: seq<word>): (y: seq<word>)
    requires |x| == 16
    ensures |y| == 16
  {
    Block16(x[0], x[4], x[8], x[12], x[1], x[5], x[9], x[13], x[2], x[6], x[10], x[14], x[3], x[7], x[11], x[15])
  }

  lemma TransposeIndex(x: seq<word>)
    requires |x| == 16
    ensures
      var y := Transpose(x);
      y[0] == x[0] && y[1] == x[4] && y[2] == x[8] && y[3] == x[12]
         && y[4] == x[1] && y[5] == x[5] && y[6] == x[9] && y[7] == x[13]
         && y[8] == x[2] && y[9] == x[6] && y[10] == x[10] && y[11] == x[14]
         && y[12] == x[3] && y[13] == x[7] && y[14] == x[11] && y[15] == x[15]
  {
    hide Block16;
    Block16Index(x[0], x[4], x[8], x[12], x[1], x[5], x[9], x[13], x[2], x[6], x[10], x[14], x[3], x[7], x[11], x[15]);
  }

  /** A column round is a row round of the transposed matrix. */
  function ColumnRound(x: seq<word>): (y: seq<word>)
    requires |x| == 16
    ensures |y| == 16
  {
    Transpose(RowRound(Transpose(x)))
  }

  function DoubleRound(x: seq<word>): (y: seq<word>)
    requires |x| == 16
    ensures |y| == 16
  {
    RowRound(ColumnRound(x))
  }

  function DoubleRounds(x: seq<word>, n: nat): (y: seq<word>)
    requires |x| == 16
    ensures |y| == 16
  {
    if n == 0 then x else DoubleRound(DoubleRounds(x, n - 1))
  }

  function AddWords(a: seq<word>, b: seq<word>): (c: seq<word>)
    requires |a| == |b|
    ensures |c| == |a|
  {
    seq(|a|, i requires 0 <= i < |a| => Add32(a[i], b[i]))
  }

  /** The Salsa20/8 core on 16 words. */
  function Salsa20_8(x: seq<word>): (y: seq<word>)
    requires |x| == 16
    ensures |y| == 16
  {
    AddWords(x, DoubleRounds(x, 4))
  }

  /** A column round word by word. */
  lemma ColumnWords(y: seq<word>)
    requires |y| == 16
    ensures
      var p := QuarterRound(y[0], y[4], y[8], y[12]);
      var q := QuarterRound(y[5], y[9], y[13], y[1]);
      var r := QuarterRound(y[10], y[14], y[2], y[6]);
      var s := QuarterRound(y[15], y[3], y[7], y[11]);
      var z := ColumnRound(y);
      z == Block16(p.z0, q.z3, r.z2, s.z1, p.z1, q.z0, r.z3, s.z2, p.z2, q.z1, r.z0, s.z3, p.z3, q.z2, r.z1, s.z0)
         && z[0] == p.z0 && z[1] == q.z3 && z[2] == r.z2 && z[3] == s.z1
         && z[4] == p.z1 && z[5] == q.z0 && z[6] == r.z3 && z[7] == s.z2
         && z[8] == p.z2 && z[9] == q.z1 && z[10] == r.z0 && z[11] == s.z3
         && z[12] == p.z3 && z[13] == q.z2 && z[14] == r.z1 && z[15] == s.z0
  {
    hide QuarterRound, Block16;
    var p := QuarterRound(y[0], y[4], y[8], y[12]);
    var q := QuarterRound(y[5], y[9], y[13], y[1]);
    var r := QuarterRound(y[10], y[14], y[2], y[6]);
    var s := QuarterRound(y[15], y[3], y[7], y[11]);
    TransposeIndex(y);
    Block16Index(p.z0, p.z1, p.z2, p.z3, q.z3, q.z0, q.z1, q.z2, r.z2, r.z3, r.z0, r.z1, s.z1, s.z2, s.z3, s.z0);
    TransposeIndex(RowRound(Transpose(y)));
    Block16Index(p.z0, q.z3, r.z2, s.z1, p.z1, q.z0, r.z3, s.z2, p.z2, q.z1, r.z0, s.z3, p.z3, q.z2, r.z1, s.z0);
  }

  /** A row round word by word. */
  lemma RowWords(y: seq<word>)
    requires |y| == 16
    ensures
      var p := QuarterRound(y[0], y[1], y[2], y[3]);
      var q := QuarterRound(y[5], y[6], y[7], y[4]);
      var r := QuarterRound(y[10], y[11], y[8], y[9]);
      var s := QuarterRound(y[15], y[12], y[13], y[14]);
      var z := RowRound(y);
      z == Block16(p.z0, p.z1, p.z2, p.z3, q.z3, q.z0, q.z1, q.z2, r.z2, r.z3, r.z0, r.z1, s.z1, s.z2, s.z3, s.z0)
         && z[0] == p.z0 && z[1] == p.z1 && z[2] == p.z2 && z[3] == p.z3
         && z[4] == q.z3 && z[5] == q.z0 && z[6] == q.z1 && z[7] == q.z2
         && z[8] == r.z2 && z[9] == r.z3 && z[10] == r.z0 && z[11] == r.z1
         && z[12] == s.z1 && z[13] == s.z2 && z[14] == s.z3 && z[15] == s.z0
  {
    hide QuarterRound, Block16;
    var p := QuarterRound(y[0], y[1], y[2], y[3]);
    var q := QuarterRound(y[5], y[6], y[7], y[4]);
    var r := QuarterRound(y[10], y[11], y[8], y[9]);
    var s := QuarterRound(y[15], y[12], y[13], y[14]);
    Block16Index(p.z0, p.z1, p.z2, p.z3, q.z3, q.z0, q.z1, q.z2, r.z2, r.z3, r.z0, r.z1, s.z1, s.z2, s.z3, s.z0);
  }

  function SameWords(x: seq<word>): seq<word> {
    x
  }

  /** Salsa20/8 on blocks of 16 words, as a total function. */
  function SalsaTotal(x: seq<word>): (y: seq<word>)
    ensures |y| == |x|
  {
    if |x| == 16 then Salsa20_8(x) else x
  }

  /** A function on blocks of 16 words, such as the Salsa20/8 core. */
  type Core = H: seq<word> -> seq<word> | forall x {:trigger H(x)} :: |x| == 16 ==> |H(x)| == 16
    witness SameWords

  /** H is the Salsa20/8 core on every block of 16 words. */
  ghost predicate IsSalsaCore(H: Core) {
    forall x {:trigger Salsa20_8(x)} :: |x| == 16 ==> H(x) == Salsa20_8(x)
  }

  lemma SalsaCoreExists() returns (H: Core)
    ensures IsSalsaCore(H)
  {
    hide Salsa20_8;
    H := SalsaTotal;
  }

  /** The core that the source uses, as a function value. */
  ghost function SalsaCore(): (H: Core)
    ensures IsSalsaCore(H)
  {
    assert exists H: Core :: IsSalsaCore(H) by {
      var H := SalsaCoreExists();
    }
    var H: Core :| IsSalsaCore(H);
    H
  }

  //////////////////////////////////////////////////////////////////////////////
  // Scalar code
  //////////////////////////////////////////////////////////////////////////////

  /** The macro R of the source: a rotation written with two shifts. */
  function R(a: word, n: nat): word
    requires n <= 32
  {
    Shl32(a, n) | Shr32(a, 32 - n)
  }

  lemma Rotl7(a: word) ensures R(a, 7) == Rotl(a, 7) {}
  lemma Rotl9(a: word) ensures R(a, 9) == Rotl(a, 9) {}
  lemma Rotl13(a: word) ensures R(a, 13) == Rotl(a, 13) {}
  lemma Rotl18(a: word) ensures R(a, 18) == Rotl(a, 18) {}

  /** The block after one line pair of the source, on words a, b, c and d. */
  function QuarterOn(x: seq<word>, a: nat, b: nat, c: nat, d: nat): (y: seq<word>)
    requires |x| == 16 && a < 16 && b < 16 && c < 16 && d < 16
    ensures |y| == 16
  {
    var q := QuarterRound(x[a], x[b], x[c], x[d]);
    x[a := q.z0][b := q.z1][c := q.z2][d := q.z3]
  }

  /** One line pair of the source: four words updated in turn. */
  method Quarter(x: array<word>, a: nat, b: nat, c: nat, d: nat)
    requires x.Length == 16 && a < 16 && b < 16 && c < 16 && d < 16
    requires a != b && a != c && a != d && b != c && b != d && c != d
    modifies x
    ensures x[..] == QuarterOn(old(x[..]), a, b, c, d)
  {
    hide R, Rotl, Xor32, Add32;
    Rotl7(Add32(x[a], x[d]));
    x[b] := Xor32(x[b], R(Add32(x[a], x[d]), 7));
    Rotl9(Add32(x[b], x[a]));
    x[c] := Xor32(x[c], R(Add32(x[b], x[a]), 9));
    Rotl13(Add32(x[c], x[b]));
    x[d] := Xor32(x[d], R(Add32(x[c], x[b]), 13));
    Rotl18(Add32(x[d], x[c]));
    x[a] := Xor32(x[a], R(Add32(x[d], x[c]), 18));
  }

  /** A line pair changes four words and leaves the others alone. */
  lemma QuarterOnAt(x: seq<word>, a: nat, b: nat, c: nat, d: nat)
    requires |x| == 16 && a < 16 && b < 16 && c < 16 && d < 16
    requires a != b && a != c && a != d && b != c && b != d && c != d
    ensures var y := QuarterOn(x, a, b, c, d);
            QuarterRound(x[a], x[b], x[c], x[d]) == Quad(y[a], y[b], y[c], y[d])
    ensures forall k | 0 <= k < 16 && k != a && k != b && k != c && k != d :: QuarterOn(x, a, b, c, d)[k] == x[k]
  {
    hide QuarterRound;
  }

  /** The four column lines of the source make a column round. */
  lemma ColumnLines(x: seq<word>)
    requires |x| == 16
    ensures QuarterOn(QuarterOn(QuarterOn(QuarterOn(x, 0, 4, 8, 12), 5, 9, 13, 1), 10, 14, 2, 6), 15, 3, 7, 11)
         == ColumnRound(x)
  {
    hide QuarterRound, QuarterOn, Block16, ColumnRound;
    QuarterOnAt(x, 0, 4, 8, 12);
    var y1 := QuarterOn(x, 0, 4, 8, 12);
    QuarterOnAt(y1, 5, 9, 13, 1);
    var y2 := QuarterOn(y1, 5, 9, 13, 1);
    QuarterOnAt(y2, 10, 14, 2, 6);
    var y3 := QuarterOn(y2, 10, 14, 2, 6);
    QuarterOnAt(y3, 15, 3, 7, 11);
    var y4 := QuarterOn(y3, 15, 3, 7, 11);
    Block16Ext(y4);
    ColumnWords(x);
  }

  /** The four row lines of the source make a row round. */
  lemma RowLines(x: seq<word>)
    requires |x| == 16
    ensures QuarterOn(QuarterOn(QuarterOn(QuarterOn(x, 0, 1, 2, 3), 5, 6, 7, 4), 10, 11, 8, 9), 15, 12, 13, 14)
         == RowRound(x)
  {
    hide QuarterRound, QuarterOn, Block16, RowRound;
    QuarterOnAt(x, 0, 1, 2, 3);
    var y1 := QuarterOn(x, 0, 1, 2, 3);
    QuarterOnAt(y1, 5, 6, 7, 4);
    var y2 := QuarterOn(y1, 5, 6, 7, 4);
    QuarterOnAt(y2, 10, 11, 8, 9);
    var y3 := QuarterOn(y2, 10, 11, 8, 9);
    QuarterOnAt(y3, 15, 12, 13, 14);
    var y4 := QuarterOn(y3, 15, 12, 13, 14);
    Block16Ext(y4);
    RowWords(x);
  }

  /** The body of the round loop of salsa20_8. */
  method DoubleRoundInPlace(x: array<word>)
    requires x.Length == 16
    modifies x
    ensures x[..] == DoubleRound(old(x[..]))
  {
    hide QuarterOn, RowRound, ColumnRound;
    ColumnLines(x[..]);
    Quarter(x, 0, 4, 8, 12);
    Quarter(x, 5, 9, 13, 1);
    Quarter(x, 10, 14, 2, 6);
    Quarter(x, 15, 3, 7, 11);
    RowLines(x[..]);
    Quarter(x, 0, 1, 2, 3);
    Quarter(x, 5, 6, 7, 4);
    Quarter(x, 10, 11, 8, 9);
    Quarter(x, 15, 12, 13, 14);
  }

  /** The last loop of salsa20_8: the words of x are added. */
  method AddInto(B: array<word>, off: nat, x: array<word>)
    requires off + 16 <= B.Length && x.Length == 16 && x != B
    modifies B
    ensures B[..] == Put(old(B[..]), off, AddWords(Get(old(B[..]), off, 16), x[..]))
  {
    hide Add32;
    ghost var b, y := B[off..off + 16], x[..];
    var i := 0;
    while i < 16
      invariant 0 <= i <= 16
      invariant forall k | 0 <= k < B.Length ::
                  B[k] == if off <= k < off + i then Add32(b[k - off], y[k - off]) else old(B[k])
    {
      B[off + i] := Add32(B[off + i], x[i]);
      i := i + 1;
    }
    assert B[off..off + 16] == AddWords(b, y);
    PutIs(old(B[..]), B[..], off, AddWords(b, y));
  }

  /** salsa20_8 of the generic code on the 16 words at `off`. */
  method SalsaInPlace(B: array<word>, off: nat)
    requires off + 16 <= B.Length
    modifies B
    ensures B[..] == Put(old(B[..]), off, Salsa20_8(Get(old(B[..]), off, 16)))
  {
    hide DoubleRound, Add32, AddWords, Put;
    ghost var s, b := B[..], Get(B[..], off, 16);
    var x := new word[16](i requires 0 <= i < 16 reads B => B[off + i]);
    assert x[..] == b;
    var i := 0;
    while i < 8
      invariant 0 <= i <= 8 && i % 2 == 0 && B[..] == s
      invariant x[..] == DoubleRounds(b, i / 2)
    {
      DoubleRoundInPlace(x);
      assert (i + 2) / 2 == i / 2 + 1;
      i := i + 2;
    }
    assert x[..] == DoubleRounds(b, 4);
    AddInto(B, off, x);
  }

  //////////////////////////////////////////////////////////////////////////////
  // SSE2 code: the block is held by diagonals
  //////////////////////////////////////////////////////////////////////////////

  /** The layout of a block in the SSE2 code: slot i holds word i * 5 mod 16. */
  function Shuffled(x: seq<word>): (y: seq<word>)
    requires |x| == 16
    ensures |y| == 16
  {
    seq(16, i requires 0 <= i < 16 => x[i * 5 % 16])
  }

  /** Word j of a block is found at slot j * 13 mod 16. */
  function Unshuffled(y: seq<word>): (x: seq<word>)
    requires |y| == 16
    ensures |x| == 16
  {
    seq(16, j requires 0 <= j < 16 => y[j * 13 % 16])
  }

  /** Multiplying by 5 and by 13 are inverse modulo 16. */
  lemma ShuffleIndices(i: nat)
    requires i < 16
    ensures (i * 13 % 16) * 5 % 16 == i && (i * 5 % 16) * 13 % 16 == i
  {
    RemainderIs(i * 13 % 16 * 5, 4 * i - 5 * (i * 13 / 16), i);
    RemainderIs(i * 5 % 16 * 13, 4 * i - 13 * (i * 5 / 16), i);
  }

  lemma RemainderIs(x: int, q: int, s: int)
    requires x == 16 * q + s && 0 <= s < 16
    ensures x % 16 == s
  {
  }

  lemma ShuffleInverse(x: seq<word>)
    requires |x| == 16
    ensures Unshuffled(Shuffled(x)) == x && Shuffled(Unshuffled(x)) == x
  {
    forall i | 0 <= i < 16
      ensures (i * 13 % 16) * 5 % 16 == i && (i * 5 % 16) * 13 % 16 == i
    {
      ShuffleIndices(i);
    }
  }

  /** Exclusive or with the two halves of a rotation is exclusive or with the rotation. */
  lemma XorShifts7(x: word, t: word) ensures Xor32(Xor32(x, Shl32(t, 7)), Shr32(t, 25)) == Xor32(x, Rotl(t, 7)) {}
  lemma XorShifts9(x: word, t: word) ensures Xor32(Xor32(x, Shl32(t, 9)), Shr32(t, 23)) == Xor32(x, Rotl(t, 9)) {}
  lemma XorShifts13(x: word, t: word) ensures Xor32(Xor32(x, Shl32(t, 13)), Shr32(t, 19)) == Xor32(x, Rotl(t, 13)) {}
  lemma XorShifts18(x: word, t: word) ensures Xor32(Xor32(x, Shl32(t, 18)), Shr32(t, 14)) == Xor32(x, Rotl(t, 18)) {}

  /** A vector of rotated lanes. */
  function RotlVec(t: Vec, n: nat): Vec
    requires n <= 32
  {
    Vec(Rotl(t.l0, n), Rotl(t.l1, n), Rotl(t.l2, n), Rotl(t.l3, n))
  }

  /** x ^= t << n; x ^= t >> (32 - n): the vector form of a rotation and exclusive or. */
  function XorShiftedVec(x: Vec, t: Vec, n: nat): Vec
    requires n <= 32
  {
    XorSi128(XorSi128(x, SlliEpi32(t, n)), SrliEpi32(t, 32 - n))
  }

  lemma XorShiftedLanes(x: Vec, t: Vec, n: nat)
    requires n == 7 || n == 9 || n == 13 || n == 18
    ensures XorShiftedVec(x, t, n) == XorSi128(x, RotlVec(t, n))
  {
    hide Xor32, Shl32, Shr32, Rotl;
    if n == 7 {
      XorShifts7(x.l0, t.l0); XorShifts7(x.l1, t.l1); XorShifts7(x.l2, t.l2); XorShifts7(x.l3, t.l3);
    } else if n == 9 {
      XorShifts9(x.l0, t.l0); XorShifts9(x.l1, t.l1); XorShifts9(x.l2, t.l2); XorShifts9(x.l3, t.l3);
    } else if n == 13 {
      XorShifts13(x.l0, t.l0); XorShifts13(x.l1, t.l1); XorShifts13(x.l2, t.l2); XorShifts13(x.l3, t.l3);
    } else {
      XorShifts18(x.l0, t.l0); XorShifts18(x.l1, t.l1); XorShifts18(x.l2, t.l2); XorShifts18(x.l3, t.l3);
    }
  }

  /** The lanes of four vectors updated in turn go through four independent quarter rounds. */
  lemma QuarterLanes(x0: Vec, x1: Vec, x2: Vec, x3: Vec, z0: Vec, z1: Vec, z2: Vec, z3: Vec)
    requires z1 == XorSi128(x1, RotlVec(AddEpi32(x0, x3), 7))
    requires z2 == XorSi128(x2, RotlVec(AddEpi32(z1, x0), 9))
    requires z3 == XorSi128(x3, RotlVec(AddEpi32(z2, z1), 13))
    requires z0 == XorSi128(x0, RotlVec(AddEpi32(z3, z2), 18))
    ensures Quad(z0.l0, z1.l0, z2.l0, z3.l0) == QuarterRound(x0.l0, x1.l0, x2.l0, x3.l0)
    ensures Quad(z0.l1, z1.l1, z2.l1, z3.l1) == QuarterRound(x0.l1, x1.l1, x2.l1, x3.l1)
    ensures Quad(z0.l2, z1.l2, z2.l2, z3.l2) == QuarterRound(x0.l2, x1.l2, x2.l2, x3.l2)
    ensures Quad(z0.l3, z1.l3, z2.l3, z3.l3) == QuarterRound(x0.l3, x1.l3, x2.l3, x3.l3)
  {
    hide Xor32, Rotl, Add32;
  }

  /** Four quarter rounds at once: the vector statements of one half of the SSE2 round loop. */
  method VecQuarter(x0: Vec, x1: Vec, x2: Vec, x3: Vec) returns (z0: Vec, z1: Vec, z2: Vec, z3: Vec)
    ensures Quad(z0.l0, z1.l0, z2.l0, z3.l0) == QuarterRound(x0.l0, x1.l0, x2.l0, x3.l0)
    ensures Quad(z0.l1, z1.l1, z2.l1, z3.l1) == QuarterRound(x0.l1, x1.l1, x2.l1, x3.l1)
    ensures Quad(z0.l2, z1.l2, z2.l2, z3.l2) == QuarterRound(x0.l2, x1.l2, x2.l2, x3.l2)
    ensures Quad(z0.l3, z1.l3, z2.l3, z3.l3) == QuarterRound(x0.l3, x1.l3, x2.l3, x3.l3)
  {
    hide XorSi128, SlliEpi32, SrliEpi32, AddEpi32, RotlVec, QuarterRound;
    var T := AddEpi32(x0, x3);
    XorShiftedLanes(x1, T, 7);
    z1 := XorSi128(x1, SlliEpi32(T, 7));
    z1 := XorSi128(z1, SrliEpi32(T, 25));
    T := AddEpi32(z1, x0);
    XorShiftedLanes(x2, T, 9);
    z2 := XorSi128(x2, SlliEpi32(T, 9));
    z2 := XorSi128(z2, SrliEpi32(T, 23));
    T := AddEpi32(z2, z1);
    XorShiftedLanes(x3, T, 13);
    z3 := XorSi128(x3, SlliEpi32(T, 13));
    z3 := XorSi128(z3, SrliEpi32(T, 19));
    T := AddEpi32(z3, z2);
    XorShiftedLanes(x0, T, 18);
    z0 := XorSi128(x0, SlliEpi32(T, 18));
    z0 := XorSi128(z0, SrliEpi32(T, 14));
    QuarterLanes(x0, x1, x2, x3, z0, z1, z2, z3);
  }

  /** The vectors x0 to x3 hold the diagonals of the matrix y. */
  ghost predicate OnDiagonals(y: seq<word>, x0: Vec, x1: Vec, x2: Vec, x3: Vec)
    requires |y| == 16
  {
    && x0 == Vec(y[0], y[5], y[10], y[15])
    && x1 == Vec(y[4], y[9], y[14], y[3])
    && x2 == Vec(y[8], y[13], y[2], y[7])
    && x3 == Vec(y[12], y[1], y[6], y[11])
  }

  /** After the first rearrangement the same four vectors hold the quarter rows. */
  ghost predicate OnRows(y: seq<word>, x0: Vec, x1: Vec, x2: Vec, x3: Vec)
    requires |y| == 16
  {
    && x0 == Vec(y[0], y[5], y[10], y[15])
    && x1 == Vec(y[3], y[4], y[9], y[14])
    && x2 == Vec(y[2], y[7], y[8], y[13])
    && x3 == Vec(y[1], y[6], y[11], y[12])
  }

  /** Quarter rounds on the diagonals, then a rotation of each vector, bring the rows of the next half together. */
  lemma ColumnLanes(x0: Vec, x1: Vec, x2: Vec, x3: Vec, z0: Vec, z1: Vec, z2: Vec, z3: Vec, y: seq<word>)
    requires |y| == 16 && OnDiagonals(y, x0, x1, x2, x3)
    requires Quad(z0.l0, z1.l0, z2.l0, z3.l0) == QuarterRound(x0.l0, x1.l0, x2.l0, x3.l0)
    requires Quad(z0.l1, z1.l1, z2.l1, z3.l1) == QuarterRound(x0.l1, x1.l1, x2.l1, x3.l1)
    requires Quad(z0.l2, z1.l2, z2.l2, z3.l2) == QuarterRound(x0.l2, x1.l2, x2.l2, x3.l2)
    requires Quad(z0.l3, z1.l3, z2.l3, z3.l3) == QuarterRound(x0.l3, x1.l3, x2.l3, x3.l3)
    ensures OnRows(ColumnRound(y), z0, Vec(z1.l3, z1.l0, z1.l1, z1.l2), Vec(z2.l2, z2.l3, z2.l0, z2.l1),
                   Vec(z3.l1, z3.l2, z3.l3, z3.l0))
  {
    hide QuarterRound, ColumnRound, Block16;
    ColumnWords(y);
  }

  /** The second rearrangement undoes the first, after the row quarter rounds. */
  lemma RowLanes(x0: Vec, x1: Vec, x2: Vec, x3: Vec, z0: Vec, z1: Vec, z2: Vec, z3: Vec, y: seq<word>)
    requires |y| == 16 && OnRows(y, x0, x1, x2, x3)
    requires Quad(z0.l0, z3.l0, z2.l0, z1.l0) == QuarterRound(x0.l0, x3.l0, x2.l0, x1.l0)
    requires Quad(z0.l1, z3.l1, z2.l1, z1.l1) == QuarterRound(x0.l1, x3.l1, x2.l1, x1.l1)
    requires Quad(z0.l2, z3.l2, z2.l2, z1.l2) == QuarterRound(x0.l2, x3.l2, x2.l2, x1.l2)
    requires Quad(z0.l3, z3.l3, z2.l3, z1.l3) == QuarterRound(x0.l3, x3.l3, x2.l3, x1.l3)
    ensures OnDiagonals(RowRound(y), z0, Vec(z1.l1, z1.l2, z1.l3, z1.l0), Vec(z2.l2, z2.l3, z2.l0, z2.l1),
                        Vec(z3.l3, z3.l0, z3.l1, z3.l2))
  {
    hide QuarterRound, RowRound, Block16;
    RowWords(y);
  }

  method VecColumnRound(x0: Vec, x1: Vec, x2: Vec, x3: Vec, ghost y: seq<word>)
    returns (z0: Vec, z1: Vec, z2: Vec, z3: Vec)
    requires |y| == 16 && OnDiagonals(y, x0, x1, x2, x3)
    ensures OnRows(ColumnRound(y), z0, z1, z2, z3)
  {
    hide QuarterRound, ColumnRound, ShuffleEpi32, OnDiagonals, OnRows;
    z0, z1, z2, z3 := VecQuarter(x0, x1, x2, x3);
    ColumnLanes(x0, x1, x2, x3, z0, z1, z2, z3, y);
    Shuffle93(z1);
    Shuffle4E(z2);
    Shuffle39(z3);
    z1 := ShuffleEpi32(z1, 0x93);
    z2 := ShuffleEpi32(z2, 0x4E);
    z3 := ShuffleEpi32(z3, 0x39);
  }

  method VecRowRound(x0: Vec, x1: Vec, x2: Vec, x3: Vec, ghost y: seq<word>)
    returns (z0: Vec, z1: Vec, z2: Vec, z3: Vec)
    requires |y| == 16 && OnRows(y, x0, x1, x2, x3)
    ensures OnDiagonals(RowRound(y), z0, z1, z2, z3)
  {
    hide QuarterRound, RowRound, ShuffleEpi32, OnDiagonals, OnRows;
    z0, z3, z2, z1 := VecQuarter(x0, x3, x2, x1);
    RowLanes(x0, x1, x2, x3, z0, z1, z2, z3, y);
    Shuffle39(z1);
    Shuffle4E(z2);
    Shuffle93(z3);
    z1 := ShuffleEpi32(z1, 0x39);
    z2 := ShuffleEpi32(z2, 0x4E);
    z3 := ShuffleEpi32(z3, 0x93);
  }

  // The shuffled layout word by word: the four diagonals of the matrix.

  lemma ShuffledWords0(x: seq<word>)
    requires |x| == 16
    ensures var y := Shuffled(x); y[0] == x[0] && y[1] == x[5] && y[2] == x[10] && y[3] == x[15]
  {
  }

  lemma ShuffledWords1(x: seq<word>)
    requires |x| == 16
    ensures var y := Shuffled(x); y[4] == x[4] && y[5] == x[9] && y[6] == x[14] && y[7] == x[3]
  {
  }

  lemma ShuffledWords2(x: seq<word>)
    requires |x| == 16
    ensures var y := Shuffled(x); y[8] == x[8] && y[9] == x[13] && y[10] == x[2] && y[11] == x[7]
  {
  }

  lemma ShuffledWords3(x: seq<word>)
    requires |x| == 16
    ensures var y := Shuffled(x); y[12] == x[12] && y[13] == x[1] && y[14] == x[6] && y[15] == x[11]
  {
  }

  lemma SameElements<T>(b: seq<T>, s: seq<T>)
    requires |b| == 16 && |s| == 16
    requires b[0] == s[0] && b[1] == s[1] && b[2] == s[2] && b[3] == s[3]
    requires b[4] == s[4] && b[5] == s[5] && b[6] == s[6] && b[7] == s[7]
    requires b[8] == s[8] && b[9] == s[9] && b[10] == s[10] && b[11] == s[11]
    requires b[12] == s[12] && b[13] == s[13] && b[14] == s[14] && b[15] == s[15]
    ensures b == s
  {
  }

  /** Four words loaded are equal when the vectors are. */
  lemma LoadEqual(b: seq<word>, s: seq<word>, i: nat)
    requires |b| == |s| && i + 4 <= |b| && Load(b, i) == Load(s, i)
    ensures b[i] == s[i] && b[i + 1] == s[i + 1] && b[i + 2] == s[i + 2] && b[i + 3] == s[i + 3]
  {
  }

  lemma ShuffledOnDiagonals(y: seq<word>)
    requires |y| == 16
    ensures var s := Shuffled(y); OnDiagonals(y, Load(s, 0), Load(s, 4), Load(s, 8), Load(s, 12))
  {
    hide Shuffled;
    ShuffledWords0(y);
    ShuffledWords1(y);
    ShuffledWords2(y);
    ShuffledWords3(y);
  }

  /** Sixteen words stored from four vectors are a block in the shuffled layout. */
  lemma DiagonalsShuffled(b: seq<word>, y: seq<word>)
    requires |b| == 16 && |y| == 16
    ensures OnDiagonals(y, Load(b, 0), Load(b, 4), Load(b, 8), Load(b, 12)) <==> b == Shuffled(y)
  {
    hide Shuffled, Load;
    var s := Shuffled(y);
    ShuffledOnDiagonals(y);
    if OnDiagonals(y, Load(b, 0), Load(b, 4), Load(b, 8), Load(b, 12)) {
      LoadEqual(b, s, 0);
      LoadEqual(b, s, 4);
      LoadEqual(b, s, 8);
      LoadEqual(b, s, 12);
      SameElements(b, s);
    }
  }

  /** Adding vectors adds the blocks whose diagonals they hold. */
  lemma DiagonalsAdd(x: seq<word>, x0: Vec, x1: Vec, x2: Vec, x3: Vec, y: seq<word>, y0: Vec, y1: Vec, y2: Vec, y3: Vec)
    requires |x| == 16 && |y| == 16
    requires OnDiagonals(x, x0, x1, x2, x3) && OnDiagonals(y, y0, y1, y2, y3)
    ensures OnDiagonals(AddWords(x, y), AddEpi32(x0, y0), AddEpi32(x1, y1), AddEpi32(x2, y2), AddEpi32(x3, y3))
  {
    hide Add32;
  }

  /** The shuffled layout commutes with exclusive or. */
  lemma ShuffledXor(x: seq<word>, y: seq<word>)
    requires |x| == 16 && |y| == 16
    ensures XorWords(Shuffled(x), Shuffled(y)) == Shuffled(XorWords(x, y))
  {
    hide Xor32;
  }

  /** A store of one vector. */
  method Store(B: array<word>, i: nat, v: Vec)
    requires i + 4 <= B.Length
    modifies B
    ensures Load(B[..], i) == v
    ensures forall k | 0 <= k < B.Length && !(i <= k < i + 4) :: B[k] == old(B[k])
    ensures B[..] == Put(old(B[..]), i, v.Lanes())
  {
    B[i], B[i + 1], B[i + 2], B[i + 3] := v.l0, v.l1, v.l2, v.l3;
    assert B[i..i + 4] == v.Lanes();
    PutIs(old(B[..]), B[..], i, v.Lanes());
  }

  /** salsa20_8 of the SSE2 code on the four vectors at `off`: the block stays in the shuffled layout. */
  method SalsaSse2(B: array<word>, off: nat)
    requires off + 16 <= B.Length
    modifies B
    ensures B[..] == Put(old(B[..]), off, Shuffled(Salsa20_8(Unshuffled(Get(old(B[..]), off, 16)))))
  {
    hide ColumnRound, RowRound, AddWords, AddEpi32, Shuffled, Unshuffled, OnDiagonals, OnRows, Put;
    ghost var b := B[off..off + 16];
    ghost var x := Unshuffled(b);
    ShuffleInverse(b);
    DiagonalsShuffled(b, x);
    var b0, b1, b2, b3 := Load(B[..], off), Load(B[..], off + 4), Load(B[..], off + 8), Load(B[..], off + 12);
    assert b0 == Load(b, 0) && b1 == Load(b, 4) && b2 == Load(b, 8) && b3 == Load(b, 12);
    var X0, X1, X2, X3 := b0, b1, b2, b3;
    var i := 0;
    while i < 8
      invariant 0 <= i <= 8 && i % 2 == 0
      invariant OnDiagonals(DoubleRounds(x, i / 2), X0, X1, X2, X3)
      invariant unchanged(B)
    {
      ghost var y := DoubleRounds(x, i / 2);
      X0, X1, X2, X3 := VecColumnRound(X0, X1, X2, X3, y);
      X0, X1, X2, X3 := VecRowRound(X0, X1, X2, X3, ColumnRound(y));
      assert (i + 2) / 2 == i / 2 + 1;
      i := i + 2;
    }
    ghost var y := DoubleRounds(x, 4);
    DiagonalsAdd(x, b0, b1, b2, b3, y, X0, X1, X2, X3);
    Store(B, off, AddEpi32(b0, X0));
    Store(B, off + 4, AddEpi32(b1, X1));
    Store(B, off + 8, AddEpi32(b2, X2));
    Store(B, off + 12, AddEpi32(b3, X3));
    ghost var c := B[off..off + 16];
    assert Load(c, 0) == AddEpi32(b0, X0) && Load(c, 4) == AddEpi32(b1, X1);
    assert Load(c, 8) == AddEpi32(b2, X2) && Load(c, 12) == AddEpi32(b3, X3);
    DiagonalsShuffled(c, AddWords(x, y));
    PutIs(old(B[..]), B[..], off, c);
  }
}

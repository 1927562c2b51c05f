/** SHA256_Transform_sse2 of libcperciva/alg/sha256_sse2.c: the message schedule four words at a time. */
module Sha256Sse2 {
  import opened Bytes
  import opened Mem
  import opened Sha256Spec
  import opened Sha256Transform
  import opened Sse2
  import Salsa

  //////////////////////////////////////////////////////////////////////////////
  // More instructions
  //////////////////////////////////////////////////////////////////////////////

  /** The 16-bit halves of a lane. */
  function Low16(w: word): bv16 {
    (w & 0xffff) as bv16
  }

  function High16(w: word): bv16 {
    (w >> 16) as bv16
  }

  function Join16(lo: bv16, hi: bv16): word {
    (lo as word) | ((hi as word) << 16)
  }

  function SlliLane16(w: word): word {
    Join16(Low16(w) << 8, High16(w) << 8)
  }

  function SrliLane16(w: word): word {
    Join16(Low16(w) >> 8, High16(w) >> 8)
  }

  /** _mm_slli_epi16(a, 8) */
  function Slli8Epi16(a: Vec): Vec {
    Vec(SlliLane16(a.l0), SlliLane16(a.l1), SlliLane16(a.l2), SlliLane16(a.l3))
  }

  /** _mm_srli_epi16(a, 8) */
  function Srli8Epi16(a: Vec): Vec {
    Vec(SrliLane16(a.l0), SrliLane16(a.l1), SrliLane16(a.l2), SrliLane16(a.l3))
  }

  function Or32(a: word, b: word): word {
    a | b
  }

  /** _mm_or_si128 */
  function OrSi128(a: Vec, b: Vec): Vec {
    Vec(Or32(a.l0, b.l0), Or32(a.l1, b.l1), Or32(a.l2, b.l2), Or32(a.l3, b.l3))
  }

  function Half64(lo: word, hi: word, k: nat): bv16
    requires k < 4
  {
    if k == 0 then Low16(lo) else if k == 1 then High16(lo) else if k == 2 then Low16(hi) else High16(hi)
  }

  /** _mm_shufflelo_epi16: the halves of lanes 0 and 1 are selected by the immediate. */
  function ShuffleLoEpi16(a: Vec, imm: nat): Vec
    requires imm < 256
  {
    Vec(Join16(Half64(a.l0, a.l1, imm % 4), Half64(a.l0, a.l1, imm / 4 % 4)),
        Join16(Half64(a.l0, a.l1, imm / 16 % 4), Half64(a.l0, a.l1, imm / 64 % 4)), a.l2, a.l3)
  }

  /** _mm_shufflehi_epi16: the halves of lanes 2 and 3 are selected by the immediate. */
  function ShuffleHiEpi16(a: Vec, imm: nat): Vec
    requires imm < 256
  {
    Vec(a.l0, a.l1, Join16(Half64(a.l2, a.l3, imm % 4), Half64(a.l2, a.l3, imm / 4 % 4)),
        Join16(Half64(a.l2, a.l3, imm / 16 % 4), Half64(a.l2, a.l3, imm / 64 % 4)))
  }

  function Srl64(lo: word, hi: word, n: nat): bv64
    requires n <= 64
  {
    ((lo as bv64) | ((hi as bv64) << 32)) >> n
  }

  function Low32(x: bv64): word {
    (x & 0xffffffff) as word
  }

  function High32(x: bv64): word {
    (x >> 32) as word
  }

  /** _mm_srli_epi64 */
  function SrliEpi64(a: Vec, n: nat): Vec
    requires n <= 64
  {
    Vec(Low32(Srl64(a.l0, a.l1, n)), High32(Srl64(a.l0, a.l1, n)),
        Low32(Srl64(a.l2, a.l3, n)), High32(Srl64(a.l2, a.l3, n)))
  }

  /** _mm_slli_si128(a, 8) */
  function Slli8Si128(a: Vec): Vec {
    Vec(0, 0, a.l0, a.l1)
  }

  /** _mm_srli_si128(a, 8) */
  function Srli8Si128(a: Vec): Vec {
    Vec(a.l2, a.l3, 0, 0)
  }

  /** _mm_move_ss */
  function MoveSs(a: Vec, b: Vec): Vec {
    Vec(b.l0, a.l1, a.l2, a.l3)
  }

  //////////////////////////////////////////////////////////////////////////////
  // Byte swap
  //////////////////////////////////////////////////////////////////////////////

  /** mm_bswap_epi32: 0xB1 is _MM_SHUFFLE(2, 3, 0, 1). */
  function BswapEpi32(a: Vec): Vec {
    var b := OrSi128(Slli8Epi16(a), Srli8Epi16(a));
    ShuffleHiEpi16(ShuffleLoEpi16(b, 0xB1), 0xB1)
  }

  function BswapLane(w: word): word {
    var b := Or32(SlliLane16(w), SrliLane16(w));
    Join16(High16(b), Low16(b))
  }

  lemma BswapLanes(a: Vec)
    ensures BswapEpi32(a) == Vec(BswapLane(a.l0), BswapLane(a.l1), BswapLane(a.l2), BswapLane(a.l3))
  {
    hide Low16, High16, Join16, Or32, SlliLane16, SrliLane16;
  }

  lemma BswapBits(a: byte, b: byte, c: byte, d: byte)
    ensures BswapLane(Le32(a, b, c, d)) ^ Be32(a, b, c, d) == 0
  {
  }

  /** Swapping the bytes of a little-endian word gives the big-endian word. */
  lemma BswapIsBigEndian(a: byte, b: byte, c: byte, d: byte)
    ensures BswapLane(Le32(a, b, c, d)) == Be32(a, b, c, d)
  {
    hide *;
    BswapBits(a, b, c, d);
    XorZero(BswapLane(Le32(a, b, c, d)), Be32(a, b, c, d));
  }

  //////////////////////////////////////////////////////////////////////////////
  // Message schedule
  //////////////////////////////////////////////////////////////////////////////

  /** The macro ROTR32. */
  function Rotr32Vec(x: Vec, n: nat): Vec
    requires n <= 32
  {
    OrSi128(SrliEpi32(x, n), SlliEpi32(x, 32 - n))
  }

  /** The macro SmallSigma0Vec. */
  function SmallSigma0Vec(x: Vec): Vec {
    XorSi128(XorSi128(Rotr32Vec(x, 7), Rotr32Vec(x, 18)), SrliEpi32(x, 3))
  }

  lemma OrIsRotr(x: word, n: nat)
    requires n <= 32
    ensures Or32(Shr32(x, n), Shl32(x, 32 - n)) == RotrMacro(x, n)
  {
    hide Shr32, Shl32;
  }

  lemma SmallSigma0Lanes(x: Vec)
    ensures SmallSigma0Vec(x) == Vec(SmallSigma0(x.l0), SmallSigma0(x.l1), SmallSigma0(x.l2), SmallSigma0(x.l3))
  {
    hide Or32, Shr32, Shl32, RotrMacro, Rotr, Xor32, SmallSigma0;
    SmallSigma0Lane(x.l0);
    SmallSigma0Lane(x.l1);
    SmallSigma0Lane(x.l2);
    SmallSigma0Lane(x.l3);
  }

  lemma SmallSigma0Lane(x: word)
    ensures Xor32(Xor32(Or32(Shr32(x, 7), Shl32(x, 25)), Or32(Shr32(x, 18), Shl32(x, 14))), Shr32(x, 3))
         == SmallSigma0(x)
  {
    hide Or32, Shr32, Shl32, RotrMacro, Rotr, Xor32, SmallSigma0;
    OrIsRotr(x, 7);
    OrIsRotr(x, 18);
    SigmasAgree(x);
  }

  lemma Srl64Is17(x: word) ensures Low32(Srl64(x, x, 17)) == Rotr(x, 17) {}
  lemma Srl64Is19(x: word) ensures Low32(Srl64(x, x, 19)) == Rotr(x, 19) {}

  /** The common middle of SmallSigma1High and SmallSigma1Low: lanes 0 and 2 hold results. */
  function SmallSigma1Doubled(b: Vec): Vec {
    var c := XorSi128(SrliEpi64(b, 17), SrliEpi64(b, 19));
    XorSi128(c, SrliEpi32(b, 10))
  }

  /** SmallSigma1High: 0x50 is _MM_SHUFFLE(1, 1, 0, 0) and 0x88 is _MM_SHUFFLE(2, 0, 2, 0). */
  function SmallSigma1High(a: Vec): Vec {
    var c := SmallSigma1Doubled(ShuffleEpi32(a, 0x50));
    Slli8Si128(ShuffleEpi32(c, 0x88))
  }

  /** SmallSigma1Low: 0xFA is _MM_SHUFFLE(3, 3, 2, 2). */
  function SmallSigma1Low(a: Vec): Vec {
    var c := SmallSigma1Doubled(ShuffleEpi32(a, 0xFA));
    Srli8Si128(ShuffleEpi32(c, 0x88))
  }

  lemma Shuffle50(v: Vec) ensures ShuffleEpi32(v, 0x50) == Vec(v.l0, v.l0, v.l1, v.l1) {}
  lemma ShuffleFA(v: Vec) ensures ShuffleEpi32(v, 0xFA) == Vec(v.l2, v.l2, v.l3, v.l3) {}
  lemma Shuffle88(v: Vec) ensures ShuffleEpi32(v, 0x88) == Vec(v.l0, v.l2, v.l0, v.l2) {}

  lemma DoubledLanes(x: word, y: word)
    ensures SmallSigma1Doubled(Vec(x, x, y, y)).l0 == SmallSigma1(x)
    ensures SmallSigma1Doubled(Vec(x, x, y, y)).l2 == SmallSigma1(y)
  {
    hide Low32, High32, Srl64, Rotr, Xor32, Shr32;
    Srl64Is17(x);
    Srl64Is19(x);
    Srl64Is17(y);
    Srl64Is19(y);
  }

  /** The 64-bit shifts of doubled lanes are 32-bit rotations, and unwanted lanes are zeroed. */
  lemma SmallSigma1Lanes(a: Vec)
    ensures SmallSigma1High(a) == Vec(0, 0, SmallSigma1(a.l0), SmallSigma1(a.l1))
    ensures SmallSigma1Low(a) == Vec(SmallSigma1(a.l2), SmallSigma1(a.l3), 0, 0)
  {
    hide ShuffleEpi32, SmallSigma1, SmallSigma1Doubled;
    Shuffle50(a);
    ShuffleFA(a);
    DoubledLanes(a.l0, a.l1);
    DoubledLanes(a.l2, a.l3);
    Shuffle88(SmallSigma1Doubled(ShuffleEpi32(a, 0x50)));
    Shuffle88(SmallSigma1Doubled(ShuffleEpi32(a, 0xFA)));
  }

  /** The macro SPAN_ONE_THREE. */
  function SpanOneThree(a: Vec, b: Vec): Vec {
    ShuffleEpi32(MoveSs(a, b), 0x39)
  }

  /** Msg4: the next four words of the message schedule. */
  function Msg4(X0: Vec, X1: Vec, X2: Vec, X3: Vec): Vec {
    var minusSeven := SpanOneThree(X2, X3);
    var minusFifteen := SpanOneThree(X0, X1);
    var Y := AddEpi32(AddEpi32(X0, minusSeven), SmallSigma0Vec(minusFifteen));
    var Z := AddEpi32(Y, SmallSigma1Low(X3));
    AddEpi32(Z, SmallSigma1High(Z))
  }

  lemma AddZero(a: word) ensures Add32(a, 0) == a {}

  /** The order in which Msg4 adds the four terms does not matter. */
  lemma SumOfFour(x: word, w7: word, s0: word, s1: word)
    ensures Add32(Add32(Add32(x, w7), s0), s1) == Add32(Add32(Add32(s1, w7), s0), x)
  {
    hide *;
    AddCommutes(Add32(Add32(x, w7), s0), s1);
    AddAssociates(x, w7, s0);
    AddCommutes(x, Add32(w7, s0));
    AddAssociates(s1, Add32(w7, s0), x);
    AddAssociates(s1, w7, s0);
  }

  /** Four consecutive words of the schedule. */
  ghost function Words4(M: seq<word>, t: nat): Vec
    requires |M| == 16
  {
    Vec(Schedule(M, t), Schedule(M, t + 1), Schedule(M, t + 2), Schedule(M, t + 3))
  }

  lemma Msg4Lanes(X0: Vec, X1: Vec, X2: Vec, X3: Vec)
    ensures
      var Z0 := Add32(Add32(Add32(X0.l0, X2.l1), SmallSigma0(X0.l1)), SmallSigma1(X3.l2));
      var Z1 := Add32(Add32(Add32(X0.l1, X2.l2), SmallSigma0(X0.l2)), SmallSigma1(X3.l3));
      Msg4(X0, X1, X2, X3)
      == Vec(Z0, Z1, Add32(Add32(Add32(X0.l2, X2.l3), SmallSigma0(X0.l3)), SmallSigma1(Z0)),
             Add32(Add32(Add32(X0.l3, X3.l0), SmallSigma0(X1.l0)), SmallSigma1(Z1)))
  {
    hide Add32, SmallSigma0, SmallSigma1, SmallSigma0Vec, SmallSigma1Low, SmallSigma1High, ShuffleEpi32;
    Shuffle39(MoveSs(X2, X3));
    Shuffle39(MoveSs(X0, X1));
    SmallSigma0Lanes(SpanOneThree(X0, X1));
    SmallSigma1Lanes(X3);
    var Y := AddEpi32(AddEpi32(X0, SpanOneThree(X2, X3)), SmallSigma0Vec(SpanOneThree(X0, X1)));
    var Z := AddEpi32(Y, SmallSigma1Low(X3));
    SmallSigma1Lanes(Z);
    AddZero(Y.l2);
    AddZero(Y.l3);
    AddZero(Z.l0);
    AddZero(Z.l1);
  }

  /** Msg4 applied to the last sixteen words of the schedule gives the next four, although two depend on the others. */
  lemma Msg4IsSchedule(M: seq<word>, t: nat)
    requires |M| == 16
    ensures Msg4(Words4(M, t), Words4(M, t + 4), Words4(M, t + 8), Words4(M, t + 12)) == Words4(M, t + 16)
  {
    hide Add32, SmallSigma0, SmallSigma1, Msg4, Schedule;
    Msg4Lanes(Words4(M, t), Words4(M, t + 4), Words4(M, t + 8), Words4(M, t + 12));
    NextWord(M, t);
    NextWord(M, t + 1);
    NextWord(M, t + 2);
    NextWord(M, t + 3);
  }

  lemma NextWord(M: seq<word>, t: nat)
    requires |M| == 16
    ensures Schedule(M, t + 16)
         == Add32(Add32(Add32(Schedule(M, t), Schedule(M, t + 9)), SmallSigma0(Schedule(M, t + 1))),
                  SmallSigma1(Schedule(M, t + 14)))
  {
    hide Add32, SmallSigma0, SmallSigma1, Schedule;
    ScheduleNext(M, t + 16);
    SumOfFour(Schedule(M, t), Schedule(M, t + 9), SmallSigma0(Schedule(M, t + 1)), SmallSigma1(Schedule(M, t + 14)));
  }

  //////////////////////////////////////////////////////////////////////////////
  // SHA256_Transform_sse2
  //////////////////////////////////////////////////////////////////////////////

  /** _mm_loadu_si128 of 16 octets: every lane is a little-endian word. */
  function LoadOctets(b: seq<byte>, i: nat): Vec
    requires i + 16 <= |b|
  {
    Vec(Le32(b[i], b[i + 1], b[i + 2], b[i + 3]), Le32(b[i + 4], b[i + 5], b[i + 6], b[i + 7]),
        Le32(b[i + 8], b[i + 9], b[i + 10], b[i + 11]), Le32(b[i + 12], b[i + 13], b[i + 14], b[i + 15]))
  }

  lemma FirstWords(M: seq<word>, t: nat)
    requires |M| == 16 && t + 4 <= 16
    ensures Words4(M, t) == Vec(M[t], M[t + 1], M[t + 2], M[t + 3])
  {
    hide Add32, SmallSigma0, SmallSigma1;
  }

  lemma BeWordAt(b: seq<byte>, t: nat)
    requires 4 * t + 4 <= |b|
    ensures BeWords(b)[t] == Be32(b[4 * t], b[4 * t + 1], b[4 * t + 2], b[4 * t + 3])
  {
    hide Be32;
  }

  /** Swapped loads of the block are the first words of the schedule. */
  lemma SwappedLoad(b: seq<byte>, t: nat)
    requires |b| == 64 && t + 4 <= 16
    ensures BswapEpi32(LoadOctets(b, 4 * t)) == Words4(BeWords(b), t)
  {
    hide Le32, Be32, BswapLane, BswapEpi32, BeWords, Words4;
    var i := 4 * t;
    BswapLanes(LoadOctets(b, i));
    FirstWords(BeWords(b), t);
    BeWordAt(b, t);
    BeWordAt(b, t + 1);
    BeWordAt(b, t + 2);
    BeWordAt(b, t + 3);
    BswapIsBigEndian(b[i], b[i + 1], b[i + 2], b[i + 3]);
    BswapIsBigEndian(b[i + 4], b[i + 5], b[i + 6], b[i + 7]);
    BswapIsBigEndian(b[i + 8], b[i + 9], b[i + 10], b[i + 11]);
    BswapIsBigEndian(b[i + 12], b[i + 13], b[i + 14], b[i + 15]);
  }

  /** A store of four more words of the schedule. */
  method StoreScheduled(W: array<word>, t: nat, v: Vec, ghost M: seq<word>)
    requires W.Length == 64 && |M| == 16 && t + 4 <= 64 && Scheduled(W[..], M, t) && v == Words4(M, t)
    modifies W
    ensures Scheduled(W[..], M, t + 4)
  {
    hide Schedule, Put;
    Salsa.Store(W, t, v);
    assert W[t] == Load(W[..], t).l0 && W[t + 1] == Load(W[..], t).l1;
    assert W[t + 2] == Load(W[..], t).l2 && W[t + 3] == Load(W[..], t).l3;
  }

  /** The four loads, swaps and stores of step 1. */
  method LoadBlock(W: array<word>, block: array<byte>, off: nat) returns (Y0: Vec, Y1: Vec, Y2: Vec, Y3: Vec)
    requires W.Length == 64 && off + 64 <= block.Length
    modifies W
    ensures var M := BeWords(block[off..off + 64]);
            Scheduled(W[..], M, 16) &&
            Y0 == Words4(M, 0) && Y1 == Words4(M, 4) && Y2 == Words4(M, 8) && Y3 == Words4(M, 12)
  {
    hide Le32, BswapEpi32, BeWords, Words4, Schedule, LoadOctets;
    ghost var b := block[off..off + 64];
    ghost var M := BeWords(b);
    LoadInside(block[..], off, 0);
    LoadInside(block[..], off, 4);
    LoadInside(block[..], off, 8);
    LoadInside(block[..], off, 12);
    SwappedLoad(b, 0);
    SwappedLoad(b, 4);
    SwappedLoad(b, 8);
    SwappedLoad(b, 12);
    Y0 := BswapEpi32(LoadOctets(block[..], off));
    Y1 := BswapEpi32(LoadOctets(block[..], off + 16));
    Y2 := BswapEpi32(LoadOctets(block[..], off + 32));
    Y3 := BswapEpi32(LoadOctets(block[..], off + 48));
    StoreScheduled(W, 0, Y0, M);
    StoreScheduled(W, 4, Y1, M);
    StoreScheduled(W, 8, Y2, M);
    StoreScheduled(W, 12, Y3, M);
    assert block[off..off + 64] == b;
  }

  lemma LoadInside(s: seq<byte>, off: nat, t: nat)
    requires off + 64 <= |s| && t <= 12
    ensures LoadOctets(s, off + 4 * t) == LoadOctets(s[off..off + 64], 4 * t)
  {
    hide Le32;
  }

  /** The four Msg4 steps of one pass of the loop. */
  method SixteenWordsSse2(W: array<word>, ii: nat, y0: Vec, y1: Vec, y2: Vec, y3: Vec, ghost M: seq<word>)
    returns (Y0: Vec, Y1: Vec, Y2: Vec, Y3: Vec)
    requires W.Length == 64 && |M| == 16 && ii + 32 <= 64 && Scheduled(W[..], M, ii + 16)
    requires y0 == Words4(M, ii) && y1 == Words4(M, ii + 4) && y2 == Words4(M, ii + 8) && y3 == Words4(M, ii + 12)
    modifies W
    ensures Scheduled(W[..], M, ii + 32)
    ensures Y0 == Words4(M, ii + 16) && Y1 == Words4(M, ii + 20) && Y2 == Words4(M, ii + 24) && Y3 == Words4(M, ii + 28)
  {
    hide Msg4, Words4, Scheduled, Schedule;
    Msg4IsSchedule(M, ii);
    Y0 := Msg4(y0, y1, y2, y3);
    StoreScheduled(W, 16 + ii, Y0, M);
    Msg4IsSchedule(M, ii + 4);
    Y1 := Msg4(y1, y2, y3, Y0);
    StoreScheduled(W, 16 + ii + 4, Y1, M);
    Msg4IsSchedule(M, ii + 8);
    Y2 := Msg4(y2, y3, Y0, Y1);
    StoreScheduled(W, 16 + ii + 8, Y2, M);
    Msg4IsSchedule(M, ii + 12);
    Y3 := Msg4(y3, Y0, Y1, Y2);
    StoreScheduled(W, 16 + ii + 12, Y3, M);
  }

  /** SHA256_Transform_sse2(state, block, W, S): the same new state as the scalar code. */
  method TransformSse2(state: array<word>, block: array<byte>, off: nat, W: array<word>, S: array<word>)
    requires state.Length == 8 && off + 64 <= block.Length && W.Length == 64 && S.Length == 8
    requires state != W && state != S && W != S
    modifies state, W, S
    ensures state[..] == Compress(old(state[..]), BeWords(block[off..off + 64]))
  {
    hide Rounds, Schedule, Scheduled, VarsOf, SeqOf, AddState, BeWords, Compress, Words4;
    ghost var s := state[..];
    ghost var v, M := VarsOf(s), BeWords(block[off..off + 64]);
    // The block gives the first 16 schedule words, kept in four vectors as well.
    var Y0, Y1, Y2, Y3 := LoadBlock(W, block, off);
    // The rounds work on a copy of the state.
    CopyState(S, state);
    RoundsStart(v, M);
    // Each group of 16 rounds but the last is followed by 16 more schedule words.
    var i := 0;
    while true
      invariant (i == 0 || i == 16 || i == 32 || i == 48) && state[..] == s
      invariant Scheduled(W[..], M, i + 16) && VarsOf(S[..]) == Rounds(v, M, i)
      invariant Y0 == Words4(M, i) && Y1 == Words4(M, i + 4) && Y2 == Words4(M, i + 8) && Y3 == Words4(M, i + 12)
      decreases 64 - i
    {
      SixteenRounds(S, W, i, v, M);
      if i == 48 {
        break;
      }
      Y0, Y1, Y2, Y3 := SixteenWordsSse2(W, i, Y0, Y1, Y2, Y3, M);
      i := i + 16;
    }
    // The result of the rounds is added to the state.
    assert i == 48 && VarsOf(S[..]) == Rounds(v, M, 64);
    SeqOfVars(S[..]);
    CompressIs(s, M);
    AddIn(state, S);
    assert M == BeWords(block[off..off + 64]);
  }
}

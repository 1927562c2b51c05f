/** SHA256_Transform of libcperciva/alg/sha256.c: rotating indices instead of moving variables. */
module Sha256Transform {
  import opened Bytes
  import opened Sha256Spec

  //////////////////////////////////////////////////////////////////////////////
  // The macros of the source
  //////////////////////////////////////////////////////////////////////////////

  function ChMacro(x: word, y: word, z: word): word {
    (x & (y ^ z)) ^ z
  }

  function MajMacro(x: word, y: word, z: word): word {
    (x & (y | z)) | (y & z)
  }

  function RotrMacro(x: word, n: nat): word
    requires n <= 32
  {
    Shr32(x, n) | Shl32(x, 32 - n)
  }

  function BigSigma0Macro(x: word): word {
    Xor32(Xor32(RotrMacro(x, 2), RotrMacro(x, 13)), RotrMacro(x, 22))
  }

  function BigSigma1Macro(x: word): word {
    Xor32(Xor32(RotrMacro(x, 6), RotrMacro(x, 11)), RotrMacro(x, 25))
  }

  function SmallSigma0Macro(x: word): word {
    Xor32(Xor32(RotrMacro(x, 7), RotrMacro(x, 18)), Shr32(x, 3))
  }

  function SmallSigma1Macro(x: word): word {
    Xor32(Xor32(RotrMacro(x, 17), RotrMacro(x, 19)), Shr32(x, 10))
  }

  lemma XorZero(p: word, q: word)
    requires p ^ q == 0
    ensures p == q
  {
  }

  lemma ChBits(x: word, y: word, z: word) ensures ChMacro(x, y, z) ^ Ch(x, y, z) == 0 {}
  lemma MajBits(x: word, y: word, z: word) ensures MajMacro(x, y, z) ^ Maj(x, y, z) == 0 {}

  /** The rewritten choice and majority agree with the standard ones. */
  lemma ChMajAgree(x: word, y: word, z: word)
    ensures ChMacro(x, y, z) == Ch(x, y, z) && MajMacro(x, y, z) == Maj(x, y, z)
  {
    hide *;
    ChBits(x, y, z);
    MajBits(x, y, z);
    XorZero(ChMacro(x, y, z), Ch(x, y, z));
    XorZero(MajMacro(x, y, z), Maj(x, y, z));
  }

  lemma Rotr2(x: word) ensures RotrMacro(x, 2) == Rotr(x, 2) {}
  lemma Rotr6(x: word) ensures RotrMacro(x, 6) == Rotr(x, 6) {}
  lemma Rotr7(x: word) ensures RotrMacro(x, 7) == Rotr(x, 7) {}
  lemma Rotr11(x: word) ensures RotrMacro(x, 11) == Rotr(x, 11) {}
  lemma Rotr13(x: word) ensures RotrMacro(x, 13) == Rotr(x, 13) {}
  lemma Rotr17(x: word) ensures RotrMacro(x, 17) == Rotr(x, 17) {}
  lemma Rotr18(x: word) ensures RotrMacro(x, 18) == Rotr(x, 18) {}
  lemma Rotr19(x: word) ensures RotrMacro(x, 19) == Rotr(x, 19) {}
  lemma Rotr22(x: word) ensures RotrMacro(x, 22) == Rotr(x, 22) {}
  lemma Rotr25(x: word) ensures RotrMacro(x, 25) == Rotr(x, 25) {}

  /** The rotations written with two shifts agree with the standard ones. */
  lemma SigmasAgree(x: word)
    ensures BigSigma0Macro(x) == BigSigma0(x) && BigSigma1Macro(x) == BigSigma1(x)
    ensures SmallSigma0Macro(x) == SmallSigma0(x) && SmallSigma1Macro(x) == SmallSigma1(x)
  {
    hide RotrMacro, Rotr, Xor32, Shr32;
    Rotr2(x); Rotr13(x); Rotr22(x);
    Rotr6(x); Rotr11(x); Rotr25(x);
    Rotr7(x); Rotr18(x);
    Rotr17(x); Rotr19(x);
  }

  /** The first addition of RND groups the five terms of T1 differently. */
  lemma SumOfFive(h: word, s: word, c: word, w: word, k: word)
    ensures Add32(h, Add32(Add32(Add32(s, c), w), k)) == Add32(Add32(Add32(Add32(h, s), c), k), w)
  {
    hide *;
    AddAssociates(Add32(s, c), w, k);
    AddAssociates(h, Add32(s, c), Add32(w, k));
    AddAssociates(h, s, c);
    AddCommutes(w, k);
    AddAssociates(Add32(Add32(h, s), c), k, w);
  }

  //////////////////////////////////////////////////////////////////////////////
  // Rotating indices
  //////////////////////////////////////////////////////////////////////////////

  /** The variables read from place p onwards, around the array. */
  function ReadFrom(S: seq<word>, p: nat): Vars
    requires |S| == 8 && p < 8
  {
    Vars(S[p], S[(p + 1) % 8], S[(p + 2) % 8], S[(p + 3) % 8],
         S[(p + 4) % 8], S[(p + 5) % 8], S[(p + 6) % 8], S[(p + 7) % 8])
  }

  /** The working variables as stored when round i of a group of 16 starts: a is at (64 - i) mod 8. */
  function Rotated(S: seq<word>, i: nat): Vars
    requires |S| == 8 && i <= 16
  {
    ReadFrom(S, (64 - i) % 8)
  }

  /** The macro RND: d and h are updated in place, the other variables stay where they are. */
  method Rnd(S: array<word>, a: nat, b: nat, c: nat, d: nat, e: nat, f: nat, g: nat, h: nat, w: word, k: word)
    requires S.Length == 8 && a < 8 && b < 8 && c < 8 && d < 8 && e < 8 && f < 8 && g < 8 && h < 8
    requires d != a && d != b && d != c && d != h && h != a && h != b && h != c && h != e && h != f && h != g
    modifies S
    ensures var v := Round(Vars(old(S[a]), old(S[b]), old(S[c]), old(S[d]), old(S[e]), old(S[f]), old(S[g]), old(S[h])),
                           k, w);
            S[..] == old(S[..])[h := v.a][d := v.e]
  {
    hide Add32, ChMacro, Ch, MajMacro, Maj, BigSigma1Macro, BigSigma0Macro, BigSigma0, BigSigma1;
    ChMajAgree(S[e], S[f], S[g]);
    ChMajAgree(S[a], S[b], S[c]);
    SigmasAgree(S[e]);
    SigmasAgree(S[a]);
    SumOfFive(S[h], BigSigma1(S[e]), Ch(S[e], S[f], S[g]), w, k);
    S[h] := Add32(S[h], Add32(Add32(Add32(BigSigma1Macro(S[e]), ChMacro(S[e], S[f], S[g])), w), k));
    S[d] := Add32(S[d], S[h]);
    S[h] := Add32(S[h], Add32(BigSigma0Macro(S[a]), MajMacro(S[a], S[b], S[c])));
  }

  lemma RotatedIndex(i: nat, j: nat, p: nat)
    requires i < 16 && p == (64 - i) % 8
    ensures (64 + j - i) % 8 == (p + j) % 8
  {
    var q := (64 - i) / 8;
    assert 64 + j - i == 8 * q + (p + j);
  }

  lemma RotatedIndices(i: nat)
    requires i < 16
    ensures var p := (64 - i) % 8;
            (65 - i) % 8 == (p + 1) % 8 && (66 - i) % 8 == (p + 2) % 8 && (67 - i) % 8 == (p + 3) % 8 &&
            (68 - i) % 8 == (p + 4) % 8 && (69 - i) % 8 == (p + 5) % 8 && (70 - i) % 8 == (p + 6) % 8 &&
            (71 - i) % 8 == (p + 7) % 8 && (63 - i) % 8 == (p + 7) % 8
  {
    var p := (64 - i) % 8;
    RotatedIndex(i, 1, p);
    RotatedIndex(i, 2, p);
    RotatedIndex(i, 3, p);
    RotatedIndex(i, 4, p);
    RotatedIndex(i, 5, p);
    RotatedIndex(i, 6, p);
    RotatedIndex(i, 7, p);
    assert 63 - i + 8 == 71 - i;
  }

  lemma PlacesDistinct(p: nat, a: nat, b: nat, c: nat, d: nat, e: nat, f: nat, g: nat, h: nat)
    requires p < 8 && a == p && b == (p + 1) % 8 && c == (p + 2) % 8 && d == (p + 3) % 8
    requires e == (p + 4) % 8 && f == (p + 5) % 8 && g == (p + 6) % 8 && h == (p + 7) % 8
    ensures d != a && d != b && d != c && d != h && h != a && h != b && h != c && h != e && h != f && h != g
  {
  }

  lemma ReadFromIs(S: seq<word>, p: nat, a: nat, b: nat, c: nat, d: nat, e: nat, f: nat, g: nat, h: nat)
    requires |S| == 8 && p < 8 && a == p && b == (p + 1) % 8 && c == (p + 2) % 8 && d == (p + 3) % 8
    requires e == (p + 4) % 8 && f == (p + 5) % 8 && g == (p + 6) % 8 && h == (p + 7) % 8
    ensures ReadFrom(S, p) == Vars(S[a], S[b], S[c], S[d], S[e], S[f], S[g], S[h])
  {
  }

  /** Going around the array from one place earlier. */
  lemma OneEarlier(p: nat, j: nat)
    requires p < 8 && 1 <= j <= 7
    ensures ((p + 7) % 8 + j) % 8 == (p + (j - 1)) % 8
  {
    assert (p + 7) % 8 + j == (p + (j - 1)) + (if p == 0 then 8 else 0);
  }

  /** Replacing h and d and starting one place earlier moves every variable on by one. */
  lemma UpdateMovesOn(S: seq<word>, p: nat, x: word, y: word)
    requires |S| == 8 && p < 8
    ensures var v := ReadFrom(S, p);
            ReadFrom(S[(p + 7) % 8 := x][(p + 3) % 8 := y], (p + 7) % 8) == Vars(x, v.a, v.b, v.c, y, v.e, v.f, v.g)
  {
    hide ReadFrom;
    var a, b, c, d := p, (p + 1) % 8, (p + 2) % 8, (p + 3) % 8;
    var e, f, g, h := (p + 4) % 8, (p + 5) % 8, (p + 6) % 8, (p + 7) % 8;
    OneEarlier(p, 1);
    OneEarlier(p, 2);
    OneEarlier(p, 3);
    OneEarlier(p, 4);
    OneEarlier(p, 5);
    OneEarlier(p, 6);
    OneEarlier(p, 7);
    PlacesDistinct(p, a, b, c, d, e, f, g, h);
    ReadFromIs(S, p, a, b, c, d, e, f, g, h);
    ReadFromIs(S[h := x][d := y], h, h, a, b, c, d, e, f, g);
  }

  /** The macro RNDr: after round i the variables are found one place further round. */
  method RndR(S: array<word>, i: nat, w: word, k: word)
    requires S.Length == 8 && i < 16
    modifies S
    ensures Rotated(S[..], i + 1) == Round(Rotated(old(S[..]), i), k, w)
  {
    hide Round, ReadFrom;
    var p := (64 - i) % 8;
    ghost var s := S[..];
    ghost var v' := Round(ReadFrom(s, p), k, w);
    RotatedIndices(i);
    UpdateMovesOn(s, p, v'.a, v'.e);
    RoundKeeps(ReadFrom(s, p), k, w);
    RndAt(S, p, (64 - i) % 8, (65 - i) % 8, (66 - i) % 8, (67 - i) % 8, (68 - i) % 8, (69 - i) % 8, (70 - i) % 8,
          (71 - i) % 8, w, k);
  }

  /** RND on the eight places around the array from p. */
  method RndAt(S: array<word>, ghost p: nat, a: nat, b: nat, c: nat, d: nat, e: nat, f: nat, g: nat, h: nat, w: word,
               k: word)
    requires S.Length == 8 && p < 8 && a == p && b == (p + 1) % 8 && c == (p + 2) % 8 && d == (p + 3) % 8
    requires e == (p + 4) % 8 && f == (p + 5) % 8 && g == (p + 6) % 8 && h == (p + 7) % 8
    modifies S
    ensures var v := Round(ReadFrom(old(S[..]), p), k, w);
            S[..] == old(S[..])[(p + 7) % 8 := v.a][(p + 3) % 8 := v.e]
  {
    hide Round, ReadFrom;
    PlacesDistinct(p, a, b, c, d, e, f, g, h);
    ReadFromIs(S[..], p, a, b, c, d, e, f, g, h);
    Rnd(S, a, b, c, d, e, f, g, h, w, k);
  }

  lemma RoundKeeps(v: Vars, k: word, w: word)
    ensures var v' := Round(v, k, w); v' == Vars(v'.a, v.a, v.b, v.c, v'.e, v.e, v.f, v.g)
  {
    hide Add32, BigSigma0, BigSigma1, Ch, Maj;
  }

  //////////////////////////////////////////////////////////////////////////////
  // SHA256_Transform
  //////////////////////////////////////////////////////////////////////////////

  /** The first n words of the message schedule are in place. */
  ghost predicate Scheduled(W: seq<word>, M: seq<word>, n: nat)
    requires |M| == 16
  {
    n <= |W| && forall t | 0 <= t < n :: W[t] == Schedule(M, t)
  }

  /** be32dec_vect of the 64 octets of the block. */
  method DecodeBlock(W: array<word>, block: array<byte>, off: nat)
    requires W.Length == 64 && off + 64 <= block.Length
    modifies W
    ensures Scheduled(W[..], BeWords(block[off..off + 64]), 16)
  {
    hide Be32;
    ghost var b := block[off..off + 64];
    var i := 0;
    while i < 16
      invariant 0 <= i <= 16
      invariant forall t | 0 <= t < i :: W[t] == BeWords(b)[t]
    {
      assert b[4 * i] == block[off + 4 * i] && b[4 * i + 1] == block[off + 4 * i + 1]
          && b[4 * i + 2] == block[off + 4 * i + 2] && b[4 * i + 3] == block[off + 4 * i + 3];
      W[i] := Be32(block[off + 4 * i], block[off + 4 * i + 1], block[off + 4 * i + 2], block[off + 4 * i + 3]);
      i := i + 1;
    }
  }

  lemma ScheduleNext(M: seq<word>, t: nat)
    requires |M| == 16 && t >= 16
    ensures Schedule(M, t)
         == Add32(Add32(Add32(SmallSigma1(Schedule(M, t - 2)), Schedule(M, t - 7)),
                        SmallSigma0(Schedule(M, t - 15))), Schedule(M, t - 16))
  {
    hide Add32, SmallSigma0, SmallSigma1;
  }

  /** The macro MSCH: one more word of the schedule. */
  method Msch(W: array<word>, t: nat, ghost M: seq<word>)
    requires W.Length == 64 && |M| == 16 && t + 16 < 64 && Scheduled(W[..], M, t + 16)
    modifies W
    ensures Scheduled(W[..], M, t + 17)
  {
    hide Add32, SmallSigma0, SmallSigma1, SmallSigma0Macro, SmallSigma1Macro, Schedule;
    SigmasAgree(W[t + 14]);
    SigmasAgree(W[t + 1]);
    ScheduleNext(M, t + 16);
    W[t + 16] := Add32(Add32(Add32(SmallSigma1Macro(W[t + 14]), W[t + 9]), SmallSigma0Macro(W[t + 1])), W[t]);
  }

  /** RNDr(S, W, i, ii): round ii + i of the block. */
  method RoundStep(S: array<word>, W: array<word>, i: nat, ii: nat, ghost v: Vars, ghost M: seq<word>)
    requires S.Length == 8 && W.Length == 64 && S != W && |M| == 16 && i < 16 && i + ii < 64
    requires Scheduled(W[..], M, ii + 16) && Rotated(S[..], i) == Rounds(v, M, ii + i)
    modifies S
    ensures Rotated(S[..], i + 1) == Rounds(v, M, ii + i + 1)
  {
    hide Round, Rotated, Schedule, K;
    assert W[i + ii] == W[..][i + ii] == Schedule(M, ii + i);
    RndR(S, i, W[i + ii], K(i + ii));
  }

  /** The sixteen rounds of one pass of the loop; afterwards a is back in S[0]. */
  method SixteenRounds(S: array<word>, W: array<word>, ii: nat, ghost v: Vars, ghost M: seq<word>)
    requires S.Length == 8 && W.Length == 64 && S != W && |M| == 16 && ii + 16 <= 64
    requires Scheduled(W[..], M, ii + 16) && VarsOf(S[..]) == Rounds(v, M, ii)
    modifies S
    ensures VarsOf(S[..]) == Rounds(v, M, ii + 16)
  {
    hide Rounds, Schedule, Scheduled, Rotated, VarsOf;
    RotatedAtEnds(S[..]);
    RoundStep(S, W, 0, ii, v, M);
    RoundStep(S, W, 1, ii, v, M);
    RoundStep(S, W, 2, ii, v, M);
    RoundStep(S, W, 3, ii, v, M);
    RoundStep(S, W, 4, ii, v, M);
    RoundStep(S, W, 5, ii, v, M);
    RoundStep(S, W, 6, ii, v, M);
    RoundStep(S, W, 7, ii, v, M);
    RoundStep(S, W, 8, ii, v, M);
    RoundStep(S, W, 9, ii, v, M);
    RoundStep(S, W, 10, ii, v, M);
    RoundStep(S, W, 11, ii, v, M);
    RoundStep(S, W, 12, ii, v, M);
    RoundStep(S, W, 13, ii, v, M);
    RoundStep(S, W, 14, ii, v, M);
    RoundStep(S, W, 15, ii, v, M);
    RotatedAtEnds(S[..]);
  }

  lemma RotatedAtEnds(S: seq<word>)
    requires |S| == 8
    ensures Rotated(S, 0) == Rotated(S, 16) == VarsOf(S)
  {
  }

  /** The sixteen schedule words of one pass of the loop. */
  method SixteenWords(W: array<word>, ii: nat, ghost M: seq<word>)
    requires W.Length == 64 && |M| == 16 && ii + 32 <= 64 && Scheduled(W[..], M, ii + 16)
    modifies W
    ensures Scheduled(W[..], M, ii + 32)
  {
    hide Scheduled, Schedule;
    Msch(W, ii, M);
    Msch(W, ii + 1, M);
    Msch(W, ii + 2, M);
    Msch(W, ii + 3, M);
    Msch(W, ii + 4, M);
    Msch(W, ii + 5, M);
    Msch(W, ii + 6, M);
    Msch(W, ii + 7, M);
    Msch(W, ii + 8, M);
    Msch(W, ii + 9, M);
    Msch(W, ii + 10, M);
    Msch(W, ii + 11, M);
    Msch(W, ii + 12, M);
    Msch(W, ii + 13, M);
    Msch(W, ii + 14, M);
    Msch(W, ii + 15, M);
  }

  /** Step 4: the working variables are added to the state. */
  method AddIn(state: array<word>, S: array<word>)
    requires state.Length == 8 && S.Length == 8 && state != S
    modifies state
    ensures state[..] == AddState(old(state[..]), S[..])
  {
    hide Add32;
    var i := 0;
    while i < 8
      invariant 0 <= i <= 8 && unchanged(S)
      invariant forall k | 0 <= k < 8 :: state[k] == if k < i then Add32(old(state[k]), S[k]) else old(state[k])
    {
      state[i] := Add32(state[i], S[i]);
      i := i + 1;
    }
    assert state[..] == AddState(old(state[..]), S[..]);
  }

  lemma SeqOfVars(S: seq<word>)
    requires |S| == 8
    ensures SeqOf(VarsOf(S)) == S
  {
  }

  lemma RoundsStart(v: Vars, M: seq<word>)
    requires |M| == 16
    ensures Rounds(v, M, 0) == v
  {
  }

  method CopyState(S: array<word>, state: array<word>)
    requires state.Length == 8 && S.Length == 8 && state != S
    modifies S
    ensures S[..] == state[..]
  {
    forall k | 0 <= k < 8 {
      S[k] := state[k];
    }
  }

  /** SHA256_Transform(state, block, W, S), software path. */
  method Transform(state: array<word>, block: array<byte>, off: nat, W: array<word>, S: array<word>)
    requires state.Length == 8 && off + 64 <= block.Length && W.Length == 64 && S.Length == 8
    requires state != W && state != S && W != S
    modifies state, W, S
    ensures state[..] == Compress(old(state[..]), BeWords(block[off..off + 64]))
  {
    hide Rounds, Schedule, Scheduled, VarsOf, SeqOf, AddState, BeWords, Compress;
    ghost var s := state[..];
    ghost var v, M := VarsOf(s), BeWords(block[off..off + 64]);
    // The block gives the first 16 schedule words.
    DecodeBlock(W, block, off);
    // The rounds work on a copy of the state.
    CopyState(S, state);
    RoundsStart(v, M);
    // Four groups of 16 rounds, each but the last followed by 16 more schedule words.
    var i := 0;
    while true
      invariant (i == 0 || i == 16 || i == 32 || i == 48) && state[..] == s
      invariant Scheduled(W[..], M, i + 16) && VarsOf(S[..]) == Rounds(v, M, i)
      decreases 64 - i
    {
      SixteenRounds(S, W, i, v, M);
      if i == 48 {
        break;
      }
      SixteenWords(W, i, M);
      i := i + 16;
    }
    // The result of the rounds is added to the state.
    assert i == 48 && VarsOf(S[..]) == Rounds(v, M, 64);
    SeqOfVars(S[..]);
    CompressIs(s, M);
    AddIn(state, S);
    assert M == BeWords(block[off..off + 64]);
  }

  lemma CompressIs(s: seq<word>, M: seq<word>)
    requires |s| == 8 && |M| == 16
    ensures Compress(s, M) == AddState(s, SeqOf(Rounds(VarsOf(s), M, 64)))
  {
  }
}

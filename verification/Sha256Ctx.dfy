/** The buffered hash context of libcperciva/alg/sha256.c. */
module Sha256Ctx {
  import opened Bytes
  import opened Mem
  import opened Sha256Spec
  import Sha256Sse2
  import Sha256Transform

  //////////////////////////////////////////////////////////////////////////////
  // What the context holds
  //////////////////////////////////////////////////////////////////////////////

  /** The fields after the octets of m have been put in, however they were cut up. */
  ghost predicate Holds(state: seq<word>, count: nat, buf: seq<byte>, m: seq<byte>) {
    && |state| == 8 && |buf| == 64
    && count == 8 * |m| % TWO64
    && state == Fold(m, |m| / 64)
    && buf[..|m| % 64] == m[|m| - |m| % 64..]
  }

  lemma InitHolds(buf: seq<byte>)
    requires |buf| == 64
    ensures Holds(InitialState(), 0, buf, [])
  {
    hide InitialState;
  }

  /** The number of octets buffered, as the source computes it from the bit count. */
  lemma CountIs(state: seq<word>, count: nat, buf: seq<byte>, m: seq<byte>)
    requires Holds(state, count, buf, m)
    ensures count / 8 % 64 == |m| % 64
    ensures count == 8 * |m| % TWO64
  {
    hide Fold;
    var q := 8 * |m| / TWO64;
    assert 8 * |m| == q * TWO64 + count;
    assert count / 8 == |m| - q * 0x2000_0000_0000_0000;
    assert (|m| - 64 * (q * 0x80_0000_0000_0000)) % 64 == |m| % 64;
  }

  lemma CountNext(count: nat, m: nat, len: nat)
    requires count == 8 * m % TWO64
    ensures (count + 8 * len) % TWO64 == 8 * (m + len) % TWO64
  {
    assert 8 * (m + len) == count + 8 * len + TWO64 * (8 * m / TWO64);
  }

  /** An update that does not fill the buffer. */
  lemma ShortUpdate(state: seq<word>, count: nat, buf: seq<byte>, m: seq<byte>, x: seq<byte>)
    requires Holds(state, count, buf, m) && |m| % 64 + |x| < 64
    ensures Holds(state, (count + 8 * |x|) % TWO64, Put(buf, |m| % 64, x), m + x)
  {
    hide Fold;
    var r := |m| % 64;
    CountNext(count, |m|, |x|);
    assert (|m| + |x|) / 64 == |m| / 64 && (|m| + |x|) % 64 == r + |x|;
    FoldPrefix(m, x, |m| / 64);
    assert Put(buf, r, x)[..r + |x|] == buf[..r] + x;
    assert (m + x)[|m| - r..] == m[|m| - r..] + x;
  }

  /** n octets at i of m followed by x, when they run over the end of m. */
  lemma Straddle(m: seq<byte>, x: seq<byte>, i: nat, n: nat)
    requires i <= |m| <= i + n <= |m| + |x|
    ensures (m + x)[i..i + n] == m[i..] + x[..i + n - |m|]
  {
  }

  /** The first block of an update is completed from the buffer. */
  lemma FirstBlock(state: seq<word>, count: nat, buf: seq<byte>, m: seq<byte>, x: seq<byte>)
    requires Holds(state, count, buf, m) && |m| % 64 + |x| >= 64
    ensures var r, n := |m| % 64, |m| / 64;
            64 * n + 64 <= |m + x| &&
            Put(buf, r, x[..64 - r]) == (m + x)[64 * n..64 * n + 64] &&
            Compress(state, BeWords(Put(buf, r, x[..64 - r]))) == Fold(m + x, n + 1)
  {
    hide Fold, Compress, BeWords;
    var r, n := |m| % 64, |m| / 64;
    assert |m| == 64 * n + r;
    assert Put(buf, r, x[..64 - r]) == buf[..r] + x[..64 - r];
    Straddle(m, x, 64 * n, 64);
    FoldPrefix(m, x, n);
    FoldNext(m + x, n);
  }

  /** The octets left over go to the start of the buffer. */
  lemma LeftOver(buf: seq<byte>, M: seq<byte>, n: nat, rest: seq<byte>)
    requires |buf| == 64 && 64 * n <= |M| < 64 * n + 64 && rest == M[64 * n..]
    ensures Holds(Fold(M, n), 8 * |M| % TWO64, Put(buf, 0, rest), M)
  {
    hide Fold;
    assert |M| / 64 == n && |M| % 64 == |rest|;
  }

  lemma GetIs(s: seq<byte>, i: nat, n: nat)
    requires i + n <= |s|
    ensures Get(s, i, n) == s[i..i + n]
  {
  }

  lemma SameBlock(s: seq<byte>, at: nat, left: nat, M: seq<byte>, j: nat)
    requires at + left <= |s| && j + left == |M| && left >= 64 && s[at..at + left] == M[j..]
    ensures s[at..at + 64] == M[j..j + 64] && s[at + 64..at + left] == M[j + 64..]
  {
    assert s[at..at + 64] == s[at..at + left][..64] && M[j..j + 64] == M[j..][..64];
    assert s[at + 64..at + left] == s[at..at + left][64..] && M[j + 64..] == M[j..][64..];
  }

  /** The start of the octets put in, in the caller's buffer and in the message. */
  lemma FirstPart(s: seq<byte>, off: nat, len: nat, m: seq<byte>, n: nat)
    requires off + len <= |s| && n <= len
    ensures var x := s[off..off + len];
            (Get(s, off, n) == x[..n] && s[off + n..off + len] == (m + x)[|m| + n..])
  {
  }

  lemma PaddedPrefix(m: seq<byte>, n: nat)
    requires n == |m| / 64
    ensures 64 * n <= |Padded(m)| && Fold(Padded(m), n) == Fold(m, n)
  {
    hide Fold, BeEnc;
    var x := ([0x80] + Zeros(ZeroOctets(|m|))) + BeEnc(8 * |m|, 8);
    assert Padded(m) == m + x;
    FoldPrefix(m, x, n);
  }

  /** The first n octets of the array PAD. */
  function Pad(n: nat): (p: seq<byte>)
    requires n >= 1
    ensures |p| == n
  {
    [0x80] + Zeros(n - 1)
  }

  lemma CountEncodes(count: nat, m: nat)
    requires count == 8 * m % TWO64
    ensures BeEnc(count, 8) == BeEnc(8 * m, 8)
  {
    hide BeEnc, Pow256;
    Pow256Of8();
    BeEncMod(count, 8 * m / TWO64, 8);
  }

  /** Two writes one after the other, up to the end of the buffer. */
  lemma TwoPuts(buf: seq<byte>, r: nat, x: seq<byte>, y: seq<byte>)
    requires r + |x| + |y| == |buf|
    ensures Put(Put(buf, r, x), r + |x|, y) == buf[..r] + (x + y)
  {
  }

  /** The final block when the padding fits into the current one. */
  lemma PadShort(state: seq<word>, count: nat, buf: seq<byte>, m: seq<byte>)
    requires Holds(state, count, buf, m) && |m| % 64 < 56
    ensures var r, n, P := |m| % 64, |m| / 64, Padded(m);
            |P| == 64 * n + 64 &&
            Put(Put(buf, r, Pad(56 - r)), 56, BeEnc(count, 8)) == P[64 * n..64 * n + 64]
  {
    hide Fold, BeEnc;
    var r, n, P := |m| % 64, |m| / 64, Padded(m);
    CountEncodes(count, |m|);
    assert |m| == 64 * n + r;
    assert ZeroOctets(|m|) == 55 - r;
    var e := BeEnc(count, 8);
    TwoPuts(buf, r, Pad(56 - r), e);
    assert P == m + (Pad(56 - r) + e);
    Straddle(m, Pad(56 - r) + e, 64 * n, 64);
  }

  /** The last two blocks when the padding does not fit. */
  lemma PadLong(state: seq<word>, count: nat, buf: seq<byte>, m: seq<byte>)
    requires Holds(state, count, buf, m) && |m| % 64 >= 56
    ensures var r, n, P := |m| % 64, |m| / 64, Padded(m);
            |P| == 64 * n + 128 &&
            Put(buf, r, Pad(64 - r)) == P[64 * n..64 * n + 64] &&
            Put(Put(Put(buf, r, Pad(64 - r)), 0, Zeros(56)), 56, BeEnc(count, 8)) == P[64 * n + 64..64 * n + 128]
  {
    hide Fold, BeEnc;
    var r, n, P := |m| % 64, |m| / 64, Padded(m);
    CountEncodes(count, |m|);
    assert |m| == 64 * n + r;
    assert ZeroOctets(|m|) == 119 - r;
    assert [0x80] + Zeros(ZeroOctets(|m|)) == Pad(64 - r) + Zeros(56);
    assert Put(buf, r, Pad(64 - r)) == buf[..r] + Pad(64 - r);
    assert P == m[..64 * n] + (m[64 * n..] + Pad(64 - r)) + (Zeros(56) + BeEnc(count, 8));
    assert Put(Put(Put(buf, r, Pad(64 - r)), 0, Zeros(56)), 56, BeEnc(count, 8)) == Zeros(56) + BeEnc(count, 8);
  }

  //////////////////////////////////////////////////////////////////////////////
  // The context
  //////////////////////////////////////////////////////////////////////////////

  class Sha256Context {
    const state: array<word>
    var count: nat
    const buf: array<byte>
    const hwaccel: bool

    ghost predicate Valid()
      reads this
    {
      state.Length == 8 && buf.Length == 64
    }

    /** The octets put in since the last Init are m. */
    ghost predicate Absorbed(m: seq<byte>)
      reads this, state, buf
      ensures Absorbed(m) ==> Valid()
    {
      Valid() && Holds(state[..], count, buf[..], m)
    }

    constructor (hwaccel: bool)
      ensures Valid() && fresh(state) && fresh(buf) && this.hwaccel == hwaccel
    {
      this.hwaccel := hwaccel;
      state := new word[8];
      buf := new byte[64];
      count := 0;
    }

    /** SHA256_Transform: the vector code when the processor has it, otherwise the scalar code. */
    method Transform(block: array<byte>, off: nat)
      requires Valid() && off + 64 <= block.Length
      modifies state
      ensures state[..] == Compress(old(state[..]), BeWords(block[off..off + 64]))
    {
      hide Compress, BeWords;
      var W, S := new word[64], new word[8];
      if hwaccel {
        Sha256Sse2.TransformSse2(state, block, off, W, S);
      } else {
        Sha256Transform.Transform(state, block, off, W, S);
      }
    }

    /** SHA256_Init */
    method Init()
      requires Valid()
      modifies this, state
      ensures Absorbed([])
    {
      hide Fold;
      count := 0;
      var s := InitialState();
      forall k | 0 <= k < 8 {
        state[k] := s[k];
      }
      assert state[..] == s;
      InitHolds(buf[..]);
    }

    /** The complete blocks of an update: M is everything put in so far and n blocks of it have been mixed. */
    method CompleteBlocks(ghost M: seq<byte>, ghost n: nat, src: array<byte>, at0: nat, left0: nat)
      returns (at: nat, left: nat)
      requires Valid() && at0 + left0 <= src.Length && |M| == 64 * n + left0
      requires src[at0..at0 + left0] == M[64 * n..]
      requires state[..] == Fold(M, n)
      modifies state
      ensures at + left == at0 + left0 && left < 64 && left == |M| % 64
      ensures src[at..at + left] == M[|M| - left..]
      ensures state[..] == Fold(M, |M| / 64)
    {
      hide Fold, Compress, BeWords;
      at, left := at0, left0;
      ghost var k := n;
      while left >= 64
        invariant at + left == at0 + left0 && |M| == 64 * k + left
        invariant src[at..at + left] == M[64 * k..]
        invariant state[..] == Fold(M, k)
        decreases left
      {
        SameBlock(src[..], at, left, M, 64 * k);
        assert src[at..at + 64] == src[..][at..at + 64];
        FoldNext(M, k);
        Transform(src, at);
        at, left, k := at + 64, left - 64, k + 1;
      }
      assert |M| / 64 == k && |M| % 64 == left;
    }

    /** SHA256_Update: len octets of the caller's buffer, from off. */
    method Update(ghost m: seq<byte>, src: array<byte>, off: nat, len: nat)
      requires Absorbed(m) && off + len <= src.Length && src != buf
      modifies this`count, state, buf
      ensures Absorbed(m + src[off..off + len])
    {
      hide Fold, Compress, BeWords, Put, Get, Holds;
      ghost var x := src[off..off + len];
      if len == 0 {
        assert m + x == m;
        return;
      }
      var r := count / 8 % 64;
      CountIs(state[..], count, buf[..], m);
      CountNext(count, |m|, len);
      GetIs(src[..], off, len);
      ghost var count0 := count;
      count := (count + 8 * len) % TWO64;
      if len < 64 - r {
        ShortUpdate(state[..], count0, buf[..], m, x);
        MemCpy(buf, r, src, off, len);
        return;
      }
      ghost var M, n := m + x, |m| / 64 + 1;
      FirstBlock(state[..], count0, buf[..], m, x);
      FirstPart(src[..], off, len, m, 64 - r);
      MemCpy(buf, r, src, off, 64 - r);
      assert buf[0..64] == buf[..];
      Transform(buf, 0);
      var at, left := CompleteBlocks(M, n, src, off + (64 - r), len - (64 - r));
      LeftOver(buf[..], M, |M| / 64, src[at..at + left]);
      GetIs(src[..], at, left);
      MemCpy(buf, 0, src, at, left);
    }

    /** SHA256_Pad and the last transforms: the state becomes the hash value. */
    method PadAndMix(ghost m: seq<byte>)
      requires Absorbed(m)
      modifies state, buf
      ensures Valid() && state[..] == Fold(Padded(m), |Padded(m)| / 64)
    {
      hide Fold, Compress, BeWords, Put, Get, BeEnc, Padded, Zeros, Pad;
      ghost var P, n := Padded(m), |m| / 64;
      var r := count / 8 % 64;
      CountIs(state[..], count, buf[..], m);
      PaddedPrefix(m, n);
      if r < 56 {
        PadShort(state[..], count, buf[..], m);
        MemStore(buf, r, Pad(56 - r));
      } else {
        PadLong(state[..], count, buf[..], m);
        MemStore(buf, r, Pad(64 - r));
        FoldNext(P, n);
        assert buf[0..64] == buf[..];
        Transform(buf, 0);
        MemStore(buf, 0, Zeros(56));
        n := n + 1;
      }
      MemStore(buf, 56, BeEnc(count, 8));
      FoldNext(P, n);
      assert buf[0..64] == buf[..];
      Transform(buf, 0);
    }

    /** SHA256_Final: the digest of everything put in since the last Init. */
    method Final(ghost m: seq<byte>, digest: array<byte>, off: nat)
      requires Absorbed(m) && off + 32 <= digest.Length && digest != buf
      modifies state, buf, digest
      ensures Valid() && digest[..] == Put(old(digest[..]), off, Sha256(m))
    {
      hide Fold, Compress, BeWords, Put, BeUnwords, Padded, Absorbed;
      PadAndMix(m);
      MemStore(digest, off, BeUnwords(state[..]));
    }

    /** memcpy of a whole context. */
    method CopyFrom(ghost m: seq<byte>, that: Sha256Context)
      requires Valid() && that.Absorbed(m) && that != this && that.state != state && that.buf != buf
      modifies this`count, state, buf
      ensures Absorbed(m)
    {
      hide Holds;
      ghost var s, b := that.state[..], that.buf[..];
      assert Holds(s, that.count, b, m);
      count := that.count;
      forall k | 0 <= k < 8 {
        state[k] := that.state[k];
      }
      forall k | 0 <= k < 64 {
        buf[k] := that.buf[k];
      }
      assert state[..] == s && buf[..] == b;
    }
  }

  /** SHA256_Buf */
  method Sha256Buf(hwaccel: bool, src: array<byte>, off: nat, len: nat, digest: array<byte>, at: nat)
    requires off + len <= src.Length && at + 32 <= digest.Length
    modifies digest
    ensures digest[..] == Put(old(digest[..]), at, Sha256(old(src[off..off + len])))
  {
    hide Fold, Put, Sha256;
    var ctx := new Sha256Context(hwaccel);
    ctx.Init();
    ctx.Update([], src, off, len);
    assert [] + src[off..off + len] == src[off..off + len];
    ctx.Final(src[off..off + len], digest, at);
  }
}

/**
 AES in counter mode, section 6.5 of NIST SP 800-38A, and the stream of libcperciva/crypto/crypto_aesctr.c,
 crypto_aesctr_shared.c and crypto_aesctr_aesni.c.  AES under an expanded key is an arbitrary function on
 blocks of 16 octets.
 */
module AesCtr {
  import opened Bytes
  import opened Mem
  import opened Wrappers

  ghost function SameBlock(x: seq<byte>): seq<byte> {
    x
  }

  /** The block cipher under an expanded key. */
  type BlockCipher = h: seq<byte> -> seq<byte> | forall x {:trigger h(x)} :: |x| == 16 ==> |h(x)| == 16
    ghost witness SameBlock

  //////////////////////////////////////////////////////////////////////////////
  // Counter mode
  //////////////////////////////////////////////////////////////////////////////

  /** The counter block T_j: a 64-bit nonce and the 64-bit block number. */
  function CounterBlock(nonce: nat, j: nat): (t: seq<byte>)
    ensures |t| == 16
  {
    BeEnc(nonce, 8) + BeEnc(j, 8)
  }

  /** Octet n of the key stream. */
  function KeyStream(key: BlockCipher, nonce: nat, n: nat): byte {
    key(CounterBlock(nonce, n / 16))[n % 16]
  }

  /** The octets x at position n of the stream, encrypted or decrypted. */
  function Ctr(key: BlockCipher, nonce: nat, n: nat, x: seq<byte>): (y: seq<byte>)
    ensures |y| == |x|
  {
    seq(|x|, i requires 0 <= i < |x| => Xor8(x[i], KeyStream(key, nonce, n + i)))
  }

  /** No counter block comes twice in a stream. */
  lemma CountersDiffer(nonce: nat, i: nat, j: nat)
    requires i < TWO64 && j < TWO64 && CounterBlock(nonce, i) == CounterBlock(nonce, j)
    ensures i == j
  {
    hide BeEnc, BeNat, Pow256;
    Pow256Of8();
    assert CounterBlock(nonce, i)[8..] == BeEnc(i, 8) && CounterBlock(nonce, j)[8..] == BeEnc(j, 8);
    BeEncRoundTrip(i, 8);
    BeEncRoundTrip(j, 8);
  }

  /** Cutting the data anywhere gives the same octets. */
  lemma CtrConcat(key: BlockCipher, nonce: nat, n: nat, x: seq<byte>, y: seq<byte>)
    ensures Ctr(key, nonce, n, x + y) == Ctr(key, nonce, n, x) + Ctr(key, nonce, n + |x|, y)
  {
    hide KeyStream;
    var a, b := Ctr(key, nonce, n, x + y), Ctr(key, nonce, n, x) + Ctr(key, nonce, n + |x|, y);
    forall i | 0 <= i < |a|
      ensures a[i] == b[i]
    {
      if i >= |x| {
        assert n + |x| + (i - |x|) == n + i;
      }
    }
  }

  lemma XorTwice(a: byte, b: byte)
    ensures Xor8(Xor8(a, b), b) == a
  {
  }

  /** Encrypting twice from the same position restores the data. */
  lemma CtrTwice(key: BlockCipher, nonce: nat, n: nat, x: seq<byte>)
    ensures Ctr(key, nonce, n, Ctr(key, nonce, n, x)) == x
  {
    hide KeyStream, Xor8;
    forall i | 0 <= i < |x|
      ensures Ctr(key, nonce, n, Ctr(key, nonce, n, x))[i] == x[i]
    {
      XorTwice(x[i], KeyStream(key, nonce, n + i));
    }
  }

  /** Section 6.5, block by block from block j; the last block may be short. */
  ghost function CtrMode(key: BlockCipher, nonce: nat, j: nat, x: seq<byte>): (y: seq<byte>)
    ensures |y| == |x|
    decreases |x|
  {
    if |x| <= 16 then XorBytes(x, key(CounterBlock(nonce, j))[..|x|])
    else XorBytes(x[..16], key(CounterBlock(nonce, j))) + CtrMode(key, nonce, j + 1, x[16..])
  }

  /** Up to 16 octets inside one block of the key stream. */
  lemma OneBlock(key: BlockCipher, nonce: nat, n: nat, x: seq<byte>)
    requires n % 16 + |x| <= 16
    ensures Ctr(key, nonce, n, x) == XorBytes(x, key(CounterBlock(nonce, n / 16))[n % 16..n % 16 + |x|])
  {
    hide Xor8, CounterBlock;
    var k := key(CounterBlock(nonce, n / 16));
    forall i | 0 <= i < |x|
      ensures Ctr(key, nonce, n, x)[i] == XorBytes(x, k[n % 16..n % 16 + |x|])[i]
    {
      assert (n + i) / 16 == n / 16 && (n + i) % 16 == n % 16 + i;
    }
  }

  /** The stream from its start is counter mode. */
  lemma {:induction false} CtrIsCtrMode(key: BlockCipher, nonce: nat, j: nat, x: seq<byte>)
    ensures Ctr(key, nonce, 16 * j, x) == CtrMode(key, nonce, j, x)
    decreases |x|
  {
    hide Ctr, CounterBlock, XorBytes;
    assert 16 * j / 16 == j && 16 * j % 16 == 0;
    var k := key(CounterBlock(nonce, j));
    if |x| <= 16 {
      OneBlock(key, nonce, 16 * j, x);
      assert k[0..|x|] == k[..|x|];
    } else {
      assert x == x[..16] + x[16..];
      CtrConcat(key, nonce, 16 * j, x[..16], x[16..]);
      OneBlock(key, nonce, 16 * j, x[..16]);
      assert k[0..16] == k;
      CtrIsCtrMode(key, nonce, j + 1, x[16..]);
    }
  }

  //////////////////////////////////////////////////////////////////////////////
  // Lemmas for the lazy counter and for the position in the caller's buffers
  //////////////////////////////////////////////////////////////////////////////

  /** Incrementing the last octet of an encoding, unless it wraps, encodes the next integer. */
  lemma NextCounter(b: nat)
    requires ToByte(b) != 0xff
    ensures BeEnc(b + 1, 8) == BeEnc(b, 8)[..7] + [BeEnc(b, 8)[7] + 1]
    ensures BeEnc(b, 8)[7] != 0xff
  {
    hide BeEnc;
    NextByte(b);
    assert b / 256 == (b + 1) / 256;
    LastOctet(b);
    LastOctet(b + 1);
  }

  /** The counter block for b, from the one for b - 1, when the last octet does not wrap. */
  lemma Increment(nonce: nat, b: nat, was: seq<byte>)
    requires |was| == 16 && was[15] != 0xff && b >= 1
    requires was[..8] == BeEnc(nonce, 8) && was[8..] == BeEnc(b - 1, 8)
    ensures was[15 := was[15] + 1] == CounterBlock(nonce, b)
  {
    hide BeEnc, ToByte;
    LastOctet(b - 1);
    assert was[8..][7] == was[15];
    NextCounter(b - 1);
    assert was[15 := was[15] + 1] == was[..8] + (was[8..][..7] + [was[8..][7] + 1]);
  }

  lemma LastOctet(b: nat)
    ensures BeEnc(b, 8) == BeEnc(b / 256, 7) + [ToByte(b)]
  {
  }

  lemma ByteValNext(b: byte)
    requires b != 0xff
    ensures ByteVal(b + 1) == ByteVal(b) + 1
  {
    assert (b + 1) as nat == b as nat + 1;
  }

  lemma NextByte(b: nat)
    requires ToByte(b) != 0xff
    ensures b % 256 != 255 && ToByte(b + 1) == ToByte(b) + 1
  {
    hide ToByte, ByteVal;
    ToByteVal(b);
    ToByteVal(b + 1);
    ByteValNext(ToByte(b));
    Successor(b % 256, b);
    ByteValInjective(ToByte(b + 1), ToByte(b) + 1);
  }

  lemma Successor(m: nat, b: nat)
    requires m == b % 256
    ensures m != 255 ==> (b + 1) % 256 == m + 1
  {
  }

  /**
   j octets of a call are done: the caller's buffers held s and d before it and hold s0 and d0 now.  What is
   left to read is still as it was, also when the call works in place.
   */
  ghost predicate Done(key: BlockCipher, nonce: nat, n: nat, s: seq<byte>, d: seq<byte>, io: nat, oo: nat, len: nat,
                       same: bool, j: nat, s0: seq<byte>, d0: seq<byte>)
  {
    && io + len <= |s| == |s0| && oo + len <= |d| && j <= len
    && (if same then s == d && io == oo && s0 == d0 else s0 == s)
    && d0 == Put(d, oo, Ctr(key, nonce, n, s[io..io + j]))
    && s0[io + j..io + len] == s[io + j..io + len]
  }

  lemma DoneNone(key: BlockCipher, nonce: nat, n: nat, s: seq<byte>, d: seq<byte>, io: nat, oo: nat, len: nat,
                 same: bool)
    requires io + len <= |s| && oo + len <= |d| && (same ==> s == d && io == oo)
    ensures Done(key, nonce, n, s, d, io, oo, len, same, 0, s, d)
  {
    Nothing(d, oo, key, nonce, n, s[io..io]);
  }

  lemma DoneResult(key: BlockCipher, nonce: nat, n: nat, s: seq<byte>, d: seq<byte>, io: nat, oo: nat, len: nat,
                   same: bool, j: nat, s0: seq<byte>, d0: seq<byte>)
    requires Done(key, nonce, n, s, d, io, oo, len, same, j, s0, d0)
    ensures io + j <= |s| && oo + j <= |d| && d0 == Put(d, oo, Ctr(key, nonce, n, s[io..io + j]))
  {
  }

  /** m more octets after the first j. */
  lemma DoneMore(key: BlockCipher, nonce: nat, n: nat, s: seq<byte>, d: seq<byte>, io: nat, oo: nat, len: nat,
                 same: bool, j: nat, s0: seq<byte>, d0: seq<byte>, m: nat, s1: seq<byte>, d1: seq<byte>)
    requires Done(key, nonce, n, s, d, io, oo, len, same, j, s0, d0)
    requires j + m <= len && if same then s1 == d1 else s1 == s0
    requires io + j + m <= |s0| && oo + j + m <= |d0|
    requires d1 == Put(d0, oo + j, Ctr(key, nonce, n + j, s0[io + j..io + j + m]))
    ensures Done(key, nonce, n, s, d, io, oo, len, same, j + m, s1, d1)
  {
    hide Put, Ctr;
    var x := s[io..io + len];
    Parts(s, x, io, len, j, m);
    NextPart(s0, x, io, len, j, m);
    assert x[..j + m] == x[..j] + x[j..j + m];
    CtrConcat(key, nonce, n, x[..j], x[j..j + m]);
    PutJoin(d, oo, Ctr(key, nonce, n, x[..j]), Ctr(key, nonce, n + j, x[j..j + m]));
    Untouched(s0, d0, io, oo, len, j, m, same, Ctr(key, nonce, n + j, x[j..j + m]));
  }

  lemma Parts(s: seq<byte>, x: seq<byte>, io: nat, len: nat, j: nat, m: nat)
    requires io + len <= |s| && x == s[io..io + len] && j + m <= len
    ensures s[io..io + j] == x[..j] && s[io..io + (j + m)] == x[..j + m] && s[io + j..io + len] == x[j..]
  {
  }

  lemma NextPart(s: seq<byte>, x: seq<byte>, io: nat, len: nat, k: nat, m: nat)
    requires io + len <= |s| && |x| == len && k + m <= len && s[io + k..io + len] == x[k..]
    ensures s[io + k..io + k + m] == x[k..k + m] && s[io + k + m..io + len] == x[k + m..]
  {
    assert s[io + k..io + k + m] == s[io + k..io + len][..m] && x[k..k + m] == x[k..][..m];
    assert s[io + k + m..io + len] == s[io + k..io + len][m..] && x[k + m..] == x[k..][m..];
  }

  /** The octets not yet read are not changed by writing at the same position, even in place. */
  lemma Untouched(s: seq<byte>, d: seq<byte>, io: nat, oo: nat, len: nat, k: nat, m: nat, same: bool, y: seq<byte>)
    requires io + len <= |s| && oo + len <= |d| && k + m <= len && |y| == m
    requires same ==> s == d && io == oo
    ensures same ==> Put(d, oo + k, y)[io + k + m..io + len] == s[io + k + m..io + len]
  {
  }

  lemma Nothing(out: seq<byte>, oo: nat, key: BlockCipher, nonce: nat, n: nat, x: seq<byte>)
    requires oo <= |out| && x == []
    ensures Put(out, oo, Ctr(key, nonce, n, x)) == out
  {
  }

  //////////////////////////////////////////////////////////////////////////////
  // The stream
  //////////////////////////////////////////////////////////////////////////////

  /** load_si64: 64 bits from memory; what the upper half holds is not defined. */
  function LoadSi64(m: seq<byte>, upper: seq<byte>): (v: seq<byte>)
    requires |m| == 8 && |upper| == 8
    ensures |v| == 16
  {
    m + upper
  }

  /** _mm_unpacklo_epi64 */
  function UnpackLoEpi64(a: seq<byte>, b: seq<byte>): (v: seq<byte>)
    requires |a| == 16 && |b| == 16
    ensures |v| == 16
  {
    a[..8] + b[..8]
  }

  /** dst = src ^ the octets of the block from bytemod on; src and dst may be the same area. */
  method XorFrom(src: array<byte>, io: nat, dst: array<byte>, oo: nat, nbytes: nat, buf: array<byte>, bytemod: nat)
    requires io + nbytes <= src.Length && oo + nbytes <= dst.Length && bytemod + nbytes <= buf.Length
    requires src == dst ==> io == oo
    requires dst != buf
    modifies dst
    ensures dst[..] == Put(old(dst[..]), oo, XorBytes(old(src[io..io + nbytes]), buf[bytemod..bytemod + nbytes]))
  {
    hide Put, Xor8;
    ghost var x, d := src[io..io + nbytes], dst[..];
    for i := 0 to nbytes
      invariant forall j | oo <= j < oo + i :: dst[j] == Xor8(x[j - oo], buf[bytemod + (j - oo)])
      invariant forall j | 0 <= j < dst.Length && !(oo <= j < oo + i) :: dst[j] == d[j]
    {
      dst[oo + i] := Xor8(src[io + i], buf[bytemod + i]);
    }
    PutIs(d, dst[..], oo, XorBytes(x, buf[bytemod..bytemod + nbytes]));
  }

  class Stream {
    var key: BlockCipher
    var bytectr: nat
    const buf: array<byte>
    const pblk: array<byte>

    /** The nonce is in place, pblk holds the last block used, and buf holds the block in use, if one is. */
    ghost predicate Valid(nonce: nat)
      reads this, buf, pblk
    {
      && buf.Length == 16 && pblk.Length == 16 && buf != pblk
      && bytectr < TWO64
      && pblk[..8] == BeEnc(nonce, 8)
      && (if bytectr == 0 then pblk[15] == 0xff else pblk[8..] == BeEnc((bytectr - 1) / 16, 8))
      && (bytectr % 16 != 0 ==> buf[..] == key(CounterBlock(nonce, bytectr / 16)))
    }

    /** The octet at bytectr is in buf. */
    ghost predicate Current(nonce: nat)
      reads this, buf, pblk
    {
      && buf.Length == 16 && pblk.Length == 16 && buf != pblk
      && bytectr < TWO64
      && pblk[..] == CounterBlock(nonce, bytectr / 16)
      && buf[..] == key(CounterBlock(nonce, bytectr / 16))
    }

    /** The caller's buffers, at offsets io and oo: they are the stream's own neither, and identical if they overlap. */
    ghost predicate Buffers(src: array<byte>, io: nat, dst: array<byte>, oo: nat, len: nat)
      reads this
    {
      && io + len <= src.Length && oo + len <= dst.Length
      && (src == dst ==> io == oo)
      && src != buf && src != pblk && dst != buf && dst != pblk
    }

    /** crypto_aesctr_init */
    constructor (key: BlockCipher, nonce: nat)
      ensures Valid(nonce) && bytectr == 0 && this.key == key && fresh(buf) && fresh(pblk)
    {
      this.key := key;
      buf := new byte[16];
      pblk := new byte[16];
      bytectr := 0;
      new;
      Init2(None, nonce);
    }

    /** crypto_aesctr_init2 */
    method Init2(newKey: Option<BlockCipher>, nonce: nat)
      requires buf.Length == 16 && pblk.Length == 16 && buf != pblk
      modifies this, pblk
      ensures Valid(nonce) && bytectr == 0
      ensures key == if newKey.Some? then newKey.value else old(key)
    {
      if newKey.Some? {
        key := newKey.value;
      }
      var e := BeEnc(nonce, 8);
      forall k | 0 <= k < 8 {
        pblk[k] := e[k];
      }
      bytectr := 0;
      pblk[15] := 0xff;
    }

    /** crypto_aesctr_stream_cipherblock_generate */
    method Generate(ghost nonce: nat)
      requires Valid(nonce) && bytectr % 16 == 0
      modifies buf, pblk
      ensures Current(nonce)
    {
      hide BeEnc, ToByte;
      ghost var b := bytectr / 16;
      ghost var was := pblk[..];
      pblk[15] := pblk[15] + 1;
      if pblk[15] == 0 {
        var e := BeEnc(bytectr / 16, 8);
        forall k | 8 <= k < 16 {
          pblk[k] := e[k - 8];
        }
        assert pblk[8..] == e;
        assert pblk[..8] == was[..8];
      } else {
        assert pblk[..] == was[15 := was[15] + 1];
        Increment(nonce, b, was);
      }
      assert pblk[..] == pblk[..8] + pblk[8..];
      var c := key(pblk[..]);
      forall k | 0 <= k < 16 {
        buf[k] := c[k];
      }
      assert buf[..] == c;
    }

    /** crypto_aesctr_stream_cipherblock_use, without the moving of the caller's positions */
    method Use(ghost nonce: nat, src: array<byte>, io: nat, dst: array<byte>, oo: nat, nbytes: nat, bytemod: nat)
      requires Current(nonce) && Buffers(src, io, dst, oo, nbytes)
      requires bytemod == bytectr % 16 && bytemod + nbytes <= 16 && bytemod + nbytes > 0
      requires bytectr + nbytes < TWO64
      modifies this`bytectr, dst
      ensures Valid(nonce) && bytectr == old(bytectr) + nbytes
      ensures dst[..] == Put(old(dst[..]), oo, Ctr(key, nonce, old(bytectr), old(src[io..io + nbytes])))
    {
      hide BeEnc, Put, Ctr, XorBytes;
      ghost var x := src[io..io + nbytes];
      XorFrom(src, io, dst, oo, nbytes, buf, bytemod);
      OneBlock(key, nonce, bytectr, x);
      bytectr := bytectr + nbytes;
      assert (bytectr - 1) / 16 == old(bytectr) / 16;
    }

    /** crypto_aesctr_stream_pre_wholeblock: the rest of the block in use; k octets are done. */
    method PreWholeBlock(ghost nonce: nat, src: array<byte>, io: nat, dst: array<byte>, oo: nat, len: nat)
      returns (k: nat, done: bool)
      requires Valid(nonce) && Buffers(src, io, dst, oo, len) && bytectr + len < TWO64
      modifies this`bytectr, dst
      ensures k <= len && Valid(nonce) && bytectr == old(bytectr) + k
      ensures done ==> k == len
      ensures !done ==> bytectr % 16 == 0
      ensures dst[..] == Put(old(dst[..]), oo, Ctr(key, nonce, old(bytectr), old(src[io..io + k])))
    {
      hide BeEnc, Put, Ctr, CounterBlock;
      var bytemod := bytectr % 16;
      if bytemod != 0 {
        InUse(nonce);
        if bytemod + len <= 16 {
          Use(nonce, src, io, dst, oo, len, bytemod);
          return len, true;
        }
        k := 16 - bytemod;
        Use(nonce, src, io, dst, oo, k, bytemod);
      } else {
        k := 0;
        Nothing(dst[..], oo, key, nonce, bytectr, src[io..io]);
      }
      done := false;
    }

    lemma InUse(nonce: nat)
      requires Valid(nonce) && bytectr % 16 != 0
      ensures Current(nonce)
    {
      hide BeEnc;
      assert (bytectr - 1) / 16 == bytectr / 16;
      assert pblk[..] == pblk[..8] + pblk[8..];
    }

    /** crypto_aesctr_stream_post_wholeblock: the octets after the last whole block. */
    method PostWholeBlock(ghost nonce: nat, src: array<byte>, io: nat, dst: array<byte>, oo: nat, len: nat)
      requires Valid(nonce) && Buffers(src, io, dst, oo, len) && bytectr + len < TWO64
      requires bytectr % 16 == 0 && len < 16
      modifies this`bytectr, buf, pblk, dst
      ensures Valid(nonce) && bytectr == old(bytectr) + len
      ensures dst[..] == Put(old(dst[..]), oo, Ctr(key, nonce, old(bytectr), old(src[io..io + len])))
    {
      hide BeEnc, Put, Ctr, CounterBlock;
      if len > 0 {
        Generate(nonce);
        Use(nonce, src, io, dst, oo, len, 0);
      } else {
        Nothing(dst[..], oo, key, nonce, bytectr, src[io..io]);
      }
    }

    /** One whole block at octet k of a call. */
    method SoftwareBlock(ghost nonce: nat, src: array<byte>, io: nat, dst: array<byte>, oo: nat, len: nat, k: nat,
                         ghost n: nat, ghost s: seq<byte>, ghost d: seq<byte>)
      requires Valid(nonce) && Buffers(src, io, dst, oo, len) && bytectr == n + k && n + len < TWO64
      requires bytectr % 16 == 0 && k + 16 <= len
      requires Done(key, nonce, n, s, d, io, oo, len, src == dst, k, src[..], dst[..])
      modifies this`bytectr, buf, pblk, dst
      ensures Valid(nonce) && bytectr == n + (k + 16) && bytectr % 16 == 0
      ensures Done(key, nonce, n, s, d, io, oo, len, src == dst, k + 16, src[..], dst[..])
    {
      hide BeEnc, Put, Ctr, CounterBlock, Valid, Done;
      ghost var s0, d0 := src[..], dst[..];
      Generate(nonce);
      assert src[io + k..io + k + 16] == s0[io + k..io + k + 16];
      Use(nonce, src, io + k, dst, oo + k, 16, 0);
      DoneMore(key, nonce, n, s, d, io, oo, len, src == dst, k, s0, d0, 16, src[..], dst[..]);
    }

    /** The loop over whole blocks of crypto_aesctr_stream; k octets are done. */
    method SoftwareBlocks(ghost nonce: nat, src: array<byte>, io: nat, dst: array<byte>, oo: nat, len: nat)
      returns (k: nat)
      requires Valid(nonce) && Buffers(src, io, dst, oo, len) && bytectr + len < TWO64
      requires bytectr % 16 == 0
      modifies this`bytectr, buf, pblk, dst
      ensures k <= len < k + 16 && bytectr % 16 == 0 && Valid(nonce) && bytectr == old(bytectr) + k
      ensures dst[..] == Put(old(dst[..]), oo, Ctr(key, nonce, old(bytectr), old(src[io..io + k])))
    {
      hide BeEnc, Put, Ctr, CounterBlock, Valid, Done;
      ghost var s, d, n := src[..], dst[..], bytectr;
      k := 0;
      DoneNone(key, nonce, n, s, d, io, oo, len, src == dst);
      while len - k >= 16
        invariant k <= len && bytectr % 16 == 0 && Valid(nonce) && bytectr == n + k
        invariant Done(key, nonce, n, s, d, io, oo, len, src == dst, k, src[..], dst[..])
        decreases len - k
      {
        SoftwareBlock(nonce, src, io, dst, oo, len, k, n, s, d);
        k := k + 16;
      }
      DoneResult(key, nonce, n, s, d, io, oo, len, src == dst, k, src[..], dst[..]);
    }

    /** One round of the loop of crypto_aesctr_aesni_stream_wholeblocks; bytectr and pblk are not written. */
    method VectorBlock(ghost nonce: nat, ghost n: nat, src: array<byte>, io: nat, dst: array<byte>, oo: nat,
                       nonceBe: seq<byte>, counterBe: seq<byte>, upper: seq<byte>)
      requires Buffers(src, io, dst, oo, 16) && n % 16 == 0
      requires |nonceBe| == 16 && nonceBe[..8] == BeEnc(nonce, 8) && |upper| == 8
      requires counterBe == BeEnc(n / 16, 8)
      modifies dst
      ensures dst[..] == Put(old(dst[..]), oo, Ctr(key, nonce, n, old(src[io..io + 16])))
    {
      hide BeEnc, Put, Ctr, CounterBlock, XorBytes;
      var bufsse := LoadSi64(counterBe, upper);
      bufsse := UnpackLoEpi64(nonceBe, bufsse);
      VectorCounter(nonce, n / 16, nonceBe, upper);
      bufsse := key(bufsse);
      var inbufsse := src[io..io + 16];
      bufsse := XorBytes(inbufsse, bufsse);
      OneBlock(key, nonce, n, inbufsse);
      WholeSlice(key(CounterBlock(nonce, n / 16)), n % 16);
      MemStore(dst, oo, bufsse);
    }

    /** The same round at octet k of a call. */
    method VectorStep(ghost nonce: nat, src: array<byte>, io: nat, dst: array<byte>, oo: nat, len: nat, k: nat,
                      nonceBe: seq<byte>, counterBe: seq<byte>, upper: seq<byte>,
                      ghost n: nat, ghost s: seq<byte>, ghost d: seq<byte>)
      requires Buffers(src, io, dst, oo, len) && (n + k) % 16 == 0 && k + 16 <= len
      requires |nonceBe| == 16 && nonceBe[..8] == BeEnc(nonce, 8) && |upper| == 8
      requires counterBe == BeEnc((n + k) / 16, 8)
      requires Done(key, nonce, n, s, d, io, oo, len, src == dst, k, src[..], dst[..])
      modifies dst
      ensures Done(key, nonce, n, s, d, io, oo, len, src == dst, k + 16, src[..], dst[..])
    {
      hide BeEnc, Put, Ctr, CounterBlock, Done;
      ghost var s0, d0 := src[..], dst[..];
      assert src[io + k..io + k + 16] == s0[io + k..io + k + 16];
      VectorBlock(nonce, n + k, src, io + k, dst, oo + k, nonceBe, counterBe, upper);
      DoneMore(key, nonce, n, s, d, io, oo, len, src == dst, k, s0, d0, 16, src[..], dst[..]);
    }

    lemma NonceInPlace(nonce: nat)
      requires Valid(nonce)
      ensures pblk.Length == 16 && pblk[..8] == BeEnc(nonce, 8)
    {
    }

    /** crypto_aesctr_aesni_stream_wholeblocks: buf is never written. */
    method VectorBlocks(ghost nonce: nat, src: array<byte>, io: nat, dst: array<byte>, oo: nat, len: nat,
                        upper: seq<byte>)
      returns (k: nat)
      requires Valid(nonce) && Buffers(src, io, dst, oo, len) && bytectr + len < TWO64
      requires bytectr % 16 == 0 && len >= 16 && |upper| == 8
      modifies this`bytectr, pblk, dst
      ensures k <= len < k + 16 && bytectr % 16 == 0 && Valid(nonce) && bytectr == old(bytectr) + k
      ensures dst[..] == Put(old(dst[..]), oo, Ctr(key, nonce, old(bytectr), old(src[io..io + k])))
    {
      hide BeEnc, Put, Ctr, CounterBlock, Done, Valid;
      NonceInPlace(nonce);
      ghost var s, d, n, same := src[..], dst[..], bytectr, src == dst;
      var nonceBe := LoadSi64(pblk[..8], upper);
      var blockCounter := bytectr / 16;
      var numBlocks := len / 16;
      var i := numBlocks;
      var counterBe := [];
      k := 0;
      DoneNone(key, nonce, n, s, d, io, oo, len, same);
      while i > 0
        invariant Valid(nonce) && bytectr == n && k % 16 == 0 && 0 <= i <= numBlocks && k == 16 * (numBlocks - i)
        invariant blockCounter == (n + k) / 16
        invariant i < numBlocks ==> counterBe == BeEnc(blockCounter - 1, 8)
        invariant Done(key, nonce, n, s, d, io, oo, len, same, k, src[..], dst[..])
        decreases i
      {
        counterBe := BeEnc(blockCounter, 8);
        VectorStep(nonce, src, io, dst, oo, len, k, nonceBe, counterBe, upper, n, s, d);
        blockCounter := blockCounter + 1;
        k := k + 16;
        i := i - 1;
      }
      DoneResult(key, nonce, n, s, d, io, oo, len, same, k, src[..], dst[..]);
      SetBlocks(nonce, counterBe, numBlocks);
    }

    /** The end of crypto_aesctr_aesni_stream_wholeblocks: the last counter used is put into pblk. */
    method SetBlocks(ghost nonce: nat, counterBe: seq<byte>, numBlocks: nat)
      requires Valid(nonce) && bytectr % 16 == 0 && bytectr + 16 * numBlocks < TWO64 && numBlocks > 0
      requires counterBe == BeEnc(bytectr / 16 + numBlocks - 1, 8)
      modifies this`bytectr, pblk
      ensures Valid(nonce) && bytectr == old(bytectr) + 16 * numBlocks
    {
      hide BeEnc, Put, CounterBlock;
      ghost var p := pblk[..];
      MemStore(pblk, 8, counterBe);
      SecondHalf(p, counterBe);
      assert pblk[..8] == pblk[..][..8] && pblk[8..] == pblk[..][8..];
      bytectr := bytectr + 16 * numBlocks;
      assert (bytectr - 1) / 16 == old(bytectr) / 16 + numBlocks - 1;
    }

    /** The end of a call of which k octets are done and less than a block is left. */
    method Finish(ghost nonce: nat, src: array<byte>, io: nat, dst: array<byte>, oo: nat, len: nat, k: nat,
                  ghost n: nat, ghost s: seq<byte>, ghost d: seq<byte>)
      requires Valid(nonce) && Buffers(src, io, dst, oo, len) && bytectr == n + k && n + len < TWO64
      requires bytectr % 16 == 0 && k <= len < k + 16
      requires Done(key, nonce, n, s, d, io, oo, len, src == dst, k, src[..], dst[..])
      modifies this`bytectr, buf, pblk, dst
      ensures Valid(nonce) && bytectr == n + len && io + len <= |s| && oo + len <= |d|
      ensures dst[..] == Put(d, oo, Ctr(key, nonce, n, s[io..io + len]))
    {
      hide BeEnc, Put, Ctr, CounterBlock, Valid, Done;
      ghost var s2, d2 := src[..], dst[..];
      PostWholeBlock(nonce, src, io + k, dst, oo + k, len - k);
      DoneMore(key, nonce, n, s, d, io, oo, len, src == dst, k, s2, d2, len - k, src[..], dst[..]);
      DoneResult(key, nonce, n, s, d, io, oo, len, src == dst, len, src[..], dst[..]);
    }

    /** crypto_aesctr_aesni_stream */
    method VectorStream(ghost nonce: nat, src: array<byte>, io: nat, dst: array<byte>, oo: nat, len: nat,
                        upper: seq<byte>)
      requires Valid(nonce) && Buffers(src, io, dst, oo, len) && bytectr + len < TWO64 && |upper| == 8
      modifies this`bytectr, buf, pblk, dst
      ensures Valid(nonce) && bytectr == old(bytectr) + len
      ensures dst[..] == Put(old(dst[..]), oo, Ctr(key, nonce, old(bytectr), old(src[io..io + len])))
    {
      hide BeEnc, Put, Ctr, CounterBlock, Valid, Done;
      ghost var s, d, n, same := src[..], dst[..], bytectr, src == dst;
      DoneNone(key, nonce, n, s, d, io, oo, len, same);
      var k, done := PreWholeBlock(nonce, src, io, dst, oo, len);
      DoneMore(key, nonce, n, s, d, io, oo, len, same, 0, s, d, k, src[..], dst[..]);
      if !done {
        ghost var s1, d1 := src[..], dst[..];
        if len - k >= 16 {
          var m := VectorBlocks(nonce, src, io + k, dst, oo + k, len - k, upper);
          DoneMore(key, nonce, n, s, d, io, oo, len, same, k, s1, d1, m, src[..], dst[..]);
          k := k + m;
        }
        Finish(nonce, src, io, dst, oo, len, k, n, s, d);
      } else {
        DoneResult(key, nonce, n, s, d, io, oo, len, same, len, src[..], dst[..]);
      }
    }

    /** crypto_aesctr_stream: short calls and calls without AESNI take the software path. */
    method CryptStream(ghost nonce: nat, aesni: bool, src: array<byte>, io: nat, dst: array<byte>, oo: nat, len: nat,
                       upper: seq<byte>)
      requires Valid(nonce) && Buffers(src, io, dst, oo, len) && bytectr + len < TWO64 && |upper| == 8
      modifies this`bytectr, buf, pblk, dst
      ensures Valid(nonce) && bytectr == old(bytectr) + len
      ensures dst[..] == Put(old(dst[..]), oo, Ctr(key, nonce, old(bytectr), old(src[io..io + len])))
    {
      hide BeEnc, Put, Ctr, CounterBlock, Valid, Done;
      if len >= 16 && aesni {
        VectorStream(nonce, src, io, dst, oo, len, upper);
        return;
      }
      ghost var s, d, n, same := src[..], dst[..], bytectr, src == dst;
      DoneNone(key, nonce, n, s, d, io, oo, len, same);
      var k, done := PreWholeBlock(nonce, src, io, dst, oo, len);
      DoneMore(key, nonce, n, s, d, io, oo, len, same, 0, s, d, k, src[..], dst[..]);
      if !done {
        ghost var s1, d1 := src[..], dst[..];
        var m := SoftwareBlocks(nonce, src, io + k, dst, oo + k, len - k);
        DoneMore(key, nonce, n, s, d, io, oo, len, same, k, s1, d1, m, src[..], dst[..]);
        k := k + m;
        Finish(nonce, src, io, dst, oo, len, k, n, s, d);
      } else {
        DoneResult(key, nonce, n, s, d, io, oo, len, same, len, src[..], dst[..]);
      }
    }
  }

  lemma VectorCounter(nonce: nat, b: nat, nonceBe: seq<byte>, upper: seq<byte>)
    requires |nonceBe| == 16 && nonceBe[..8] == BeEnc(nonce, 8) && |upper| == 8
    ensures UnpackLoEpi64(nonceBe, LoadSi64(BeEnc(b, 8), upper)) == CounterBlock(nonce, b)
  {
    hide BeEnc;
    assert (BeEnc(b, 8) + upper)[..8] == BeEnc(b, 8);
  }

  lemma WholeSlice(c: seq<byte>, m: nat)
    requires |c| == 16 && m == 0
    ensures c[m..m + 16] == c
  {
  }

  lemma SecondHalf(p: seq<byte>, c: seq<byte>)
    requires |p| == 16 && |c| == 8
    ensures Put(p, 8, c)[..8] == p[..8] && Put(p, 8, c)[8..] == c
  {
  }

  /** crypto_aesctr_buf */
  method AesCtrBuf(key: BlockCipher, nonce: nat, aesni: bool, src: array<byte>, io: nat, dst: array<byte>, oo: nat,
                   len: nat, upper: seq<byte>)
    requires io + len <= src.Length && oo + len <= dst.Length && (src == dst ==> io == oo)
    requires len < TWO64 && |upper| == 8
    modifies dst
    ensures dst[..] == Put(old(dst[..]), oo, Ctr(key, nonce, 0, old(src[io..io + len])))
  {
    var stream := new Stream(key, nonce);
    stream.CryptStream(nonce, aesni, src, io, dst, oo, len, upper);
  }
}

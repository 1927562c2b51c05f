/** HMAC as specified in section 2 of RFC 2104, and the HMAC_SHA256 functions of libcperciva/alg/sha256.c. */
module Hmac {
  import opened Bytes
  import opened Mem
  import Sha256Ctx
  import opened Sha256Spec

  //////////////////////////////////////////////////////////////////////////////
  // RFC 2104, section 2, with B = 64 and L = 32
  //////////////////////////////////////////////////////////////////////////////

  function Repeat(b: byte, n: nat): (s: seq<byte>)
    ensures |s| == n
  {
    seq(n, i => b)
  }

  /** A key longer than a block is hashed first; the result is padded with zeros to a block. */
  ghost function ShortKey(K: seq<byte>): (k: seq<byte>)
    ensures |k| <= 64
  {
    if |K| > 64 then Sha256(K) else K
  }

  ghost function BlockKey(K: seq<byte>): (k: seq<byte>)
    ensures |k| == 64
  {
    ShortKey(K) + Zeros(64 - |ShortKey(K)|)
  }

  ghost function Ipad(K: seq<byte>): (k: seq<byte>)
    ensures |k| == 64
  {
    XorBytes(BlockKey(K), Repeat(0x36, 64))
  }

  ghost function Opad(K: seq<byte>): (k: seq<byte>)
    ensures |k| == 64
  {
    XorBytes(BlockKey(K), Repeat(0x5c, 64))
  }

  ghost function HmacSha256(K: seq<byte>, m: seq<byte>): (t: seq<byte>)
    ensures |t| == 32
  {
    Sha256(Opad(K) + Sha256(Ipad(K) + m))
  }

  //////////////////////////////////////////////////////////////////////////////
  // The context
  //////////////////////////////////////////////////////////////////////////////

  /** The pad after the key octets have been xored into its start. */
  lemma PadIs(k: seq<byte>, b: byte)
    requires |k| <= 64
    ensures Put(Repeat(b, 64), 0, XorBytes(Repeat(b, |k|), k)) == XorBytes(k + Zeros(64 - |k|), Repeat(b, 64))
  {
  }

  /** memset of a block, and the key octets xored into it. */
  method FillPad(pad: array<byte>, b: byte, K: array<byte>, off: nat, Klen: nat)
    requires pad.Length == 64 && Klen <= 64 && off + Klen <= K.Length && pad != K
    modifies pad
    ensures pad[..] == XorBytes(K[off..off + Klen] + Zeros(64 - Klen), Repeat(b, 64))
  {
    hide Xor8;
    forall i | 0 <= i < 64 {
      pad[i] := b;
    }
    for i := 0 to Klen
      invariant forall j | 0 <= j < i :: pad[j] == Xor8(b, K[off + j])
      invariant forall j | i <= j < 64 :: pad[j] == b
    {
      pad[i] := Xor8(pad[i], K[off + i]);
    }
    assert pad[..] == Put(Repeat(b, 64), 0, XorBytes(Repeat(b, Klen), K[off..off + Klen]));
    PadIs(K[off..off + Klen], b);
  }

  /** A context that has absorbed the key, padded with zeros and xored with b. */
  method AbsorbPad(ctx: Sha256Ctx.Sha256Context, pad: array<byte>, b: byte, K: array<byte>, off: nat, Klen: nat)
    requires ctx.Valid() && pad.Length == 64 && Klen <= 64 && off + Klen <= K.Length
    requires pad != K && pad != ctx.buf && K != ctx.buf
    modifies ctx, ctx.state, ctx.buf, pad
    ensures ctx.Absorbed(XorBytes(K[off..off + Klen] + Zeros(64 - Klen), Repeat(b, 64)))
  {
    hide Sha256Ctx.Sha256Context.Absorbed, XorBytes, Zeros;
    ctx.Init();
    FillPad(pad, b, K, off, Klen);
    ctx.Update([], pad, 0, 64);
    assert [] + pad[0..64] == pad[..];
  }

  class HmacContext {
    const ictx: Sha256Ctx.Sha256Context
    const octx: Sha256Ctx.Sha256Context

    ghost const Repr: set<object>

    ghost predicate Valid()
      reads Repr
    {
      && Repr == {ictx, ictx.state, ictx.buf, octx, octx.state, octx.buf}
      && ictx != octx && ictx.state != octx.state && ictx.buf != octx.buf
      && ictx.Valid() && octx.Valid()
    }

    /** The key is K and the octets put in since Init are m. */
    ghost predicate Absorbed(K: seq<byte>, m: seq<byte>)
      reads Repr
      ensures Absorbed(K, m) ==> Valid()
    {
      Valid() && ictx.Absorbed(Ipad(K) + m) && octx.Absorbed(Opad(K))
    }

    constructor (hwaccel: bool)
      ensures Valid() && fresh(Repr)
    {
      var i := new Sha256Ctx.Sha256Context(hwaccel);
      var o := new Sha256Ctx.Sha256Context(hwaccel);
      ictx, octx := i, o;
      Repr := {i, i.state, i.buf, o, o.state, o.buf};
    }

    /** HMAC_SHA256_Init_internal */
    method Init(K: array<byte>, off: nat, Klen: nat)
      requires Valid() && off + Klen <= K.Length && K !in Repr
      modifies Repr
      ensures Absorbed(K[off..off + Klen], [])
    {
      hide Sha256Ctx.Sha256Context.Absorbed, Sha256, XorBytes, Zeros, Put;
      ghost var k := K[off..off + Klen];
      var key, at, len := K, off, Klen;
      if Klen > 64 {
        key := HashKey(K, off, Klen);
        at, len := 0, 32;
      }
      assert key[at..at + len] == ShortKey(k);
      var pad := new byte[64];
      AbsorbPad(ictx, pad, 0x36, key, at, len);
      assert Ipad(k) == Ipad(k) + [];
      AbsorbPad(octx, pad, 0x5c, key, at, len);
    }

    /** The hash of a long key, computed in the inner context. */
    method HashKey(K: array<byte>, off: nat, Klen: nat) returns (khash: array<byte>)
      requires Valid() && off + Klen <= K.Length && K !in Repr
      modifies ictx, ictx.state, ictx.buf
      ensures Valid() && fresh(khash) && khash[..] == Sha256(K[off..off + Klen])
    {
      hide Sha256Ctx.Holds, Sha256;
      khash := new byte[32];
      ictx.Init();
      ictx.Update([], K, off, Klen);
      assert [] + K[off..off + Klen] == K[off..off + Klen];
      ictx.Final(K[off..off + Klen], khash, 0);
    }

    /** HMAC_SHA256_Update */
    method Update(ghost K: seq<byte>, ghost m: seq<byte>, src: array<byte>, off: nat, len: nat)
      requires Absorbed(K, m) && off + len <= src.Length && src !in Repr
      modifies Repr
      ensures Absorbed(K, m + src[off..off + len])
    {
      hide Sha256Ctx.Holds, Ipad, Opad;
      ictx.Update(Ipad(K) + m, src, off, len);
      assert (Ipad(K) + m) + src[off..off + len] == Ipad(K) + (m + src[off..off + len]);
    }

    /** HMAC_SHA256_Final */
    method Final(ghost K: seq<byte>, ghost m: seq<byte>, digest: array<byte>, off: nat)
      requires Absorbed(K, m) && off + 32 <= digest.Length && digest !in Repr
      modifies Repr, digest
      ensures Valid() && digest[..] == Put(old(digest[..]), off, HmacSha256(K, m))
    {
      hide Sha256Ctx.Holds, Sha256, Ipad, Opad, Put;
      var ihash := new byte[32];
      ghost var z, inner := ihash[..], Sha256(Ipad(K) + m);
      ictx.Final(Ipad(K) + m, ihash, 0);
      assert ihash[0..32] == inner by { PutAll(z, inner); }
      octx.Update(Opad(K), ihash, 0, 32);
      octx.Final(Opad(K) + inner, digest, off);
    }

    /** memcpy of a whole context. */
    method CopyFrom(ghost K: seq<byte>, ghost m: seq<byte>, that: HmacContext)
      requires Valid() && that.Absorbed(K, m) && Repr !! that.Repr
      modifies Repr
      ensures Absorbed(K, m)
    {
      hide Sha256Ctx.Sha256Context.Absorbed, Ipad, Opad;
      ictx.CopyFrom(Ipad(K) + m, that.ictx);
      octx.CopyFrom(Opad(K), that.octx);
    }
  }

  /** HMAC_SHA256_Buf */
  method HmacSha256Buf(hwaccel: bool, K: array<byte>, Klen: nat, src: array<byte>, len: nat, digest: array<byte>,
                       at: nat)
    requires Klen <= K.Length && len <= src.Length && at + 32 <= digest.Length
    modifies digest
    ensures digest[..] == Put(old(digest[..]), at, HmacSha256(old(K[..Klen]), old(src[..len])))
  {
    hide HmacSha256, Put, Ipad, Opad, Sha256Ctx.Holds;
    var ctx := new HmacContext(hwaccel);
    ctx.Init(K, 0, Klen);
    assert K[0..Klen] == K[..Klen];
    ctx.Update(K[..Klen], [], src, 0, len);
    assert [] + src[0..len] == src[..len];
    ctx.Final(K[..Klen], src[..len], digest, at);
  }
}

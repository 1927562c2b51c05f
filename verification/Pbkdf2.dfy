/** PBKDF2 with HMAC-SHA256 as specified in section 5.2 of RFC 8018, and PBKDF2_SHA256 of libcperciva/alg/sha256.c. */
module Pbkdf2 {
  import Bits
  import opened Bytes
  import opened Hmac
  import opened Mem

  //////////////////////////////////////////////////////////////////////////////
  // RFC 8018, section 5.2, with hLen = 32
  //////////////////////////////////////////////////////////////////////////////

  /** U_j of block i. */
  ghost function U(P: seq<byte>, S: seq<byte>, i: nat, j: nat): (u: seq<byte>)
    requires j >= 1
    ensures |u| == 32
    decreases j
  {
    if j == 1 then HmacSha256(P, S + BeEnc(i, 4)) else HmacSha256(P, U(P, S, i, j - 1))
  }

  /** U_1 xor ... xor U_c. */
  ghost function F(P: seq<byte>, S: seq<byte>, c: nat, i: nat): (t: seq<byte>)
    requires c >= 1
    ensures |t| == 32
    decreases c
  {
    if c == 1 then U(P, S, i, 1) else XorBytes(F(P, S, c - 1, i), U(P, S, i, c))
  }

  /** T_1 || ... || T_l. */
  ghost function Blocks(P: seq<byte>, S: seq<byte>, c: nat, l: nat): (b: seq<byte>)
    requires c >= 1
    ensures |b| == 32 * l
    decreases l
  {
    if l == 0 then [] else Blocks(P, S, c, l - 1) + F(P, S, c, l)
  }

  /** The number of blocks, the last of which may be cut short. */
  function BlockCount(dkLen: nat): (l: nat)
    ensures 32 * l >= dkLen && (dkLen > 0 ==> 32 * (l - 1) < dkLen)
  {
    (dkLen + 31) / 32
  }

  ghost function Pbkdf2(P: seq<byte>, S: seq<byte>, c: nat, dkLen: nat): (dk: seq<byte>)
    requires c >= 1
    ensures |dk| == dkLen
  {
    Blocks(P, S, c, BlockCount(dkLen))[..dkLen]
  }

  lemma {:induction false} BlocksPrefix(P: seq<byte>, S: seq<byte>, c: nat, k: nat, l: nat)
    requires c >= 1 && k <= l
    ensures Blocks(P, S, c, l)[..32 * k] == Blocks(P, S, c, k)
    decreases l
  {
    hide F;
    if k < l {
      BlocksPrefix(P, S, c, k, l - 1);
      assert Blocks(P, S, c, l)[..32 * k] == Blocks(P, S, c, l - 1)[..32 * k];
    }
  }

  /** A shorter key is the start of a longer one. */
  lemma KeyPrefix(P: seq<byte>, S: seq<byte>, c: nat, k: nat, l: nat)
    requires c >= 1 && k <= l
    ensures Pbkdf2(P, S, c, k) == Pbkdf2(P, S, c, l)[..k]
  {
    hide F, Blocks;
    BlocksPrefix(P, S, c, BlockCount(k), BlockCount(l));
  }

  lemma GetStart(s: seq<byte>, n: nat)
    requires n <= |s|
    ensures Get(s, 0, n) == s[..n]
  {
  }

  //////////////////////////////////////////////////////////////////////////////
  // PBKDF2_SHA256
  //////////////////////////////////////////////////////////////////////////////

  /** The iteration count in effect: the first block is always computed. */
  function Rounds(c: nat): (n: nat)
    ensures n >= 1
  {
    if c == 0 then 1 else c
  }

  /** i * 32 as a size_t. */
  function BlockOffset(SIZE_MAX: nat, i: nat): nat {
    i * 32 % (SIZE_MAX + 1)
  }

  /** The loop over blocks can end if and only if dkLen is not within 31 of the end of size_t. */
  lemma BlocksEnd(SIZE_MAX: nat, dkLen: nat)
    requires SIZE_MAX == SIZE32 || SIZE_MAX == SIZE64
    ensures (exists i: nat :: BlockOffset(SIZE_MAX, i) >= dkLen) <==> dkLen <= SIZE_MAX - 31
  {
    if dkLen <= SIZE_MAX - 31 {
      var i := BlockCount(dkLen);
      assert BlockOffset(SIZE_MAX, i) >= dkLen;
    } else {
      forall i: nat
        ensures BlockOffset(SIZE_MAX, i) < dkLen
      {
        OffsetBelow(SIZE_MAX, i);
      }
    }
  }

  lemma OffsetBelow(SIZE_MAX: nat, i: nat)
    requires SIZE_MAX == SIZE32 || SIZE_MAX == SIZE64
    ensures BlockOffset(SIZE_MAX, i) <= SIZE_MAX - 31
  {
    var q := i * 32 / (SIZE_MAX + 1);
    assert BlockOffset(SIZE_MAX, i) == 32 * (i - q * ((SIZE_MAX + 1) / 32));
  }

  /** The guard of the loop over U_j, for a 64-bit j. */
  predicate Continues(j: nat, c: nat)
    requires j < TWO64
  {
    j <= c
  }

  /** That loop can end if and only if the iteration count is not the largest 64-bit integer. */
  lemma RoundsEnd(c: nat)
    requires c < TWO64
    ensures (exists j: nat | j < TWO64 :: !Continues(j, c)) <==> c != TWO64 - 1
  {
    if c != TWO64 - 1 {
      assert !Continues(TWO64 - 1, c);
    }
  }

  /** T ^= U */
  method XorInto(T: array<byte>, u: array<byte>)
    requires T.Length == 32 && u.Length == 32 && T != u
    modifies T
    ensures T[..] == XorBytes(old(T[..]), u[..])
  {
    hide Xor8;
    for k := 0 to 32
      invariant forall j | 0 <= j < k :: T[j] == Xor8(old(T[j]), u[j])
      invariant forall j | k <= j < 32 :: T[j] == old(T[j])
    {
      T[k] := Xor8(T[k], u[k]);
    }
  }

  lemma NextU(P: seq<byte>, S: seq<byte>, i: nat, j: nat)
    requires j >= 2
    ensures U(P, S, i, j) == HmacSha256(P, U(P, S, i, j - 1))
    ensures F(P, S, j, i) == XorBytes(F(P, S, j - 1, i), U(P, S, i, j))
  {
    hide HmacSha256;
  }

  /** Contexts that share no memory. */
  ghost predicate Apart(a: HmacContext, b: HmacContext, arrays: set<object>)
    reads a, b
  {
    a.Repr !! b.Repr && arrays !! a.Repr && arrays !! b.Repr
  }

  /** The pseudorandom function, restarted from a context that has already absorbed the key and m. */
  method Prf(ghost P: seq<byte>, ghost m: seq<byte>, ctx: HmacContext, hctx: HmacContext,
             src: array<byte>, len: nat, u: array<byte>)
    requires ctx.Absorbed(P, m) && hctx.Valid() && Apart(ctx, hctx, {src, u})
    requires u.Length == 32 && len <= src.Length
    modifies hctx.Repr, u
    ensures hctx.Valid() && u[..] == HmacSha256(P, m + old(src[..len]))
  {
    hide HmacSha256, Sha256Ctx.Holds, Ipad, Opad, Put;
    hctx.CopyFrom(P, m, ctx);
    hctx.Update(P, m, src, 0, len);
    assert src[0..len] == src[..len];
    ghost var z := u[..];
    hctx.Final(P, m + src[..len], u, 0);
    PutAll(z, HmacSha256(P, m + old(src[..len])));
  }

  /** U_1, from the context that has absorbed the password and the salt. */
  method FirstU(ghost P: seq<byte>, ghost S: seq<byte>, i: nat, saltedCtx: HmacContext, hctx: HmacContext,
                u: array<byte>)
    requires 1 <= i < TWO32
    requires saltedCtx.Absorbed(P, S) && hctx.Valid() && Apart(saltedCtx, hctx, {u})
    requires u.Length == 32
    modifies hctx.Repr, u
    ensures hctx.Valid() && u[..] == U(P, S, i, 1)
  {
    hide HmacContext.Valid, HmacContext.Absorbed, HmacSha256, Put, Get, BeEnc, XorBytes, U, F;
    var ivec := new byte[4];
    ghost var z := ivec[..];
    MemStore(ivec, 0, BeEnc(i, 4));
    PutAll(z, BeEnc(i, 4));
    assert ivec[..4] == ivec[..];
    Prf(P, S, saltedCtx, hctx, ivec, 4, u);
    OneU(P, S, i);
  }

  lemma OneU(P: seq<byte>, S: seq<byte>, i: nat)
    ensures U(P, S, i, 1) == HmacSha256(P, S + BeEnc(i, 4)) && F(P, S, 1, i) == U(P, S, i, 1)
  {
    hide HmacSha256, BeEnc;
  }

  /** T_i: U_1 xored with the others, each from the context that has absorbed only the password. */
  method Block(ghost P: seq<byte>, ghost S: seq<byte>, i: nat, c: nat,
               keyedCtx: HmacContext, saltedCtx: HmacContext, hctx: HmacContext, u: array<byte>, T: array<byte>)
    requires 1 <= i < TWO32 && c < TWO64 - 1
    requires keyedCtx.Absorbed(P, []) && saltedCtx.Absorbed(P, S) && hctx.Valid()
    requires Apart(keyedCtx, hctx, {u, T}) && Apart(saltedCtx, hctx, {u, T})
    requires u.Length == 32 && T.Length == 32 && u != T
    modifies hctx.Repr, u, T
    ensures hctx.Valid() && T[..] == F(P, S, Rounds(c), i)
  {
    hide HmacContext.Valid, HmacContext.Absorbed, HmacSha256, Put, Get, BeEnc, XorBytes, U, F;
    FirstU(P, S, i, saltedCtx, hctx, u);
    OneU(P, S, i);
    ghost var z := T[..];
    MemCpy(T, 0, u, 0, 32);
    CopyStart(z, u[..], 32);
    assert T[..32] == T[..] && u[..32] == u[..];
    var j := 2;
    while Continues(j, c)
      invariant 2 <= j <= Rounds(c) + 1
      invariant hctx.Valid() && keyedCtx.Absorbed(P, [])
      invariant u[..] == U(P, S, i, j - 1) && T[..] == F(P, S, j - 1, i)
      decreases TWO64 - j
    {
      assert u[..32] == u[..] && [] + u[..] == u[..];
      Prf(P, [], keyedCtx, hctx, u, 32, u);
      XorInto(T, u);
      NextU(P, S, i, j);
      j := (j + 1) % TWO64;
    }
  }

  /** One more block copied to the output, cut to the length still wanted. */
  lemma NextBlock(P: seq<byte>, S: seq<byte>, c: nat, dkLen: nat, i: nat, buf: seq<byte>, off: nat, clen: nat)
    requires c >= 1 && 32 * i < dkLen && off + dkLen <= |buf|
    requires clen == if dkLen - 32 * i > 32 then 32 else dkLen - 32 * i
    ensures off + 32 * i + clen <= |buf|
    ensures Put(Put(buf, off, Blocks(P, S, c, i)), off + 32 * i, F(P, S, c, i + 1)[..clen])
         == Put(buf, off, Blocks(P, S, c, i + 1)[..32 * i + clen])
  {
    hide F, Put;
    PutJoin(buf, off, Blocks(P, S, c, i), F(P, S, c, i + 1)[..clen]);
    assert Blocks(P, S, c, i + 1)[..32 * i + clen] == Blocks(P, S, c, i) + F(P, S, c, i + 1)[..clen];
  }

  /** The contexts after the password, and after the password and the salt. */
  method Prefixes(hwaccel: bool, passwd: array<byte>, passwdlen: nat, salt: array<byte>, saltlen: nat)
    returns (keyedCtx: HmacContext, saltedCtx: HmacContext)
    requires passwdlen <= passwd.Length && saltlen <= salt.Length
    ensures fresh(keyedCtx.Repr) && fresh(saltedCtx.Repr)
    ensures keyedCtx.Absorbed(passwd[..passwdlen], []) && saltedCtx.Absorbed(passwd[..passwdlen], salt[..saltlen])
  {
    hide HmacContext.Valid, HmacContext.Absorbed;
    keyedCtx := new HmacContext(hwaccel);
    keyedCtx.Init(passwd, 0, passwdlen);
    assert passwd[0..passwdlen] == passwd[..passwdlen];
    saltedCtx := new HmacContext(hwaccel);
    saltedCtx.CopyFrom(passwd[..passwdlen], [], keyedCtx);
    saltedCtx.Update(passwd[..passwdlen], [], salt, 0, saltlen);
    assert [] + salt[0..saltlen] == salt[..saltlen];
  }

  /** One block computed and copied to the output, cut to the length still wanted. */
  method OutputBlock(ghost P: seq<byte>, ghost S: seq<byte>, i: nat, c: nat, keyedCtx: HmacContext,
                     saltedCtx: HmacContext,
                     hctx: HmacContext, u: array<byte>, T: array<byte>,
                     buf: array<byte>, off: nat, dkLen: nat, ghost b0: seq<byte>)
    returns (clen: nat)
    requires i + 1 < TWO32 && c < TWO64 - 1 && i * 32 < dkLen && off + dkLen <= buf.Length == |b0|
    requires keyedCtx.Absorbed(P, []) && saltedCtx.Absorbed(P, S) && hctx.Valid()
    requires Apart(keyedCtx, hctx, {u, T}) && Apart(saltedCtx, hctx, {u, T})
    requires u.Length == 32 && T.Length == 32 && u != T && buf !in {u, T} + hctx.Repr
    requires buf[..] == Put(b0, off, Blocks(P, S, Rounds(c), i))
    modifies hctx.Repr, u, T, buf
    ensures hctx.Valid() && clen == if dkLen - 32 * i > 32 then 32 else dkLen - 32 * i
    ensures buf[..] == Put(b0, off, Blocks(P, S, Rounds(c), i + 1)[..32 * i + clen])
  {
    hide HmacContext.Valid, HmacContext.Absorbed, HmacSha256, Put, Get, BeEnc, XorBytes, U, F, Blocks, Rounds;
    Block(P, S, i + 1, c, keyedCtx, saltedCtx, hctx, u, T);
    clen := dkLen - i * 32;
    if clen > 32 {
      clen := 32;
    }
    NextBlock(P, S, Rounds(c), dkLen, i, b0, off, clen);
    GetStart(T[..], clen);
    MemCpy(buf, off + i * 32, T, 0, clen);
  }

  lemma BeforeFirst(SIZE_MAX: nat)
    ensures BlockOffset(SIZE_MAX, 0) == 0
  {
  }

  /** The offset of the next block does not wrap. */
  lemma BeforeLast(SIZE_MAX: nat, dkLen: nat, i: nat)
    requires i * 32 < dkLen && dkLen + 31 <= SIZE_MAX
    ensures i < BlockCount(dkLen) && BlockOffset(SIZE_MAX, i + 1) == (i + 1) * 32
  {
    Bits.DivModUnique((i + 1) * 32, SIZE_MAX + 1, 0, (i + 1) * 32);
  }

  /** PBKDF2_SHA256, for every dkLen up to 32 * (2^32 - 1) and every count with which its loops end. */
  method Pbkdf2Sha256(SIZE_MAX: nat, hwaccel: bool, passwd: array<byte>, passwdlen: nat,
                      salt: array<byte>, saltlen: nat, c: nat, buf: array<byte>, off: nat, dkLen: nat)
    requires passwdlen <= passwd.Length && saltlen <= salt.Length && off + dkLen <= buf.Length
    requires c < TWO64 - 1 && dkLen <= 32 * (TWO32 - 1) && dkLen + 31 <= SIZE_MAX
    modifies buf
    ensures buf[..] == Put(old(buf[..]), off, Pbkdf2(old(passwd[..passwdlen]), old(salt[..saltlen]), Rounds(c), dkLen))
  {
    hide HmacContext.Valid, HmacContext.Absorbed, HmacSha256, Put, Get, BeEnc, XorBytes, U, F, Blocks, Rounds,
         BlockCount, BlockOffset;
    BeforeFirst(SIZE_MAX);
    ghost var P, S, b0, n := passwd[..passwdlen], salt[..saltlen], buf[..], Rounds(c);
    var keyedCtx, saltedCtx := Prefixes(hwaccel, passwd, passwdlen, salt, saltlen);
    var hctx := new HmacContext(hwaccel);
    var u, T := new byte[32], new byte[32];
    var i := 0;
    PutNothing(b0, off);
    assert Blocks(P, S, n, 0)[..0] == [];
    ghost var done := 0;
    while BlockOffset(SIZE_MAX, i) < dkLen
      invariant done == (if i * 32 < dkLen then i * 32 else dkLen) && i <= BlockCount(dkLen)
      invariant BlockOffset(SIZE_MAX, i) == i * 32
      invariant hctx.Valid() && keyedCtx.Absorbed(P, []) && saltedCtx.Absorbed(P, S)
      invariant buf[..] == Put(b0, off, Blocks(P, S, n, i)[..done])
      decreases BlockCount(dkLen) - i
    {
      assert Blocks(P, S, n, i)[..done] == Blocks(P, S, n, i);
      BeforeLast(SIZE_MAX, dkLen, i);
      var clen := OutputBlock(P, S, i, c, keyedCtx, saltedCtx, hctx, u, T, buf, off, dkLen, b0);
      i, done := i + 1, i * 32 + clen;
    }
  }
}

/** The routines of lib/scryptenc/scryptenc.c. */
module Container {
  import opened AesCtr
  import opened Bits
  import opened Bytes
  import opened ContainerSpec
  import opened Files
  import opened Hmac
  import opened Mem
  import PickParams
  import Scrypt
  import Sha256Ctx
  import Sha256Spec
  import opened Wrappers

  /** The width of size_t and the code that was selected for this processor. */
  datatype PlatformData = Platform(SIZE_MAX: nat, hwaccel: bool, aesni: bool, smix: Scrypt.Routine, upper: seq<byte>)

  type Platform = t: PlatformData | (t.SIZE_MAX == SIZE32 || t.SIZE_MAX == SIZE64) && |t.upper| == 8
    witness Platform(SIZE64, false, false, Scrypt.Generic, [0, 0, 0, 0, 0, 0, 0, 0])

  /** struct scryptenc_params, with what memtouse and scryptenc_cpuperf report for it. */
  class Params {
    const mem: PickParams.Measured<PickParams.Memory>
    const perf: PickParams.Speed
    const maxtime: real
    var logN: int
    var r: nat
    var p: nat

    constructor (mem: PickParams.Measured<PickParams.Memory>, perf: PickParams.Speed, maxtime: real,
                 logN: int, r: nat, p: nat)
      ensures this.mem == mem && this.perf == perf && this.maxtime == maxtime
      ensures this.logN == logN && this.r == r && this.p == p
    {
      this.mem, this.perf, this.maxtime := mem, perf, maxtime;
      this.logN, this.r, this.p := logN, r, p;
    }
  }

  //////////////////////////////////////////////////////////////////////////////
  // Comparing and authenticating octets
  //////////////////////////////////////////////////////////////////////////////

  function Or8(a: byte, b: byte): byte {
    a | b
  }

  lemma OrXorZero(rc: byte, a: byte, b: byte)
    ensures Or8(rc, Xor8(a, b)) == 0 <==> rc == 0 && a == b
  {
  }

  /** crypto_verify_bytes */
  method VerifyBytes(a: array<byte>, i: nat, b: array<byte>, j: nat, len: nat) returns (rc: byte)
    requires i + len <= a.Length && j + len <= b.Length
    ensures rc == 0 <==> a[i..i + len] == b[j..j + len]
  {
    hide Or8, Xor8;
    rc := 0;
    for k := 0 to len
      invariant rc == 0 <==> a[i..i + k] == b[j..j + k]
    {
      OrXorZero(rc, a[i + k], b[j + k]);
      assert a[i..i + (k + 1)] == a[i..i + k] + [a[i + k]];
      assert b[j..j + (k + 1)] == b[j..j + k] + [b[j + k]];
      rc := Or8(rc, Xor8(a[i + k], b[j + k]));
    }
  }

  /** HMAC_SHA256_Init with key_hmac, Update with the first n octets of src, and Final. */
  method Authenticate(hwaccel: bool, dk: array<byte>, src: array<byte>, n: nat, hbuf: array<byte>)
    requires dk.Length == 64 && n <= src.Length && hbuf.Length == 32
    modifies hbuf
    ensures hbuf[..] == HmacSha256(old(dk[32..]), old(src[..n]))
  {
    hide HmacContext.Valid, HmacContext.Absorbed, HmacSha256, Put;
    ghost var K, z := dk[32..], hbuf[..];
    var hctx := new HmacContext(hwaccel);
    hctx.Init(dk, 32, 32);
    assert dk[32..32 + 32] == K;
    hctx.Update(K, [], src, 0, n);
    assert [] + src[0..n] == src[..n];
    hctx.Final(K, src[..n], hbuf, 0);
    PutAll(z, HmacSha256(K, old(src[..n])));
  }

  /** SHA256_Init, Update with the first n octets of src, and Final. */
  method Hash(hwaccel: bool, src: array<byte>, n: nat, hbuf: array<byte>)
    requires n <= src.Length && hbuf.Length == 32
    modifies hbuf
    ensures hbuf[..] == Sha256Spec.Sha256(old(src[..n]))
  {
    hide Sha256Spec.Sha256, Put;
    ghost var z, x := hbuf[..], src[..n];
    Sha256Ctx.Sha256Buf(hwaccel, src, 0, n, hbuf, 0);
    assert x == old(src[0..n]);
    PutAll(z, Sha256Spec.Sha256(x));
  }

  /** crypto_scrypt into dk. */
  method DeriveKeys(t: Platform, passwd: array<byte>, passwdlen: nat, salt: array<byte>, logN: nat, r: nat, p: nat,
                    dk: array<byte>)
    returns (failed: bool)
    requires passwdlen <= passwd.Length && salt.Length == 32 && dk.Length == 64
    requires logN <= 63 && 1 <= r < TWO32 && p < TWO32
    modifies dk
    ensures failed <==> ScryptGate(t.SIZE_MAX, logN, r, p) != Scrypt.OK
    ensures failed ==> dk[..] == old(dk[..])
    ensures !failed ==> dk[..] == DerivedKeys(old(passwd[..passwdlen]), logN, r, p, old(salt[..]))
  {
    hide Scrypt.Gate, Scrypt.Acceptable, Scrypt.ScryptAsCoded, Scrypt.Scrypt, Pow2, Put;
    NFits(logN);
    ghost var z := dk[..];
    assert salt[..32] == salt[..];
    var errno := Scrypt.CryptoScryptInternal(t.SIZE_MAX, t.hwaccel, passwd, passwdlen, salt, 32, Pow2(logN), r, p, dk,
                                             64, t.smix);
    failed := errno != Scrypt.OK;
    if !failed {
      PutAll(z, Scrypt.ScryptAsCoded(old(passwd[..passwdlen]), old(salt[..]), Pow2(logN), r, p, 64));
    }
  }

  //////////////////////////////////////////////////////////////////////////////
  // Setting up
  //////////////////////////////////////////////////////////////////////////////

  /** Warnings about resource limits are not errors when parameters are given, and invalid ones have their own code. */
  function Explicit(rc: Code): Code {
    match rc
    case ETOOBIG | ETOOSLOW | EBIGSLOW => PickParams.OK
    case EINVAL => PickParams.EPARAM
    case _ => rc
  }

  /** The result of choosing or checking the parameters in scryptenc_setup. */
  function ParamCode(l: Limits, logN: int, r: nat, p: nat): Code {
    if logN != 0 then Explicit(CheckUnder(l, logN, r, p))
    else if l.mem.Failed? then PickParams.ELIMIT
    else if l.perf.Failed? then l.perf.code
    else PickParams.OK
  }

  /**
   Explicit parameters out of range have their own code; those in range are accepted whatever the known limits are, or
   if forced; only limits that are not known make them fail.
   */
  lemma ExplicitParams(l: Limits, logN: int, r: nat, p: nat)
    requires logN != 0
    ensures ParamCode(l, logN, r, p)
         == if !(1 <= logN <= 63 && r >= 1 && p >= 1 && r * p < 0x4000_0000) then PickParams.EPARAM
            else if l.force || (l.mem.Known? && l.perf.Known?) then PickParams.OK
            else if l.mem.Failed? then PickParams.ELIMIT
            else l.perf.code
  {
    hide CheckUnder, PickParams.MemoryFor, PickParams.OpsFor;
    VerdictUnder(l, logN, r, p);
  }

  /** The parameters in use: those given, or the best under the limits. */
  ghost predicate Chosen(l: Limits, logN0: int, r0: nat, p0: nat, logN: int, r: nat, p: nat) {
    && PickParams.InRange(logN, r, p) && r < TWO32 && p < TWO32
    && if logN0 != 0 then logN == logN0 && r == r0 && p == p0
       else
         && l.mem.Known? && l.perf.Known? && r == 8
         && PickParams.Best(l.mem.value, PickParams.OpsLimit(l.perf.value, l.maxtime), logN, r, p)
  }

  lemma AcceptedExplicit(l: Limits, logN: int, r: nat, p: nat)
    requires Explicit(CheckUnder(l, logN, r, p)).OK?
    ensures PickParams.InRange(logN, r, p)
  {
  }

  /** The result code of scryptenc_setup for the parameters in use. */
  function EncCode(SIZE_MAX: nat, code: Code, entropy: Option<seq<byte>>, logN: int, r: nat, p: nat): Code
    requires SIZE_MAX == SIZE32 || SIZE_MAX == SIZE64
    requires code.OK? ==> 1 <= logN <= 63
  {
    if !code.OK? then code
    else if entropy.None? then PickParams.ESALT
    else if ScryptGate(SIZE_MAX, logN, r, p) != Scrypt.OK then PickParams.EKEY
    else PickParams.OK
  }

  method ChooseParams(P: Params, force: bool) returns (rc: Code)
    requires (P.logN == 0 && P.r == 0 && P.p == 0) || (P.logN != 0 && P.r != 0 && P.p != 0)
    requires P.r < TWO32 && P.p < TWO32
    modifies P`logN, P`r, P`p
    ensures rc == old(ParamCode(Limits(P.mem, P.perf, P.maxtime, force), P.logN, P.r, P.p))
    ensures rc.OK? ==>
              Chosen(Limits(P.mem, P.perf, P.maxtime, force), old(P.logN), old(P.r), old(P.p), P.logN, P.r, P.p)
  {
    hide PickParams.Best, PickParams.Check;
    if P.logN != 0 {
      rc := CheckUnder(Limits(P.mem, P.perf, P.maxtime, force), P.logN, P.r, P.p);
      if Explicit(rc).OK? {
        AcceptedExplicit(Limits(P.mem, P.perf, P.maxtime, force), P.logN, P.r, P.p);
      }
      rc := Explicit(rc);
    } else {
      var logN, r, p;
      rc, logN, r, p := PickParams.Pick(P.mem, P.perf, P.maxtime);
      if rc.OK? {
        BestFits(P.mem.value, PickParams.OpsLimit(P.perf.value, P.maxtime), logN, r, p);
        P.logN, P.r, P.p := logN, r, p;
      }
    }
  }

  lemma BestFits(memlimit: nat, opslimit: real, logN: nat, r: nat, p: nat)
    requires PickParams.Best(memlimit, opslimit, logN, r, p) && r == 8
    ensures PickParams.InRange(logN, r, p) && p < TWO32
  {
  }

  /** A write at i, seen in the first octets of an array. */
  method Append(a: array<byte>, i: nat, x: seq<byte>)
    requires i + |x| <= a.Length
    modifies a
    ensures a[..i + |x|] == old(a[..i]) + x
  {
    ghost var s := a[..];
    MemStore(a, i, x);
    PutEnd(s, i, x);
    assert a[..i + |x|] == a[..][..i + |x|] && s[..i] == old(a[..i]);
  }

  /** The first 48 octets of the header that scryptenc_setup constructs. */
  method BuildPreamble(header: array<byte>, logN: nat, r: nat, p: nat, salt: array<byte>)
    requires header.Length == 96 && salt.Length == 32 && header != salt
    modifies header
    ensures header[..48] == Preamble(logN, r, p, salt[..])
  {
    hide BeEnc, ToByte;
    Append(header, 0, MAGIC);
    Append(header, 6, [0]);
    Append(header, 7, [ToByte(logN)]);
    Append(header, 8, BeEnc(r, 4));
    Append(header, 12, BeEnc(p, 4));
    Append(header, 16, salt[..]);
  }

  /** The header that scryptenc_setup constructs. */
  method BuildHeader(t: Platform, header: array<byte>, dk: array<byte>, logN: nat, r: nat, p: nat, salt: array<byte>)
    requires header.Length == 96 && dk.Length == 64 && salt.Length == 32
    requires header != dk && header != salt
    modifies header
    ensures header[..] == Signed(Preamble(logN, r, p, salt[..]), dk[..])
  {
    hide HmacSha256, Sha256Spec.Sha256, Preamble;
    BuildPreamble(header, logN, r, p, salt);
    var hbuf := new byte[32];
    Hash(t.hwaccel, header, 48, hbuf);
    Append(header, 48, hbuf[..16]);
    assert hbuf[..16] == hbuf[..][..16];
    Authenticate(t.hwaccel, dk, header, 64, hbuf);
    Append(header, 64, hbuf[..]);
    assert dk[32..] == dk[..][32..];
    assert header[..] == header[..96];
  }

  /** scryptenc_setup; entropy is what crypto_entropy_read delivers, if it succeeds. */
  method EncSetup(t: Platform, header: array<byte>, dk: array<byte>, passwd: array<byte>, passwdlen: nat,
                  P: Params, entropy: Option<seq<byte>>, force: bool)
    returns (rc: Code)
    requires header.Length == 96 && dk.Length == 64 && passwdlen <= passwd.Length
    requires header != dk && passwd != header && passwd != dk
    requires entropy.Some? ==> |entropy.value| == 32
    requires (P.logN == 0 && P.r == 0 && P.p == 0) || (P.logN != 0 && P.r != 0 && P.p != 0)
    requires P.r < TWO32 && P.p < TWO32
    modifies header, dk, P`logN, P`r, P`p
    ensures old(ParamCode(Limits(P.mem, P.perf, P.maxtime, force), P.logN, P.r, P.p)).OK? ==> 1 <= P.logN <= 63
    ensures rc == EncCode(t.SIZE_MAX, old(ParamCode(Limits(P.mem, P.perf, P.maxtime, force), P.logN, P.r, P.p)),
                          entropy, P.logN, P.r, P.p)
    ensures rc.OK? ==> entropy.Some?
    ensures rc.OK? ==>
              Chosen(Limits(P.mem, P.perf, P.maxtime, force), old(P.logN), old(P.r), old(P.p), P.logN, P.r, P.p)
    ensures rc.OK? ==> dk[..] == DerivedKeys(passwd[..passwdlen], P.logN, P.r, P.p, entropy.value)
    ensures rc.OK? ==> header[..] == Signed(Preamble(P.logN, P.r, P.p, entropy.value), dk[..])
  {
    hide PickParams.Best, PickParams.Check, Signed, Preamble, DerivedKeys, ScryptGate, CheckUnder;
    rc := ChooseParams(P, force);
    if !rc.OK? {
      return;
    }
    if entropy.None? {
      return PickParams.ESALT;
    }
    var salt := new byte[32](k requires 0 <= k < 32 => entropy.value[k]);
    assert salt[..] == entropy.value;
    var failed := DeriveKeys(t, passwd, passwdlen, salt, P.logN, P.r, P.p, dk);
    if failed {
      return PickParams.EKEY;
    }
    BuildHeader(t, header, dk, P.logN, P.r, P.p, salt);
  }

  /** P and the salt, parsed from a header. */
  method ParseHeader(header: array<byte>, P: Params) returns (salt: array<byte>)
    requires header.Length >= 96
    modifies P`logN, P`r, P`p
    ensures fresh(salt) && salt.Length == 32
    ensures P.logN == LogNOf(header[..96]) && P.r == ROf(header[..96]) && P.p == POf(header[..96])
    ensures salt[..] == SaltOf(header[..96])
  {
    hide Be32, ByteVal, WordVal;
    ghost var h := header[..96];
    P.logN := ByteVal(header[7]);
    P.r := WordVal(Be32(header[8], header[9], header[10], header[11]));
    P.p := WordVal(Be32(header[12], header[13], header[14], header[15]));
    assert P.r == ROf(h) && P.p == POf(h) && P.logN == LogNOf(h);
    salt := new byte[32];
    ghost var z := salt[..];
    MemCpy(salt, 0, header, 16, 32);
    CopiedSalt(z, header[..]);
    assert header[..][..96] == h;
  }

  /** The verification of the header checksum. */
  method ChecksumDiffers(t: Platform, header: array<byte>) returns (differ: bool)
    requires header.Length >= 96
    ensures differ <==> Sha256Spec.Sha256(header[..96][..48])[..16] != header[..96][48..64]
  {
    hide Sha256Spec.Sha256;
    var hbuf := new byte[32];
    Hash(t.hwaccel, header, 48, hbuf);
    assert header[..48] == header[..96][..48] && header[48..48 + 16] == header[..96][48..64];
    assert hbuf[0..16] == hbuf[..][..16];
    var rc := VerifyBytes(header, 48, hbuf, 0, 16);
    differ := rc != 0;
  }

  /** The verification of the header signature. */
  method SignatureDiffers(t: Platform, dk: array<byte>, header: array<byte>) returns (differ: bool)
    requires header.Length >= 96 && dk.Length == 64
    ensures differ <==> HmacSha256(dk[..][32..], header[..96][..64]) != header[..96][64..96]
  {
    hide HmacSha256;
    var hbuf := new byte[32];
    Authenticate(t.hwaccel, dk, header, 64, hbuf);
    assert header[..64] == header[..96][..64] && header[64..64 + 32] == header[..96][64..96];
    assert hbuf[0..0 + 32] == hbuf[..] && dk[32..] == dk[..][32..];
    var rc := VerifyBytes(hbuf, 0, header, 64, 32);
    differ := rc != 0;
  }

  /** scryptdec_setup on a header in the first 96 octets of an array. */
  method DecSetup(t: Platform, header: array<byte>, dk: array<byte>, passwd: array<byte>, passwdlen: nat,
                  P: Params, force: bool)
    returns (rc: Code)
    requires header.Length >= 96 && dk.Length == 64 && passwdlen <= passwd.Length
    requires header != dk && passwd != dk
    modifies dk, P`logN, P`r, P`p
    ensures P.logN == LogNOf(header[..96]) && P.r == ROf(header[..96]) && P.p == POf(header[..96])
    ensures SetupOf(t.SIZE_MAX, Limits(P.mem, P.perf, P.maxtime, force), passwd[..passwdlen], header[..96])
         == if rc.OK? then Ready(dk[..]) else Refused(rc)
  {
    hide Sha256Spec.Sha256, HmacSha256, DerivedKeys, ScryptGate, CheckUnder, LogNOf, ROf, POf, SaltOf;
    var salt := ParseHeader(header, P);
    var differ := ChecksumDiffers(t, header);
    if differ {
      return PickParams.EINVAL;
    }
    rc := CheckUnder(Limits(P.mem, P.perf, P.maxtime, force), P.logN, P.r, P.p);
    if !rc.OK? {
      return;
    }
    var failed := DeriveKeys(t, passwd, passwdlen, salt, P.logN, P.r, P.p, dk);
    if failed {
      return PickParams.EKEY;
    }
    differ := SignatureDiffers(t, dk, header);
    if differ {
      return PickParams.EPASS;
    }
  }

  lemma CopiedSalt(z: seq<byte>, h: seq<byte>)
    requires |z| == 32 && |h| >= 96
    ensures Put(z, 0, Get(h, 16, 32)) == SaltOf(h) == SaltOf(h[..96])
  {
  }

  //////////////////////////////////////////////////////////////////////////////
  // Whole buffers
  //////////////////////////////////////////////////////////////////////////////

  /** crypto_aesctr_init with key_enc and nonce 0, and one crypto_aesctr_stream. */
  method CryptAt(t: Platform, expand: Expand, dk: array<byte>, src: array<byte>, io: nat, dst: array<byte>, oo: nat,
                 len: nat)
    requires dk.Length == 64 && io + len <= src.Length && oo + len <= dst.Length && src != dst && dk != dst
    requires len < TWO64
    modifies dst
    ensures dst[..] == Put(old(dst[..]), oo, Ctr(expand(dk[..][..32]), 0, 0, src[io..io + len]))
  {
    hide Ctr, Put;
    assert dk[..32] == dk[..][..32];
    AesCtrBuf(expand(dk[..32]), 0, t.aesni, src, io, dst, oo, len, t.upper);
  }

  /** The authenticator, put after the first n octets of an array. */
  method AppendTag(t: Platform, dk: array<byte>, a: array<byte>, n: nat)
    requires dk.Length == 64 && n + 32 <= a.Length && dk != a
    modifies a
    ensures a[..n + 32] == old(a[..n]) + HmacSha256(dk[..][32..], old(a[..n]))
  {
    hide HmacSha256;
    var hbuf := new byte[32];
    Authenticate(t.hwaccel, dk, a, n, hbuf);
    assert dk[32..] == dk[..][32..];
    Append(a, n, hbuf[..]);
  }

  /** The sealed data, put together in the output buffer. */
  method SealInto(t: Platform, expand: Expand, header: array<byte>, dk: array<byte>,
                  inbuf: array<byte>, inbuflen: nat, outbuf: array<byte>)
    requires header.Length == 96 && dk.Length == 64 && inbuflen <= inbuf.Length && inbuflen + 128 <= outbuf.Length
    requires outbuf != header && outbuf != dk && outbuf != inbuf && inbuflen < TWO64
    modifies outbuf
    ensures outbuf[..inbuflen + 128] == Sealed(expand, header[..], dk[..], inbuf[..inbuflen])
  {
    hide Ctr, Put, HmacSha256;
    Append(outbuf, 0, header[..]);
    assert outbuf[..96] == header[..];
    ghost var s := outbuf[..];
    CryptAt(t, expand, dk, inbuf, 0, outbuf, 96, inbuflen);
    assert inbuf[0..0 + inbuflen] == inbuf[..inbuflen];
    PutEnd(s, 96, Ctr(expand(dk[..][..32]), 0, 0, inbuf[..inbuflen]));
    assert outbuf[..96 + inbuflen] == outbuf[..][..96 + inbuflen] && s[..96] == header[..];
    AppendTag(t, dk, outbuf, 96 + inbuflen);
    assert 96 + inbuflen + 32 == inbuflen + 128;
  }

  /** scryptenc_buf */
  method EncBuf(t: Platform, expand: Expand, inbuf: array<byte>, inbuflen: nat, outbuf: array<byte>,
                passwd: array<byte>, passwdlen: nat, P: Params, entropy: Option<seq<byte>>, force: bool)
    returns (rc: Code)
    requires inbuflen <= inbuf.Length && inbuflen + 128 <= outbuf.Length && inbuflen < TWO64
    requires passwdlen <= passwd.Length && outbuf != inbuf
    requires entropy.Some? ==> |entropy.value| == 32
    requires (P.logN == 0 && P.r == 0 && P.p == 0) || (P.logN != 0 && P.r != 0 && P.p != 0)
    requires P.r < TWO32 && P.p < TWO32
    modifies outbuf, P`logN, P`r, P`p
    ensures old(ParamCode(Limits(P.mem, P.perf, P.maxtime, force), P.logN, P.r, P.p)).OK? ==> 1 <= P.logN <= 63
    ensures rc == EncCode(t.SIZE_MAX, old(ParamCode(Limits(P.mem, P.perf, P.maxtime, force), P.logN, P.r, P.p)),
                          entropy, P.logN, P.r, P.p)
    ensures rc.OK? ==> entropy.Some?
    ensures rc.OK? ==>
              Chosen(Limits(P.mem, P.perf, P.maxtime, force), old(P.logN), old(P.r), old(P.p), P.logN, P.r, P.p)
    ensures rc.OK? ==>
              outbuf[..inbuflen + 128]
              == Encrypted(expand, old(passwd[..passwdlen]), P.logN, P.r, P.p, entropy.value, inbuf[..inbuflen])
    ensures !rc.OK? ==> outbuf[..] == old(outbuf[..])
  {
    hide PickParams.Best, PickParams.Check, Preamble, Signed, Sealed, DerivedKeys, ScryptGate, CheckUnder;
    var header, dk := new byte[96], new byte[64];
    rc := EncSetup(t, header, dk, passwd, passwdlen, P, entropy, force);
    if rc.OK? {
      SealInto(t, expand, header, dk, inbuf, inbuflen, outbuf);
    }
  }

  /** Verifying the authenticator of the first len octets of an array. */
  method TagDiffers(t: Platform, dk: array<byte>, a: array<byte>, len: nat) returns (differ: bool)
    requires dk.Length == 64 && 32 <= len <= a.Length
    ensures differ <==> HmacSha256(dk[..][32..], a[..len][..len - 32]) != a[..len][len - 32..]
  {
    hide HmacSha256;
    var hbuf := new byte[32];
    Authenticate(t.hwaccel, dk, a, len - 32, hbuf);
    assert dk[32..] == dk[..][32..] && a[..len - 32] == a[..len][..len - 32];
    assert a[len - 32..len - 32 + 32] == a[..len][len - 32..] && hbuf[0..0 + 32] == hbuf[..];
    var rc := VerifyBytes(hbuf, 0, a, len - 32, 32);
    differ := rc != 0;
  }

  lemma MiddleOfTake(s: seq<byte>, n: nat, a: nat, b: nat)
    requires a <= b <= n <= |s|
    ensures s[..n][a..b] == s[a..b]
  {
  }

  /** memcmp with "scrypt". */
  method MagicDiffers(a: array<byte>) returns (differ: bool)
    requires a.Length >= 6
    ensures differ <==> a[..6] != MAGIC
  {
    differ := a[..6] != MAGIC;
  }

  /** P holds the parameters of encrypted data. */
  ghost predicate Reported(P: Params, I: seq<byte>)
    requires |I| >= 128
    reads P
  {
    P.logN == LogNOf(I) && P.r == ROf(I) && P.p == POf(I)
  }

  lemma SetupReadsHeader(SIZE_MAX: nat, l: Limits, passwd: seq<byte>, I: seq<byte>)
    requires (SIZE_MAX == SIZE32 || SIZE_MAX == SIZE64) && |I| >= 96
    ensures SetupOf(SIZE_MAX, l, passwd, I) == SetupOf(SIZE_MAX, l, passwd, I[..96])
    ensures LogNOf(I) == LogNOf(I[..96]) && ROf(I) == ROf(I[..96]) && POf(I) == POf(I[..96])
  {
    hide DerivedKeys, Sha256Spec.Sha256, HmacSha256, ScryptGate, CheckUnder, Be32Val;
    var h := I[..96];
    assert I[..48] == h[..48] && I[48..64] == h[48..64] && I[..64] == h[..64] && I[64..96] == h[64..96];
    assert I[8..12] == h[8..12] && I[12..16] == h[12..16] && I[16..48] == h[16..48];
  }

  /** scryptdec_buf */
  method DecBuf(t: Platform, expand: Expand, inbuf: array<byte>, inbuflen: nat, outbuf: array<byte>,
                passwd: array<byte>, passwdlen: nat, P: Params, force: bool)
    returns (rc: Code, outlen: nat)
    requires inbuflen <= inbuf.Length && inbuflen <= outbuf.Length && inbuflen < TWO64
    requires passwdlen <= passwd.Length && outbuf != inbuf
    requires P.logN == 0 && P.r == 0 && P.p == 0
    modifies outbuf, P`logN, P`r, P`p
    ensures rc.OK? ==> outlen + 128 == inbuflen
    ensures rc.OK? ==> Reported(P, inbuf[..inbuflen])
    ensures BufOutcome(t.SIZE_MAX, Limits(P.mem, P.perf, P.maxtime, force), expand, old(passwd[..passwdlen]),
                       inbuf[..inbuflen])
         == if rc.OK? then Plain(outbuf[..outlen]) else Error(rc)
    ensures !rc.OK? ==> outbuf[..] == old(outbuf[..])
  {
    hide SetupOf, HmacSha256, Ctr, Put, LogNOf, ROf, POf;
    ghost var I, pw := inbuf[..inbuflen], passwd[..passwdlen];
    outlen := 0;
    if inbuflen < 7 {
      return PickParams.EINVAL, 0;
    }
    var differ := MagicDiffers(inbuf);
    assert inbuf[..6] == I[..6];
    if differ {
      return PickParams.EINVAL, 0;
    }
    if inbuf[6] != 0 {
      return PickParams.EVERSION, 0;
    }
    if inbuflen < 128 {
      return PickParams.EINVAL, 0;
    }
    var dk := new byte[64];
    rc := DecSetup(t, inbuf, dk, passwd, passwdlen, P, force);
    SetupReadsHeader(t.SIZE_MAX, Limits(P.mem, P.perf, P.maxtime, force), pw, I);
    assert inbuf[..96] == I[..96];
    if !rc.OK? {
      return;
    }
    differ := TagDiffers(t, dk, inbuf, inbuflen);
    if differ {
      return PickParams.EINVAL, 0;
    }
    outlen := inbuflen - 128;
    ghost var s := outbuf[..];
    CryptAt(t, expand, dk, inbuf, 96, outbuf, 0, outlen);
    assert 96 + outlen == |I| - 32;
    MiddleOfTake(inbuf[..], inbuflen, 96, 96 + outlen);
    assert inbuf[96..96 + outlen] == inbuf[..][96..96 + outlen] && I == inbuf[..][..inbuflen];
    PutEnd(s, 0, Ctr(expand(dk[..][..32]), 0, 0, I[96..|I| - 32]));
    assert outbuf[..outlen] == outbuf[..][..outlen];
  }

  //////////////////////////////////////////////////////////////////////////////
  // Files
  //////////////////////////////////////////////////////////////////////////////

  const ENCBLOCK: nat := 65536

  /** The header and the data encrypted so far. */
  ghost function SealedSoFar(key: BlockCipher, header: seq<byte>, m: seq<byte>): (c: seq<byte>)
    ensures |c| == |header| + |m|
  {
    header + Ctr(key, 0, 0, m)
  }

  lemma SealedMore(key: BlockCipher, header: seq<byte>, m: seq<byte>, x: seq<byte>)
    ensures SealedSoFar(key, header, m) + Ctr(key, 0, |m|, x) == SealedSoFar(key, header, m + x)
  {
    hide Ctr;
    CtrConcat(key, 0, 0, m, x);
  }

  /** Encrypting the start of a buffer in place. */
  method CryptInPlace(t: Platform, stream: Stream, buf: array<byte>, len: nat)
    requires stream.Valid(0) && len <= buf.Length && buf != stream.buf && buf != stream.pblk
    requires stream.bytectr + len < TWO64
    modifies stream`bytectr, stream.buf, stream.pblk, buf
    ensures stream.Valid(0) && stream.bytectr == old(stream.bytectr) + len
    ensures buf[..len] == Ctr(stream.key, 0, old(stream.bytectr), old(buf[..len]))
  {
    hide Ctr, Put, Stream.Valid;
    ghost var s, x := buf[..], buf[..len];
    assert buf[0..0 + len] == x;
    stream.CryptStream(0, t.aesni, buf, 0, buf, 0, len, t.upper);
    PutEnd(s, 0, Ctr(stream.key, 0, old(stream.bytectr), x));
    assert buf[..len] == buf[..][..len];
  }

  /** The octets that a read has put at the start of a buffer. */
  lemma ReadPart(s: seq<byte>, x: seq<byte>)
    requires |x| <= |s|
    ensures Put(s, 0, x)[..|x|] == x
  {
    PutEnd(s, 0, x);
  }

  /** One round of the loop of scryptenc_file: the octets x, just read, are encrypted in place, hashed and written. */
  method EncryptPart(t: Platform, stream: Stream, hctx: HmacContext, buf: array<byte>, len: nat, outfile: File,
                     ghost K: seq<byte>, ghost header: seq<byte>, ghost m: seq<byte>, ghost x: seq<byte>)
    returns (ok: bool)
    requires stream.Valid(0) && stream.bytectr == |m| && |m| + len < TWO64 && len <= buf.Length && buf[..len] == x
    requires hctx.Absorbed(K, SealedSoFar(stream.key, header, m))
    requires {buf, stream, stream.buf, stream.pblk, outfile} !! hctx.Repr
    requires buf != stream.buf && buf != stream.pblk && outfile.Fits()
    modifies stream`bytectr, stream.buf, stream.pblk, hctx.Repr, buf, outfile`content
    ensures stream.Valid(0) && stream.bytectr == |m + x|
    ensures hctx.Absorbed(K, SealedSoFar(stream.key, header, m + x))
    ensures outfile.Fits() && (ok <==> |old(outfile.content)| + len <= outfile.capacity)
    ensures outfile.content == Fill(outfile.capacity, old(outfile.content) + Ctr(stream.key, 0, |m|, x))
  {
    hide Fill, Ctr, Put, Stream.Valid, HmacContext.Valid, HmacContext.Absorbed, SealedSoFar;
    CryptInPlace(t, stream, buf, len);
    assert buf[0..0 + len] == buf[..len];
    SealedMore(stream.key, header, m, x);
    hctx.Update(K, SealedSoFar(stream.key, header, m), buf, 0, len);
    ok := outfile.Write(buf, 0, len);
  }

  /**
   The loop of scryptenc_file: reads of any length, each encrypted in place, hashed and written.  The message is
   what the file holds from start on.
   */
  method EncryptAll(t: Platform, stream: Stream, hctx: HmacContext, buf: array<byte>, infile: File, outfile: File,
                    ghost K: seq<byte>, ghost header: seq<byte>, ghost start: nat, ghost out0: seq<byte>)
    returns (ok: bool)
    requires infile != outfile && infile.Valid() && infile.pos == start && |infile.content| < TWO64
    requires buf.Length == ENCBLOCK && outfile.Fits()
    requires stream.Valid(0) && stream.bytectr == 0 && hctx.Absorbed(K, header) && outfile.content == out0 + header
    requires {buf, stream, stream.buf, stream.pblk, infile, outfile} !! hctx.Repr
    requires buf != stream.buf && buf != stream.pblk
    modifies stream`bytectr, stream.buf, stream.pblk, hctx.Repr, buf, infile`pos, outfile`content
    ensures outfile.Fits() && (ok <==> |out0 + SealedSoFar(stream.key, header, old(infile.Rest()))| <= outfile.capacity)
    ensures outfile.content == Fill(outfile.capacity, out0 + SealedSoFar(stream.key, header, old(infile.Rest())))
    ensures ok ==> hctx.Absorbed(K, SealedSoFar(stream.key, header, old(infile.Rest())))
  {
    hide Ctr, Put, Stream.Valid, HmacContext.Valid, HmacContext.Absorbed, SealedSoFar, Fill;
    ghost var content, key, m := infile.content, stream.key, [];
    SealedNone(key, header);
    while true
      invariant infile.Valid() && start <= infile.pos && m == content[start..infile.pos]
      invariant stream.Valid(0) && stream.bytectr == |m|
      invariant hctx.Absorbed(K, SealedSoFar(key, header, m))
      invariant outfile.Fits() && outfile.content == out0 + SealedSoFar(key, header, m)
      decreases infile.limit - infile.pos
    {
      ghost var s, pos := buf[..], infile.pos;
      var readlen := infile.Read(buf, 0, ENCBLOCK);
      if readlen == 0 {
        break;
      }
      ghost var x, rest := content[pos..infile.pos], content[infile.pos..infile.limit];
      ReadPart(s, x);
      assert buf[..readlen] == buf[..][..readlen] == x;
      ok := EncryptPart(t, stream, hctx, buf, readlen, outfile, K, header, m, x);
      WrittenMore(key, out0, header, m, x);
      m := m + x;
      if !ok {
        WrittenMore(key, out0, header, m, rest);
        FillStops(outfile.capacity, out0 + SealedSoFar(key, header, m), Ctr(key, 0, |m|, rest));
        assert m + rest == content[start..infile.limit];
        return;
      }
      FillAll(outfile.capacity, out0 + SealedSoFar(key, header, m));
    }
    FillAll(outfile.capacity, out0 + SealedSoFar(key, header, m));
    assert m == content[start..infile.limit];
    ok := true;
  }

  lemma WrittenMore(key: BlockCipher, out0: seq<byte>, header: seq<byte>, m: seq<byte>, x: seq<byte>)
    ensures out0 + SealedSoFar(key, header, m) + Ctr(key, 0, |m|, x) == out0 + SealedSoFar(key, header, m + x)
  {
    hide Ctr, SealedSoFar;
    SealedMore(key, header, m, x);
    assert out0 + SealedSoFar(key, header, m) + Ctr(key, 0, |m|, x)
        == out0 + (SealedSoFar(key, header, m) + Ctr(key, 0, |m|, x));
  }

  lemma SealedNone(key: BlockCipher, header: seq<byte>)
    ensures SealedSoFar(key, header, []) == header
  {
  }

  /** HMAC_SHA256_Init with key_hmac, and Update with the header. */
  method HashHeader(t: Platform, dk: array<byte>, header: array<byte>) returns (hctx: HmacContext)
    requires header.Length == 96 && dk.Length == 64
    ensures fresh(hctx) && fresh(hctx.Repr) && hctx.Absorbed(dk[..][32..], header[..])
  {
    hide HmacContext.Valid, HmacContext.Absorbed;
    ghost var K := dk[..][32..];
    hctx := new HmacContext(t.hwaccel);
    hctx.Init(dk, 32, 32);
    assert dk[32..32 + 32] == K;
    hctx.Update(K, [], header, 0, 96);
    assert [] + header[0..0 + 96] == header[..];
  }

  /** The final HMAC is computed and written. */
  method WriteTag(hctx: HmacContext, outfile: File, ghost K: seq<byte>, ghost c: seq<byte>) returns (ok: bool)
    requires hctx.Absorbed(K, c) && outfile !in hctx.Repr && outfile.Fits()
    modifies hctx.Repr, outfile`content
    ensures ok <==> |old(outfile.content)| + 32 <= outfile.capacity
    ensures outfile.content == Fill(outfile.capacity, old(outfile.content) + HmacSha256(K, c))
  {
    hide Fill, Put, HmacContext.Valid, HmacContext.Absorbed, HmacSha256;
    var hbuf := new byte[32];
    ghost var z := hbuf[..];
    hctx.Final(K, c, hbuf, 0);
    PutAll(z, HmacSha256(K, c));
    ok := outfile.Write(hbuf, 0, 32);
    assert hbuf[0..0 + 32] == hbuf[..];
  }

  /** The stages in which sealed data is written after out0. */
  lemma SealedIs(expand: Expand, header: seq<byte>, dk: seq<byte>, m: seq<byte>, out0: seq<byte>)
    requires |header| == 96 && |dk| == 64
    ensures var S, c := Sealed(expand, header, dk, m), SealedSoFar(expand(dk[..32]), header, m);
            (S[..|S| - 32] == c && out0 + c == (out0 + header) + Ctr(expand(dk[..32]), 0, 0, m) &&
             out0 + S == (out0 + c) + HmacSha256(dk[32..], c))
  {
    hide HmacSha256, Ctr;
  }

  /** What scryptenc_file has to write: after a read error no authenticator. */
  function ToWrite(S: seq<byte>, broken: bool): seq<byte>
    requires |S| >= 32
  {
    if broken then S[..|S| - 32] else S
  }

  /** The result code once the parameters are accepted; all is the length that the output file should get. */
  function SealCode(all: nat, capacity: nat, broken: bool): Code {
    if all > capacity then PickParams.EWRFILE else if broken then PickParams.ERDFILE else PickParams.OK
  }

  /** Everything of scryptenc_file after the setup: encrypt, hash and write, then write the authenticator. */
  method SealFile(t: Platform, expand: Expand, header: array<byte>, dk: array<byte>, infile: File, outfile: File)
    returns (rc: Code)
    requires header.Length == 96 && dk.Length == 64
    requires infile != outfile && infile.Valid() && |infile.content| < TWO64 && outfile.Fits()
    modifies infile`pos, outfile`content
    ensures var all := old(outfile.content)
                         + ToWrite(Sealed(expand, header[..], dk[..], old(infile.Rest())), infile.broken);
            (outfile.content == Fill(outfile.capacity, all) && rc == SealCode(|all|, outfile.capacity, infile.broken))
  {
    hide Stream.Valid, HmacContext.Valid, HmacContext.Absorbed, HmacSha256, SealedSoFar, Sealed, Fill, Ctr;
    ghost var h, d, out0, start, m := header[..], dk[..], outfile.content, infile.pos, infile.Rest();
    ghost var cap, c := outfile.capacity, SealedSoFar(expand(d[..32]), h, m);
    SealedIs(expand, h, d, m, out0);
    var hctx := HashHeader(t, dk, header);
    var ok := outfile.Write(header, 0, 96);
    assert header[0..0 + 96] == h && dk[..32] == d[..32];
    if !ok {
      FillStops(cap, out0 + h, Ctr(expand(d[..32]), 0, 0, m));
      FillStops(cap, out0 + c, HmacSha256(d[32..], c));
      return PickParams.EWRFILE;
    }
    FillAll(cap, out0 + h);
    var stream := new Stream(expand(dk[..32]), 0);
    var buf := new byte[ENCBLOCK];
    ok := EncryptAll(t, stream, hctx, buf, infile, outfile, d[32..], h, start, out0);
    if !ok {
      FillStops(cap, out0 + c, HmacSha256(d[32..], c));
      return PickParams.EWRFILE;
    }
    if infile.broken {
      return PickParams.ERDFILE;
    }
    FillAll(cap, out0 + c);
    ok := WriteTag(hctx, outfile, d[32..], c);
    rc := if ok then PickParams.OK else PickParams.EWRFILE;
  }

  lemma FillAll(capacity: nat, s: seq<byte>)
    requires |s| <= capacity
    ensures Fill(capacity, s) == s
  {
  }

  /** scryptenc_file */
  method EncFile(t: Platform, expand: Expand, infile: File, outfile: File,
                 passwd: array<byte>, passwdlen: nat, P: Params, entropy: Option<seq<byte>>, force: bool)
    returns (rc: Code)
    requires infile != outfile && infile.Valid() && |infile.content| < TWO64 && outfile.Fits()
    requires passwdlen <= passwd.Length
    requires entropy.Some? ==> |entropy.value| == 32
    requires (P.logN == 0 && P.r == 0 && P.p == 0) || (P.logN != 0 && P.r != 0 && P.p != 0)
    requires P.r < TWO32 && P.p < TWO32
    modifies infile`pos, outfile`content, P`logN, P`r, P`p
    ensures old(ParamCode(Limits(P.mem, P.perf, P.maxtime, force), P.logN, P.r, P.p)).OK? ==> 1 <= P.logN <= 63
    ensures var code := EncCode(t.SIZE_MAX, old(ParamCode(Limits(P.mem, P.perf, P.maxtime, force), P.logN, P.r, P.p)),
                                entropy, P.logN, P.r, P.p);
            if !code.OK? then rc == code && outfile.content == old(outfile.content)
            else
              Chosen(Limits(P.mem, P.perf, P.maxtime, force), old(P.logN), old(P.r), old(P.p), P.logN, P.r, P.p) &&
              entropy.Some? &&
              var E := Encrypted(expand, passwd[..passwdlen], P.logN, P.r, P.p, entropy.value, old(infile.Rest()));
              var all := old(outfile.content) + ToWrite(E, infile.broken);
              outfile.content == Fill(outfile.capacity, all) && rc == SealCode(|all|, outfile.capacity, infile.broken)
  {
    hide PickParams.Best, PickParams.Check, Preamble, Signed, Sealed, DerivedKeys, ScryptGate, CheckUnder, Fill;
    var header, dk := new byte[96], new byte[64];
    rc := EncSetup(t, header, dk, passwd, passwdlen, P, entropy, force);
    if rc.OK? {
      rc := SealFile(t, expand, header, dk, infile, outfile);
    }
  }

  /** scryptdec_file_load_header */
  method LoadHeader(infile: File, header: array<byte>) returns (rc: Code)
    requires infile.Valid() && header.Length == 96
    modifies infile`pos, header
    ensures infile.Valid()
    ensures var I, short := old(infile.Rest()), if infile.broken then PickParams.ERDFILE else PickParams.EINVAL;
            rc == if |I| < 7 then short
                  else if I[..6] != MAGIC then PickParams.EINVAL
                  else if I[6] != 0 then PickParams.EVERSION
                  else if |I| < 96 then short
                  else PickParams.OK
    ensures rc.OK? ==> header[..] == old(infile.Rest())[..96] && infile.Rest() == old(infile.Rest())[96..]
  {
    hide Put;
    ghost var s, I, start := header[..], infile.Rest(), infile.pos;
    var ok := infile.ReadItem(header, 0, 7);
    if !ok {
      return if infile.broken then PickParams.ERDFILE else PickParams.EINVAL;
    }
    PutEnd(s, 0, infile.content[start..start + 7]);
    StartOfRest(infile.content, start, infile.limit, 7);
    assert header[..7] == header[..][..7] == I[..7];
    SameStart(header[..], I);
    assert header[..6] == header[..][..6] && header[6] == header[..][6];
    var differ := MagicDiffers(header);
    if differ {
      return PickParams.EINVAL;
    }
    if header[6] != 0 {
      return PickParams.EVERSION;
    }
    s := header[..];
    ok := infile.ReadItem(header, 7, 89);
    if !ok {
      return if infile.broken then PickParams.ERDFILE else PickParams.EINVAL;
    }
    PutEnd(s, 7, infile.content[start + 7..start + 96]);
    assert header[..] == header[..][..96];
    StartOfRest(infile.content, start, infile.limit, 7);
    StartOfRest(infile.content, start, infile.limit, 96);
    assert s[..7] == I[..7];
    rc := PickParams.OK;
  }

  lemma SameStart(h: seq<byte>, I: seq<byte>)
    requires |h| >= 7 && |I| >= 7 && h[..7] == I[..7]
    ensures h[..6] == I[..6] && h[6] == I[6]
  {
    assert h[..6] == h[..7][..6] && I[..6] == I[..7][..6] && h[6] == h[..7][6] && I[6] == I[..7][6];
  }

  /** The first n octets of what is left, and, when 96 are read in two parts, the parts. */
  lemma StartOfRest(content: seq<byte>, start: nat, limit: nat, n: nat)
    requires start + n <= limit <= |content|
    ensures content[start..limit][..n] == content[start..start + n]
    ensures content[start..limit][n..] == content[start + n..limit]
    ensures n == 96 ==> content[start..start + 96] == content[start..start + 7] + content[start + 7..start + 96]
  {
  }

  /** struct scryptdec_file_cookie: the keys and the spool of authenticated ciphertext. */
  class Cookie {
    const header: array<byte>
    const dk: array<byte>
    const authenticated: File

    constructor (authenticated: File)
      ensures fresh(header) && fresh(dk) && header.Length == 96 && dk.Length == 64
      ensures this.authenticated == authenticated
    {
      header, dk := new byte[96], new byte[64];
      this.authenticated := authenticated;
    }

    /** The spool holds the ciphertext of the encrypted data that begins with header. */
    ghost predicate Holds(d: seq<byte>, ciphertext: seq<byte>)
      reads dk, authenticated
    {
      dk.Length == 64 && dk[..] == d && authenticated.content == ciphertext
    }
  }

  /**
   The head of the loop of scryptdec_file_prep: what has been read since the header is what has been spooled and
   then what is in the buffer, which is no more than an authenticator.
   */
  ghost predicate Retained(R: seq<byte>, spooled: seq<byte>, buf: seq<byte>, buflen: nat) {
    buflen <= 32 <= |buf| && R == spooled + buf[..buflen] && (buflen < 32 ==> spooled == [])
  }

  /** A read that leaves at most 32 octets in the buffer. */
  lemma ShortRead(R: seq<byte>, spooled: seq<byte>, buf: seq<byte>, buflen: nat, x: seq<byte>)
    requires Retained(R, spooled, buf, buflen) && buflen + |x| <= 32 && |x| > 0
    ensures Retained(R + x, spooled, Put(buf, buflen, x), buflen + |x|)
  {
    hide Put;
    PutEnd(buf, buflen, x);
    assert R + x == [] + (buf[..buflen] + x);
  }

  /** A longer read: all but the last 32 octets go to the spool, and those move to the start of the buffer. */
  lemma LongRead(R: seq<byte>, spooled: seq<byte>, buf: seq<byte>, buflen: nat, x: seq<byte>, buf': seq<byte>)
    requires Retained(R, spooled, buf, buflen) && 32 < buflen + |x| <= |buf| && |buf'| == |buf|
    requires buf'[..32] == Put(buf, buflen, x)[buflen + |x| - 32..buflen + |x|]
    ensures Retained(R + x, spooled + Put(buf, buflen, x)[..buflen + |x| - 32], buf', 32)
  {
    hide Put;
    PutEnd(buf, buflen, x);
    var b, n := Put(buf, buflen, x), buflen + |x|;
    assert b[..n] == b[..n - 32] + b[n - 32..n];
    assert R + x == spooled + (buf[..buflen] + x);
  }

  /** memmove(buf, &buf[buflen - 32], 32) */
  method MoveTail(buf: array<byte>, buflen: nat)
    requires 32 <= buflen <= buf.Length
    modifies buf
    ensures buf[..32] == old(buf[buflen - 32..buflen])
  {
    forall k | 0 <= k < 32 {
      buf[k] := buf[buflen - 32 + k];
    }
  }

  /** One long read: hash and spool all but the last 32 octets of the buffer, and keep those. */
  method SpoolPart(hctx: HmacContext, spool: File, buf: array<byte>, buflen: nat, ghost K: seq<byte>,
                   ghost header: seq<byte>,
                   ghost R: seq<byte>, ghost b: seq<byte>, ghost n: nat, ghost x: seq<byte>)
    returns (ok: bool)
    requires 32 < buflen == n + |x| <= buf.Length && {spool, buf} !! hctx.Repr
    requires Retained(R, spool.content, b, n) && |b| == buf.Length && buf[..] == Put(b, n, x)
    requires hctx.Absorbed(K, header + spool.content) && spool.Fits()
    modifies hctx.Repr, buf, spool`content
    ensures spool.Fits() && (ok <==> |old(spool.content)| + (buflen - 32) <= spool.capacity)
    ensures ok ==> Retained(R + x, spool.content, buf[..], 32) && hctx.Absorbed(K, header + spool.content)
  {
    hide HmacContext.Valid, HmacContext.Absorbed, Retained, Put;
    RetainedLength(R, spool.content, b, n);
    ghost var spooled, y, tail := spool.content, buf[..buflen - 32], buf[buflen - 32..buflen];
    assert buf[0..0 + (buflen - 32)] == y;
    hctx.Update(K, header + spooled, buf, 0, buflen - 32);
    ok := spool.Write(buf, 0, buflen - 32);
    if ok {
      FillAll(spool.capacity, spooled + y);
      assert header + spooled + y == header + (spooled + y);
      MoveTail(buf, buflen);
      assert buf[..][..32] == tail;
      LongRead(R, spooled, b, n, x, buf[..]);
    }
  }

  /** The loop of scryptdec_file_prep, for reads of any length. */
  method SpoolAll(hctx: HmacContext, infile: File, spool: File, buf: array<byte>,
                  ghost K: seq<byte>, ghost header: seq<byte>)
    returns (ok: bool, buflen: nat)
    requires infile.Valid() && buf.Length == ENCBLOCK + 32 && spool.content == [] && spool != infile && spool.Fits()
    requires hctx.Absorbed(K, header) && {buf, infile, spool} !! hctx.Repr
    modifies hctx.Repr, buf, infile`pos, spool`content
    ensures ok <==> |old(infile.Rest())| - 32 <= spool.capacity
    ensures ok ==> Retained(old(infile.Rest()), spool.content, buf[..], buflen)
    ensures ok ==> hctx.Absorbed(K, header + spool.content)
  {
    hide HmacContext.Valid, HmacContext.Absorbed, Put, Retained;
    ghost var content, start, R := infile.content, infile.pos, [];
    buflen := 0;
    Nothing0(buf[..]);
    assert header + [] == header;
    while true
      invariant infile.Valid() && start <= infile.pos && R == content[start..infile.pos] && buflen <= 32
      invariant Retained(R, spool.content, buf[..], buflen) && spool.Fits()
      invariant hctx.Absorbed(K, header + spool.content)
      decreases infile.limit - infile.pos
    {
      ghost var b, n, pos := buf[..], buflen, infile.pos;
      var readlen := infile.Read(buf, buflen, ENCBLOCK + 32 - buflen);
      ghost var x := content[pos..infile.pos];
      RetainedLength(R, spool.content, b, n);
      if readlen == 0 {
        PutNothing(b, buflen);
        break;
      }
      buflen := buflen + readlen;
      if buflen <= 32 {
        ShortRead(R, spool.content, b, n, x);
      } else {
        ok := SpoolPart(hctx, spool, buf, buflen, K, header, R, b, n, x);
        if !ok {
          return;
        }
        buflen := 32;
      }
      R := R + x;
    }
    RetainedLength(R, spool.content, buf[..], buflen);
    assert R == content[start..infile.limit];
    ok := true;
  }

  lemma RetainedLength(R: seq<byte>, spooled: seq<byte>, buf: seq<byte>, buflen: nat)
    requires Retained(R, spooled, buf, buflen)
    ensures |R| == |spooled| + buflen && buflen <= 32 && (buflen < 32 ==> spooled == [])
  {
  }

  lemma Nothing0(buf: seq<byte>)
    requires |buf| >= 32
    ensures Retained([], [], buf, 0)
  {
  }

  /** What the retained octets say about the whole input: the tail is the last 32 octets, the spool the ciphertext. */
  lemma TailIs(I: seq<byte>, spooled: seq<byte>, buf: seq<byte>, buflen: nat)
    requires |I| >= 96 && Retained(I[96..], spooled, buf, buflen)
    ensures buflen < 32 <==> |I| < 128
    ensures buflen == 32 ==>
              spooled == I[96..|I| - 32] && buf[..32] == I[|I| - 32..] && I[..96] + spooled == I[..|I| - 32]
  {
  }

  /** The last steps of scryptdec_file_prep: the complete stream is verified. */
  method FinalTagDiffers(hctx: HmacContext, buf: array<byte>, ghost K: seq<byte>, ghost m: seq<byte>)
    returns (differ: bool)
    requires hctx.Absorbed(K, m) && buf.Length >= 32 && buf !in hctx.Repr
    modifies hctx.Repr
    ensures differ <==> HmacSha256(K, m) != buf[..32]
  {
    hide Put, HmacContext.Valid, HmacContext.Absorbed, HmacSha256;
    var hbuf := new byte[32];
    ghost var z := hbuf[..];
    hctx.Final(K, m, hbuf, 0);
    PutAll(z, HmacSha256(K, m));
    assert hbuf[0..0 + 32] == hbuf[..] && buf[0..0 + 32] == buf[..32];
    var rc := VerifyBytes(hbuf, 0, buf, 0, 32);
    differ := rc != 0;
  }

  /** scryptdec_file_prep after the setup: spool, then verify. */
  method SpoolAndVerify(t: Platform, C: Cookie, infile: File, ghost I: seq<byte>) returns (rc: Code)
    requires C.header.Length == 96 && C.dk.Length == 64 && C.authenticated != infile && C.authenticated.content == []
    requires infile.Valid() && |I| >= 96 && I[..96] == C.header[..] && I[96..] == infile.Rest()
    modifies infile`pos, C.authenticated
    ensures rc == if |I| - 128 > C.authenticated.capacity then PickParams.ETMPFILE
                  else if infile.broken then PickParams.ERDFILE
                  else if |I| < 128 then PickParams.EINVAL
                  else if HmacSha256(C.dk[..][32..], I[..|I| - 32]) != I[|I| - 32..] then PickParams.EINVAL
                  else PickParams.OK
    ensures rc.OK? ==> C.authenticated.content == I[96..|I| - 32]
  {
    hide HmacContext.Valid, HmacContext.Absorbed, HmacSha256, Retained;
    ghost var K, h := C.dk[..][32..], C.header[..];
    var hctx := HashHeader(t, C.dk, C.header);
    var buf := new byte[ENCBLOCK + 32];
    var ok, buflen := SpoolAll(hctx, infile, C.authenticated, buf, K, h);
    if !ok {
      return PickParams.ETMPFILE;
    }
    if infile.broken {
      return PickParams.ERDFILE;
    }
    TailIs(I, C.authenticated.content, buf[..], buflen);
    assert buf[..][..32] == buf[..32];
    if buflen < 32 {
      return PickParams.EINVAL;
    }
    RetainedLength(I[96..], C.authenticated.content, buf[..], buflen);
    var differ := FinalTagDiffers(hctx, buf, K, h + C.authenticated.content);
    if differ {
      return PickParams.EINVAL;
    }
    C.authenticated.Rewind();
    rc := PickParams.OK;
  }

  /** The result code of an outcome. */
  function CodeOf(o: Outcome): Code {
    if o.Plain? then PickParams.OK else o.code
  }

  /** The result code of scryptdec_file_prep, whose spool has room for so many octets. */
  ghost function PrepCode(SIZE_MAX: nat, l: Limits, expand: Expand, passwd: seq<byte>, I: seq<byte>, broken: bool,
                          capacity: nat): Code
    requires SIZE_MAX == SIZE32 || SIZE_MAX == SIZE64
  {
    if |I| - 128 > capacity && I[..6] == MAGIC && I[6] == 0 && SetupOf(SIZE_MAX, l, passwd, I).Ready?
    then PickParams.ETMPFILE
    else CodeOf(FileOutcome(SIZE_MAX, l, expand, passwd, I, broken))
  }

  /** scryptdec_file_prep, with what the spool will be like: unreadable somewhere, and of limited size. */
  method DecFilePrep(t: Platform, ghost expand: Expand, infile: File, passwd: array<byte>, passwdlen: nat,
                     P: Params, force: bool, spoolBroken: bool, spoolCapacity: nat)
    returns (rc: Code, C: Cookie)
    requires infile.Valid() && passwdlen <= passwd.Length
    requires P.logN == 0 && P.r == 0 && P.p == 0
    modifies infile`pos, P`logN, P`r, P`p
    ensures fresh(C) && fresh(C.dk) && fresh(C.authenticated) && C.authenticated.broken == spoolBroken
    ensures rc == PrepCode(t.SIZE_MAX, Limits(P.mem, P.perf, P.maxtime, force), expand, passwd[..passwdlen],
                           old(infile.Rest()), infile.broken, spoolCapacity)
    ensures rc.OK? ==>
              var I := old(infile.Rest());
              |I| >= 128 && C.Holds(C.dk[..], I[96..|I| - 32]) && Reported(P, I) &&
              SetupOf(t.SIZE_MAX, Limits(P.mem, P.perf, P.maxtime, force), passwd[..passwdlen], I) == Ready(C.dk[..])
  {
    hide SetupOf, HmacSha256, Ctr, LogNOf, ROf, POf;
    ghost var I := infile.Rest();
    var spool := new File([], spoolBroken, spoolCapacity);
    C := new Cookie(spool);
    rc := LoadHeader(infile, C.header);
    if !rc.OK? {
      return;
    }
    SetupReadsHeader(t.SIZE_MAX, Limits(P.mem, P.perf, P.maxtime, force), passwd[..passwdlen], I);
    assert C.header[..96] == C.header[..] == I[..96];
    rc := DecSetup(t, C.header, C.dk, passwd, passwdlen, P, force);
    if !rc.OK? {
      return;
    }
    rc := SpoolAndVerify(t, C, infile, I);
  }

  /** The result code of scryptdec_file_copy; all is the length that the output file should get. */
  function CopyCode(all: nat, capacity: nat, broken: bool): Code {
    if all > capacity then PickParams.EWRFILE else if broken then PickParams.ETMPFILE else PickParams.OK
  }

  /**
   scryptdec_file_copy: from the start of the spool, in reads of any length, as far as the spool can be read.  A copy
   can be made again.
   */
  method DecFileCopy(t: Platform, expand: Expand, C: Cookie, outfile: File,
                     ghost ciphertext: seq<byte>) returns (rc: Code)
    requires C.Holds(C.dk[..], ciphertext) && outfile != C.authenticated && |ciphertext| < TWO64 && outfile.Fits()
    modifies C.authenticated`pos, C.authenticated`limit, outfile`content
    ensures C.Holds(C.dk[..], ciphertext) && C.authenticated.Valid()
    ensures var all := old(outfile.content)
                         + Ctr(expand(C.dk[..][..32]), 0, 0, ciphertext[..C.authenticated.limit]);
            (outfile.content == Fill(outfile.capacity, all)
             && rc == CopyCode(|all|, outfile.capacity, C.authenticated.broken))
  {
    hide Ctr, Put, Stream.Valid, Fill;
    var spool := C.authenticated;
    spool.Rewind();
    ghost var out0, cap := outfile.content, outfile.capacity;
    assert C.dk[..32] == C.dk[..][..32];
    var stream := new Stream(expand(C.dk[..32]), 0);
    var buf := new byte[ENCBLOCK];
    ghost var key, m := stream.key, [];
    CtrNone(key, out0);
    while true
      invariant spool.Valid() && spool.content == ciphertext && m == ciphertext[..spool.pos]
      invariant stream.Valid(0) && stream.bytectr == |m| && stream.key == key
      invariant outfile.Fits() && outfile.content == out0 + Ctr(key, 0, 0, m)
      decreases spool.limit - spool.pos
    {
      ghost var s, pos := buf[..], spool.pos;
      var readlen := spool.Read(buf, 0, ENCBLOCK);
      if readlen == 0 {
        break;
      }
      ghost var x, rest := ciphertext[pos..spool.pos], ciphertext[spool.pos..spool.limit];
      ReadPart(s, x);
      assert buf[..readlen] == buf[..][..readlen] == x;
      var ok := DecryptPart(t, stream, buf, readlen, outfile, out0, m, x);
      CutTwice(ciphertext, pos, spool.pos, spool.limit);
      m := m + x;
      if !ok {
        DecryptedMore(key, out0, m, rest);
        FillStops(cap, out0 + Ctr(key, 0, 0, m), Ctr(key, 0, |m|, rest));
        return PickParams.EWRFILE;
      }
    }
    FillAll(cap, outfile.content);
    rc := if spool.broken then PickParams.ETMPFILE else PickParams.OK;
  }

  lemma CutTwice(s: seq<byte>, a: nat, b: nat, c: nat)
    requires a <= b <= c <= |s|
    ensures s[..a] + s[a..b] == s[..b] && s[..b] + s[b..c] == s[..c]
  {
  }

  lemma DecryptedMore(key: BlockCipher, out0: seq<byte>, m: seq<byte>, x: seq<byte>)
    ensures out0 + Ctr(key, 0, 0, m) + Ctr(key, 0, |m|, x) == out0 + Ctr(key, 0, 0, m + x)
  {
    hide Ctr;
    CtrConcat(key, 0, 0, m, x);
    assert out0 + Ctr(key, 0, 0, m) + Ctr(key, 0, |m|, x) == out0 + (Ctr(key, 0, 0, m) + Ctr(key, 0, |m|, x));
  }

  /** One round of the loop of scryptdec_file_copy: the octets x, just read, are decrypted in place and written. */
  method DecryptPart(t: Platform, stream: Stream, buf: array<byte>, len: nat, outfile: File,
                     ghost out0: seq<byte>, ghost m: seq<byte>, ghost x: seq<byte>)
    returns (ok: bool)
    requires stream.Valid(0) && stream.bytectr == |m| && |m| + len < TWO64 && len <= buf.Length && buf[..len] == x
    requires buf != stream.buf && buf != stream.pblk && outfile.content == out0 + Ctr(stream.key, 0, 0, m)
    requires outfile.Fits()
    modifies stream`bytectr, stream.buf, stream.pblk, buf, outfile`content
    ensures stream.Valid(0) && stream.bytectr == |m + x|
    ensures outfile.Fits() && outfile.content == Fill(outfile.capacity, out0 + Ctr(stream.key, 0, 0, m + x))
    ensures ok <==> |out0| + |m + x| <= outfile.capacity
    ensures ok ==> outfile.content == out0 + Ctr(stream.key, 0, 0, m + x)
  {
    hide Ctr, Put, Stream.Valid, Fill;
    CryptInPlace(t, stream, buf, len);
    assert buf[0..0 + len] == buf[..len];
    ok := outfile.Write(buf, 0, len);
    DecryptedMore(stream.key, out0, m, x);
    if ok {
      FillAll(outfile.capacity, out0 + Ctr(stream.key, 0, 0, m + x));
    }
  }

  lemma CtrNone(key: BlockCipher, out0: seq<byte>)
    ensures out0 + Ctr(key, 0, 0, []) == out0
  {
  }

  /** Decrypting the start of a ciphertext gives the start of the data. */
  lemma CtrStart(key: BlockCipher, x: seq<byte>, n: nat)
    requires n <= |x|
    ensures Ctr(key, 0, 0, x[..n]) == Ctr(key, 0, 0, x)[..n]
  {
    hide Ctr;
    assert x == x[..n] + x[n..];
    CtrConcat(key, 0, 0, x[..n], x[n..]);
  }

  /**
   scryptdec_file: nothing is written unless the whole input has authenticated, and then the data, as far as the spool
   can be read (stop) and the output file has room.
   */
  method DecFile(t: Platform, expand: Expand, infile: File, outfile: File, passwd: array<byte>, passwdlen: nat,
                 P: Params, force: bool, spoolBroken: bool, spoolCapacity: nat)
    returns (rc: Code, ghost stop: nat)
    requires infile != outfile && infile.Valid() && |infile.content| < TWO64 && passwdlen <= passwd.Length
    requires P.logN == 0 && P.r == 0 && P.p == 0 && outfile.Fits()
    modifies infile`pos, outfile`content, P`logN, P`r, P`p
    ensures var I, l, pw := old(infile.Rest()), Limits(P.mem, P.perf, P.maxtime, force), passwd[..passwdlen];
            var prep := PrepCode(t.SIZE_MAX, l, expand, pw, I, infile.broken, spoolCapacity);
            if !prep.OK? then rc == prep && outfile.content == old(outfile.content)
            else
              |I| >= 128 && Reported(P, I) && FileOutcome(t.SIZE_MAX, l, expand, pw, I, infile.broken).Plain? &&
              var msg := FileOutcome(t.SIZE_MAX, l, expand, pw, I, infile.broken).msg;
              stop <= |msg| && (!spoolBroken ==> stop == |msg|) &&
              outfile.content == Fill(outfile.capacity, old(outfile.content) + msg[..stop]) &&
              rc == CopyCode(|old(outfile.content)| + stop, outfile.capacity, spoolBroken)
  {
    hide SetupOf, HmacSha256, Ctr, LogNOf, ROf, POf, Fill;
    ghost var I := infile.Rest();
    var C;
    stop := 0;
    rc, C := DecFilePrep(t, expand, infile, passwd, passwdlen, P, force, spoolBroken, spoolCapacity);
    if rc.OK? {
      ghost var ciphertext := I[96..|I| - 32];
      rc := DecFileCopy(t, expand, C, outfile, ciphertext);
      stop := C.authenticated.limit;
      CtrStart(expand(C.dk[..][..32]), ciphertext, stop);
    }
  }
}

/**
 The encrypted data format of the file FORMAT, and what decryption makes of any string of octets:
 lib/scryptenc/scryptenc.c on values.
 */
module ContainerSpec {
  import opened AesCtr
  import opened Bits
  import opened Bytes
  import Hmac
  import MixWords
  import PickParams
  import Scrypt
  import Sha256Spec

  type Code = PickParams.Code

  /** crypto_aes_key_expand for 256-bit keys. */
  type Expand = seq<byte> -> BlockCipher

  /** The resource limits in force, and whether they are to be ignored. */
  datatype Limits = Limits(mem: PickParams.Measured<PickParams.Memory>, perf: PickParams.Speed, maxtime: real,
                           force: bool)

  //////////////////////////////////////////////////////////////////////////////
  // The format
  //////////////////////////////////////////////////////////////////////////////

  const MAGIC: seq<byte> := [0x73, 0x63, 0x72, 0x79, 0x70, 0x74]

  /** Octets 0 to 47. */
  function Preamble(logN: nat, r: nat, p: nat, salt: seq<byte>): (h: seq<byte>)
    requires |salt| == 32
    ensures |h| == 48
  {
    MAGIC + [0] + [ToByte(logN)] + BeEnc(r, 4) + BeEnc(p, 4) + salt
  }

  /** The header made from its first 48 octets: a checksum and a keyed signature. */
  ghost function Signed(h: seq<byte>, dk: seq<byte>): (g: seq<byte>)
    requires |h| == 48 && |dk| == 64
    ensures |g| == 96
  {
    var c := h + Sha256Spec.Sha256(h)[..16];
    c + Hmac.HmacSha256(dk[32..], c)
  }

  /** Header, encrypted data and authenticator. */
  ghost function Sealed(expand: Expand, header: seq<byte>, dk: seq<byte>, msg: seq<byte>): (c: seq<byte>)
    requires |header| == 96 && |dk| == 64
    ensures |c| == |msg| + 128
  {
    var c := header + Ctr(expand(dk[..32]), 0, 0, msg);
    c + Hmac.HmacSha256(dk[32..], c)
  }

  /** The derived keys. */
  ghost function DerivedKeys(passwd: seq<byte>, logN: nat, r: nat, p: nat, salt: seq<byte>): (dk: seq<byte>)
    requires r >= 1
    ensures |dk| == 64
  {
    Scrypt.ScryptAsCoded(passwd, salt, Pow2(logN), r, p, 64)
  }

  /** The file FORMAT asks for scrypt, and up to 2^25 slices that is what the keys are. */
  lemma KeysAreScrypt(passwd: seq<byte>, logN: nat, r: nat, p: nat, salt: seq<byte>)
    requires r >= 1 && p <= 0x200_0000
    ensures DerivedKeys(passwd, logN, r, p, salt) == Scrypt.Scrypt(passwd, salt, Pow2(logN), r, p, 64)
  {
    hide Scrypt.ScryptAsCoded, Scrypt.Scrypt, Pow2;
    Scrypt.AsCodedIsScrypt(passwd, salt, Pow2(logN), r, p, 64);
  }

  ghost function Encrypted(expand: Expand, passwd: seq<byte>, logN: nat, r: nat, p: nat, salt: seq<byte>,
                           msg: seq<byte>): (c: seq<byte>)
    requires r >= 1 && |salt| == 32
    ensures |c| == |msg| + 128
  {
    var dk := DerivedKeys(passwd, logN, r, p, salt);
    Sealed(expand, Signed(Preamble(logN, r, p, salt), dk), dk, msg)
  }

  //////////////////////////////////////////////////////////////////////////////
  // Decryption
  //////////////////////////////////////////////////////////////////////////////

  function Be32Val(b: seq<byte>): (n: nat)
    requires |b| == 4
    ensures n < TWO32
  {
    WordVal(Be32(b[0], b[1], b[2], b[3]))
  }

  function LogNOf(h: seq<byte>): nat
    requires |h| >= 8
  {
    ByteVal(h[7])
  }

  function ROf(h: seq<byte>): (r: nat)
    requires |h| >= 12
    ensures r < TWO32
  {
    Be32Val(h[8..12])
  }

  function POf(h: seq<byte>): (p: nat)
    requires |h| >= 16
    ensures p < TWO32
  {
    Be32Val(h[12..16])
  }

  function SaltOf(h: seq<byte>): (s: seq<byte>)
    requires |h| >= 48
    ensures |s| == 32
  {
    h[16..48]
  }

  lemma NFits(logN: nat)
    requires logN <= 63
    ensures Pow2(logN) < TWO64
  {
    hide Pow2;
    MixWords.Pow2Of64();
    Pow2Increases(logN, 64);
  }

  /** The checks of crypto_scrypt. */
  function ScryptGate(SIZE_MAX: nat, logN: nat, r: nat, p: nat): Scrypt.Errno
    requires (SIZE_MAX == SIZE32 || SIZE_MAX == SIZE64) && logN <= 63
  {
    NFits(logN);
    Scrypt.Gate(SIZE_MAX, 64, Pow2(logN), r, p, 64)
  }

  function CheckUnder(l: Limits, logN: int, r: nat, p: nat): (rc: Code)
    ensures rc.OK? ==> PickParams.InRange(logN, r, p)
  {
    PickParams.Check(l.mem, l.perf, l.maxtime, logN, r, p, l.force)
  }

  datatype Setup = Ready(dk: seq<byte>) | Refused(code: Code)

  /** scryptdec_setup on a header. */
  ghost function SetupOf(SIZE_MAX: nat, l: Limits, passwd: seq<byte>, h: seq<byte>): (s: Setup)
    requires (SIZE_MAX == SIZE32 || SIZE_MAX == SIZE64) && |h| >= 96
    ensures s.Ready? ==> |s.dk| == 64
    ensures s.Refused? ==> !s.code.OK?
  {
    var logN, r, p, salt := LogNOf(h), ROf(h), POf(h), SaltOf(h);
    if Sha256Spec.Sha256(h[..48])[..16] != h[48..64] then Refused(PickParams.EINVAL)
    else if !CheckUnder(l, logN, r, p).OK? then Refused(CheckUnder(l, logN, r, p))
    else if ScryptGate(SIZE_MAX, logN, r, p) != Scrypt.OK then Refused(PickParams.EKEY)
    else
      var dk := DerivedKeys(passwd, logN, r, p, salt);
      if Hmac.HmacSha256(dk[32..], h[..64]) != h[64..96] then Refused(PickParams.EPASS) else Ready(dk)
  }

  datatype Outcome = Plain(msg: seq<byte>) | Error(code: Code)

  /** The verification of the authenticator, and the data it covers. */
  ghost function Unseal(expand: Expand, dk: seq<byte>, I: seq<byte>): Outcome
    requires |dk| == 64 && |I| >= 128
  {
    if Hmac.HmacSha256(dk[32..], I[..|I| - 32]) != I[|I| - 32..] then Error(PickParams.EINVAL)
    else Plain(Ctr(expand(dk[..32]), 0, 0, I[96..|I| - 32]))
  }

  /** scryptdec_buf */
  ghost function BufOutcome(SIZE_MAX: nat, l: Limits, expand: Expand, passwd: seq<byte>, I: seq<byte>): Outcome
    requires SIZE_MAX == SIZE32 || SIZE_MAX == SIZE64
  {
    if |I| < 7 || I[..6] != MAGIC then Error(PickParams.EINVAL)
    else if I[6] != 0 then Error(PickParams.EVERSION)
    else if |I| < 128 then Error(PickParams.EINVAL)
    else
      match SetupOf(SIZE_MAX, l, passwd, I)
      case Refused(code) => Error(code)
      case Ready(dk) => Unseal(expand, dk, I)
  }

  /** scryptdec_file_prep on a file that delivers I and then ends, with a read error if broken. */
  ghost function FileOutcome(SIZE_MAX: nat, l: Limits, expand: Expand, passwd: seq<byte>, I: seq<byte>,
                             broken: bool): Outcome
    requires SIZE_MAX == SIZE32 || SIZE_MAX == SIZE64
  {
    var short := if broken then Error(PickParams.ERDFILE) else Error(PickParams.EINVAL);
    if |I| < 7 then short
    else if I[..6] != MAGIC then Error(PickParams.EINVAL)
    else if I[6] != 0 then Error(PickParams.EVERSION)
    else if |I| < 96 then short
    else
      match SetupOf(SIZE_MAX, l, passwd, I)
      case Refused(code) => Error(code)
      case Ready(dk) => if broken || |I| < 128 then short else Unseal(expand, dk, I)
  }

  /** Enough for the header but not for the authenticator, and the header itself is refused, not as invalid. */
  ghost predicate RefusedTooShort(SIZE_MAX: nat, l: Limits, passwd: seq<byte>, I: seq<byte>)
    requires SIZE_MAX == SIZE32 || SIZE_MAX == SIZE64
  {
    && 96 <= |I| < 128 && I[..6] == MAGIC && I[6] == 0
    && SetupOf(SIZE_MAX, l, passwd, I).Refused? && SetupOf(SIZE_MAX, l, passwd, I).code != PickParams.EINVAL
  }

  /**
   Both forms of decryption accept the same octets and give the same data, and the same code too unless the file form
   refuses the header of an input too short for an authenticator.
   */
  lemma SameAcceptance(SIZE_MAX: nat, l: Limits, expand: Expand, passwd: seq<byte>, I: seq<byte>)
    requires SIZE_MAX == SIZE32 || SIZE_MAX == SIZE64
    ensures var b, f := BufOutcome(SIZE_MAX, l, expand, passwd, I), FileOutcome(SIZE_MAX, l, expand, passwd, I, false);
            ((b.Plain? || f.Plain? ==> b == f) && (b == f <==> !RefusedTooShort(SIZE_MAX, l, passwd, I)))
  {
    hide SetupOf, Unseal;
  }

  //////////////////////////////////////////////////////////////////////////////
  // Header fields
  //////////////////////////////////////////////////////////////////////////////

  lemma BeEncFour(n: nat)
    requires n < TWO32
    ensures BeEnc(n, 4) == [ToByte(n / 256 / 256 / 256), ToByte(n / 256 / 256), ToByte(n / 256), ToByte(n)]
  {
    hide ToByte;
    assert BeEnc(n / 256 / 256 / 256, 1) == BeEnc(n / 256 / 256 / 256 / 256, 0) + [ToByte(n / 256 / 256 / 256)];
    assert BeEnc(n / 256 / 256, 2) == BeEnc(n / 256 / 256 / 256, 1) + [ToByte(n / 256 / 256)];
    assert BeEnc(n / 256, 3) == BeEnc(n / 256 / 256, 2) + [ToByte(n / 256)];
  }

  lemma Digits(n: nat)
    requires n < TWO32
    ensures var x, y, z := n / 256, n / 256 / 256, n / 256 / 256 / 256;
            n == n % 256 + 256 * (x % 256) + 65536 * (y % 256) + 16777216 * (z % 256)
  {
    var x := n / 256;
    var y := x / 256;
    var z := y / 256;
    assert z % 256 == z;
  }

  /** Decoding an encoded 32-bit integer. */
  lemma DecodeEncode(n: nat)
    requires n < TWO32
    ensures Be32Val(BeEnc(n, 4)) == n
  {
    hide ToByte, ByteVal, WordVal, Le32, BeEnc;
    BeEncFour(n);
    ToByteVal(n);
    ToByteVal(n / 256);
    ToByteVal(n / 256 / 256);
    ToByteVal(n / 256 / 256 / 256);
    Le32Value(ToByte(n), ToByte(n / 256), ToByte(n / 256 / 256), ToByte(n / 256 / 256 / 256));
    Digits(n);
  }

  lemma ToByteOfVal(b: byte, n: nat)
    requires n % 256 == ByteVal(b)
    ensures ToByte(n) == b
  {
    hide ToByte, ByteVal;
    ToByteVal(n);
    ByteValInjective(ToByte(n), b);
  }

  /** Encoding a decoded 32-bit integer. */
  lemma EncodeDecode(b: seq<byte>)
    requires |b| == 4
    ensures BeEnc(Be32Val(b), 4) == b
  {
    hide ToByte, ByteVal, WordVal, Le32, BeEnc;
    var n := Be32Val(b);
    Le32Value(b[3], b[2], b[1], b[0]);
    BeEncFour(n);
    var v0, v1, v2, v3 := ByteVal(b[3]), ByteVal(b[2]), ByteVal(b[1]), ByteVal(b[0]);
    assert n == v0 + 256 * (v1 + 256 * (v2 + 256 * v3));
    assert n / 256 == v1 + 256 * (v2 + 256 * v3);
    assert n / 256 / 256 == v2 + 256 * v3;
    assert n / 256 / 256 / 256 == v3;
    ToByteOfVal(b[3], n);
    ToByteOfVal(b[2], n / 256);
    ToByteOfVal(b[1], n / 256 / 256);
    ToByteOfVal(b[0], n / 256 / 256 / 256);
  }

  /** The fields of a preamble are read back. */
  lemma PreambleParses(logN: nat, r: nat, p: nat, salt: seq<byte>, h: seq<byte>)
    requires logN < 256 && r < TWO32 && p < TWO32 && |salt| == 32
    requires |h| >= 48 && h[..48] == Preamble(logN, r, p, salt)
    ensures h[..6] == MAGIC && h[6] == 0
    ensures LogNOf(h) == logN && ROf(h) == r && POf(h) == p && SaltOf(h) == salt
  {
    hide ToByte, ByteVal, BeEnc, Be32Val;
    var q := Preamble(logN, r, p, salt);
    assert h[..6] == q[..6] == MAGIC && h[6] == q[6] && h[7] == q[7];
    assert h[8..12] == q[8..12] == BeEnc(r, 4);
    assert h[12..16] == q[12..16] == BeEnc(p, 4);
    assert h[16..48] == q[16..48] == salt;
    ToByteVal(logN);
    DecodeEncode(r);
    DecodeEncode(p);
  }

  /** Octets 0 to 47 in the table of the file FORMAT. */
  lemma PreambleLayout(logN: nat, r: nat, p: nat, salt: seq<byte>)
    requires logN < 256 && r < TWO32 && p < TWO32 && |salt| == 32
    ensures var h := Preamble(logN, r, p, salt);
            && (forall i | 0 <= i < 6 :: h[i] as int == "scrypt"[i] as int)
            && h[6] == 0 && ByteVal(h[7]) == logN && BeNat(h[8..12]) == r && BeNat(h[12..16]) == p && h[16..] == salt
  {
    hide BeEnc, BeNat, Pow256, ToByte, ByteVal;
    var h := Preamble(logN, r, p, salt);
    assert h[8..12] == BeEnc(r, 4) && h[12..16] == BeEnc(p, 4) && h[7] == ToByte(logN);
    ToByteVal(logN);
    Pow256Of4();
    BeEncRoundTrip(r, 4);
    BeEncRoundTrip(p, 4);
  }

  lemma Pow256Of4()
    ensures Pow256(4) == TWO32
  {
  }

  /** The rest of that table: what is hashed, with which key, and how the data is encrypted. */
  lemma SealedLayout(expand: Expand, h: seq<byte>, dk: seq<byte>, msg: seq<byte>)
    requires |h| == 48 && |dk| == 64
    ensures var I, e := Sealed(expand, Signed(h, dk), dk, msg), |msg| + 96;
            && |I| == e + 32 && I[..48] == h
            && I[48..64] == Sha256Spec.Sha256(I[..48])[..16]
            && I[64..96] == Hmac.HmacSha256(dk[32..64], I[..64])
            && I[e..] == Hmac.HmacSha256(dk[32..64], I[..e])
  {
    hide Sha256Spec.Sha256, Hmac.HmacSha256, Ctr;
    var g := Signed(h, dk);
    var I := Sealed(expand, g, dk, msg);
    SealedHeader(expand, g, dk, msg);
    assert dk[32..64] == dk[32..];
    assert I[..48] == I[..96][..48] && I[48..64] == I[..96][48..64];
    assert I[..64] == I[..96][..64] && I[64..96] == I[..96][64..];
    assert I[..|msg| + 96] == g + Ctr(expand(dk[..32]), 0, 0, msg);
  }

  /** Octet i of the data is encrypted with octet i mod 16 of AES of the zero nonce and the counter i / 16. */
  lemma DataLayout(expand: Expand, header: seq<byte>, dk: seq<byte>, msg: seq<byte>, i: nat)
    requires |header| == 96 && |dk| == 64 && i < |msg|
    ensures Sealed(expand, header, dk, msg)[96 + i]
         == Xor8(msg[i], expand(dk[..32])(BeEnc(0, 8) + BeEnc(i / 16, 8))[i % 16])
  {
    hide Hmac.HmacSha256, Xor8, BeEnc;
  }

  /** The fields read determine the preamble. */
  lemma ParsedPreamble(h: seq<byte>)
    requires |h| >= 48 && h[..6] == MAGIC && h[6] == 0
    ensures h[..48] == Preamble(LogNOf(h), ROf(h), POf(h), SaltOf(h))
  {
    hide ToByte, ByteVal, BeEnc, Be32Val;
    EncodeDecode(h[8..12]);
    EncodeDecode(h[12..16]);
    ToByteOfVal(h[7], ByteVal(h[7]));
    assert h[..48] == h[..6] + [h[6]] + [h[7]] + h[8..12] + h[12..16] + h[16..48];
  }

  /** 96 octets with a valid checksum that ask for too much memory: the two forms return different codes. */
  lemma CodesDiffer(expand: Expand, passwd: seq<byte>, salt: seq<byte>, sig: seq<byte>)
    requires |salt| == 32 && |sig| == 32
    ensures var l := Limits(PickParams.Known(0x10_0000), PickParams.Known(1000000000000.0), 1.0, false);
            var h := Preamble(20, 8, 1, salt);
            var I := h + Sha256Spec.Sha256(h)[..16] + sig;
            (BufOutcome(SIZE64, l, expand, passwd, I) == Error(PickParams.EINVAL) &&
             FileOutcome(SIZE64, l, expand, passwd, I, false) == Error(PickParams.ETOOBIG))
  {
    hide Preamble, Sha256Spec.Sha256, LogNOf, ROf, POf, SaltOf, Pow2, PickParams.Check, DerivedKeys, ScryptGate;
    var l := Limits(PickParams.Known(0x10_0000), PickParams.Known(1000000000000.0), 1.0, false);
    var h := Preamble(20, 8, 1, salt);
    var I := h + Sha256Spec.Sha256(h)[..16] + sig;
    assert I[..48] == h && I[48..64] == Sha256Spec.Sha256(h)[..16];
    PreambleParses(20, 8, 1, salt, I);
    PickParams.Pow2Of10();
    Pow2Split(10, 10);
    PickParams.CheckIsExact(l.mem, l.perf, 1.0, 20, 8, 1, false);
  }

  //////////////////////////////////////////////////////////////////////////////
  // Round trip
  //////////////////////////////////////////////////////////////////////////////

  /** The header of encrypted data passes every check that does not depend on the limits. */
  lemma SignedSetup(SIZE_MAX: nat, l: Limits, passwd: seq<byte>, logN: nat, r: nat, p: nat, salt: seq<byte>,
                    h: seq<byte>)
    requires SIZE_MAX == SIZE32 || SIZE_MAX == SIZE64
    requires logN < 256 && 1 <= r < TWO32 && p < TWO32 && |salt| == 32 && |h| >= 96
    requires h[..96] == Signed(Preamble(logN, r, p, salt), DerivedKeys(passwd, logN, r, p, salt))
    ensures h[..48] == Preamble(logN, r, p, salt)
    ensures SetupOf(SIZE_MAX, l, passwd, h)
         == if !CheckUnder(l, logN, r, p).OK? then Refused(CheckUnder(l, logN, r, p))
            else if ScryptGate(SIZE_MAX, logN, r, p) != Scrypt.OK then Refused(PickParams.EKEY)
            else Ready(DerivedKeys(passwd, logN, r, p, salt))
  {
    hide Preamble, DerivedKeys, Sha256Spec.Sha256, Hmac.HmacSha256, CheckUnder, ScryptGate, LogNOf, ROf, POf, SaltOf;
    var q, dk := Preamble(logN, r, p, salt), DerivedKeys(passwd, logN, r, p, salt);
    var g := Signed(q, dk);
    var c := q + Sha256Spec.Sha256(q)[..16];
    assert h[..48] == h[..96][..48] == g[..48] == q;
    assert h[48..64] == h[..96][48..64] == g[48..64] == Sha256Spec.Sha256(q)[..16];
    assert h[..64] == h[..96][..64] == g[..64] == c;
    assert h[64..96] == h[..96][64..96] == g[64..96] == Hmac.HmacSha256(dk[32..], c);
    PreambleParses(logN, r, p, salt, h);
  }

  /** Sealed data is opened with the same keys. */
  lemma SealedOpens(expand: Expand, header: seq<byte>, dk: seq<byte>, msg: seq<byte>)
    requires |header| == 96 && |dk| == 64
    ensures Unseal(expand, dk, Sealed(expand, header, dk, msg)) == Plain(msg)
  {
    hide Hmac.HmacSha256, Ctr;
    var k := expand(dk[..32]);
    var x := Ctr(k, 0, 0, msg);
    var I := Sealed(expand, header, dk, msg);
    assert I[..|I| - 32] == header + x;
    assert I[|I| - 32..] == Hmac.HmacSha256(dk[32..], header + x);
    assert I[96..|I| - 32] == x;
    CtrTwice(k, 0, 0, msg);
  }

  /** What decryption makes of encrypted data: the data, unless the limits or crypto_scrypt refuse the parameters. */
  lemma RoundTrip(SIZE_MAX: nat, l: Limits, expand: Expand, passwd: seq<byte>, logN: nat, r: nat, p: nat,
                  salt: seq<byte>, msg: seq<byte>)
    requires SIZE_MAX == SIZE32 || SIZE_MAX == SIZE64
    requires logN < 256 && 1 <= r < TWO32 && p < TWO32 && |salt| == 32
    ensures BufOutcome(SIZE_MAX, l, expand, passwd, Encrypted(expand, passwd, logN, r, p, salt, msg))
         == if !CheckUnder(l, logN, r, p).OK? then Error(CheckUnder(l, logN, r, p))
            else if ScryptGate(SIZE_MAX, logN, r, p) != Scrypt.OK then Error(PickParams.EKEY)
            else Plain(msg)
    ensures FileOutcome(SIZE_MAX, l, expand, passwd, Encrypted(expand, passwd, logN, r, p, salt, msg), false)
         == BufOutcome(SIZE_MAX, l, expand, passwd, Encrypted(expand, passwd, logN, r, p, salt, msg))
  {
    hide Preamble, Signed, Sealed, Unseal, DerivedKeys, SetupOf, CheckUnder, ScryptGate;
    var dk := DerivedKeys(passwd, logN, r, p, salt);
    var header := Signed(Preamble(logN, r, p, salt), dk);
    var I := Sealed(expand, header, dk, msg);
    assert I[..96] == header by { SealedHeader(expand, header, dk, msg); }
    SignedSetup(SIZE_MAX, l, passwd, logN, r, p, salt, I);
    PreambleParses(logN, r, p, salt, I);
    SealedOpens(expand, header, dk, msg);
    SameAcceptance(SIZE_MAX, l, expand, passwd, I);
  }

  /** Whether crypto_scrypt accepts parameters in range: each of its sizes has to fit in a size_t. */
  lemma ScryptGateIs(SIZE_MAX: nat, logN: nat, r: nat, p: nat)
    requires (SIZE_MAX == SIZE32 || SIZE_MAX == SIZE64) && PickParams.InRange(logN, r, p) && r < TWO32 && p < TWO32
    ensures ScryptGate(SIZE_MAX, logN, r, p) == Scrypt.OK
       <==> 128 * r * p <= SIZE_MAX && 256 * r + 64 <= SIZE_MAX && 128 * r * Pow2(logN) <= SIZE_MAX
  {
    hide Pow2, IsPow2, Scrypt.Gate;
    NIsPow2(logN);
    Scrypt.GateIsExact(SIZE_MAX, 64, Pow2(logN), r, p, 64);
  }

  /**
   Forced decryption gives the data for all parameters in range whose sizes fit in a size_t, whatever the limits and
   even if they could not be measured.
   */
  lemma ForcedRoundTrip(SIZE_MAX: nat, l: Limits, expand: Expand, passwd: seq<byte>, logN: nat, r: nat, p: nat,
                        salt: seq<byte>, msg: seq<byte>)
    requires SIZE_MAX == SIZE32 || SIZE_MAX == SIZE64
    requires 1 <= logN <= 63 && r >= 1 && p >= 1 && r * p < 0x4000_0000 && |salt| == 32 && l.force
    ensures r < TWO32 && p < TWO32
    ensures var I := Encrypted(expand, passwd, logN, r, p, salt, msg);
            var fits := 128 * r * p <= SIZE_MAX && 256 * r + 64 <= SIZE_MAX && 128 * r * Pow2(logN) <= SIZE_MAX;
            (BufOutcome(SIZE_MAX, l, expand, passwd, I) == (if fits then Plain(msg) else Error(PickParams.EKEY)) &&
             FileOutcome(SIZE_MAX, l, expand, passwd, I, false) == BufOutcome(SIZE_MAX, l, expand, passwd, I))
  {
    hide Encrypted, BufOutcome, FileOutcome, ScryptGate, Pow2;
    MulGrows(p, r);
    MulGrows(r, p);
    ScryptGateIs(SIZE_MAX, logN, r, p);
    PickParams.CheckIsExact(l.mem, l.perf, l.maxtime, logN, r, p, true);
    RoundTrip(SIZE_MAX, l, expand, passwd, logN, r, p, salt, msg);
  }

  /** The verdict under the limits in force, for all parameters. */
  lemma VerdictUnder(l: Limits, logN: int, r: nat, p: nat)
    ensures CheckUnder(l, logN, r, p)
         == if !(1 <= logN <= 63 && r >= 1 && p >= 1 && r * p < 0x4000_0000) then PickParams.EINVAL
            else if l.force then PickParams.OK
            else if l.mem.Failed? then PickParams.ELIMIT
            else if l.perf.Failed? then l.perf.code
            else
              var big := PickParams.MemoryFor(logN, r) > l.mem.value;
              var slow := PickParams.OpsFor(logN, r, p) as real > l.perf.value * l.maxtime;
              if big && slow then PickParams.EBIGSLOW
              else if big then PickParams.ETOOBIG
              else if slow then PickParams.ETOOSLOW
              else PickParams.OK
  {
    hide PickParams.Check, PickParams.MemoryFor, PickParams.OpsFor;
    PickParams.CheckIsExact(l.mem, l.perf, l.maxtime, logN, r, p, l.force);
  }

  /**
   Another password: both forms report it as wrong if and only if it gives the header another signature, when the
   limits and crypto_scrypt accept the parameters.
   */
  lemma WrongPassword(SIZE_MAX: nat, l: Limits, expand: Expand, passwd: seq<byte>, other: seq<byte>, logN: nat, r: nat,
                      p: nat, salt: seq<byte>, msg: seq<byte>)
    requires SIZE_MAX == SIZE32 || SIZE_MAX == SIZE64
    requires 1 <= logN <= 63 && 1 <= r < TWO32 && p < TWO32 && |salt| == 32
    requires CheckUnder(l, logN, r, p).OK? && ScryptGate(SIZE_MAX, logN, r, p) == Scrypt.OK
    ensures var h := Preamble(logN, r, p, salt);
            var c := h + Sha256Spec.Sha256(h)[..16];
            var I := Encrypted(expand, passwd, logN, r, p, salt, msg);
            && (BufOutcome(SIZE_MAX, l, expand, other, I) == Error(PickParams.EPASS) <==>
                Hmac.HmacSha256(DerivedKeys(other, logN, r, p, salt)[32..], c)
                != Hmac.HmacSha256(DerivedKeys(passwd, logN, r, p, salt)[32..], c))
            && FileOutcome(SIZE_MAX, l, expand, other, I, false) == BufOutcome(SIZE_MAX, l, expand, other, I)
  {
    hide Preamble, DerivedKeys, Sha256Spec.Sha256, Hmac.HmacSha256, CheckUnder, ScryptGate, LogNOf, ROf, POf, SaltOf,
         Ctr;
    var h, dk := Preamble(logN, r, p, salt), DerivedKeys(passwd, logN, r, p, salt);
    var g, c := Signed(h, dk), h + Sha256Spec.Sha256(h)[..16];
    var I := Encrypted(expand, passwd, logN, r, p, salt, msg);
    assert I[..96] == g by { SealedHeader(expand, g, dk, msg); }
    assert I[..48] == I[..96][..48] == h;
    assert I[48..64] == I[..96][48..64] == Sha256Spec.Sha256(h)[..16];
    assert I[..64] == I[..96][..64] == c;
    assert I[64..96] == I[..96][64..96] == Hmac.HmacSha256(dk[32..], c);
    PreambleParses(logN, r, p, salt, I);
  }

  lemma SealedHeader(expand: Expand, header: seq<byte>, dk: seq<byte>, msg: seq<byte>)
    requires |header| == 96 && |dk| == 64
    ensures Sealed(expand, header, dk, msg)[..96] == header
  {
    hide Hmac.HmacSha256, Ctr;
  }

  /** Only encrypted data is accepted: the octets are those that encrypting the result gives. */
  lemma AcceptedIsEncrypted(SIZE_MAX: nat, l: Limits, expand: Expand, passwd: seq<byte>, I: seq<byte>, msg: seq<byte>)
    requires SIZE_MAX == SIZE32 || SIZE_MAX == SIZE64
    requires BufOutcome(SIZE_MAX, l, expand, passwd, I) == Plain(msg)
    ensures |I| >= 128
    ensures CheckUnder(l, LogNOf(I), ROf(I), POf(I)).OK? && ScryptGate(SIZE_MAX, LogNOf(I), ROf(I), POf(I)) == Scrypt.OK
    ensures I == Encrypted(expand, passwd, LogNOf(I), ROf(I), POf(I), SaltOf(I), msg)
  {
    hide Preamble, DerivedKeys, Sha256Spec.Sha256, Hmac.HmacSha256, CheckUnder, ScryptGate, LogNOf, ROf, POf, SaltOf,
         Ctr;
    var dk := SetupOf(SIZE_MAX, l, passwd, I).dk;
    ParsedPreamble(I);
    SetupIsSigned(SIZE_MAX, l, passwd, I);
    UnsealedIsSealed(expand, dk, I, msg);
  }

  lemma SetupIsSigned(SIZE_MAX: nat, l: Limits, passwd: seq<byte>, h: seq<byte>)
    requires (SIZE_MAX == SIZE32 || SIZE_MAX == SIZE64) && |h| >= 96
    requires SetupOf(SIZE_MAX, l, passwd, h).Ready?
    ensures CheckUnder(l, LogNOf(h), ROf(h), POf(h)).OK? && ScryptGate(SIZE_MAX, LogNOf(h), ROf(h), POf(h)) == Scrypt.OK
    ensures SetupOf(SIZE_MAX, l, passwd, h).dk == DerivedKeys(passwd, LogNOf(h), ROf(h), POf(h), SaltOf(h))
    ensures h[..96] == Signed(h[..48], SetupOf(SIZE_MAX, l, passwd, h).dk)
  {
    hide DerivedKeys, Sha256Spec.Sha256, Hmac.HmacSha256, ScryptGate, LogNOf, ROf, POf, SaltOf;
    assert h[..64] == h[..48] + h[48..64];
    assert h[..96] == h[..64] + h[64..96];
  }

  lemma UnsealedIsSealed(expand: Expand, dk: seq<byte>, I: seq<byte>, msg: seq<byte>)
    requires |dk| == 64 && |I| >= 128 && Unseal(expand, dk, I) == Plain(msg)
    ensures I == Sealed(expand, I[..96], dk, msg)
  {
    hide Hmac.HmacSha256, Ctr;
    var k, x := expand(dk[..32]), I[96..|I| - 32];
    CtrTwice(k, 0, 0, x);
    assert I[..|I| - 32] == I[..96] + x;
    assert I == I[..|I| - 32] + I[|I| - 32..];
  }

  lemma NIsPow2(logN: nat)
    requires 1 <= logN <= 63
    ensures 2 <= Pow2(logN) < TWO64 && IsPow2(Pow2(logN))
  {
    hide Pow2;
    NFits(logN);
    MixWords.Pow2Of1();
    Pow2Increases(1, logN);
  }

  /**
   Parameters that pickparams chose pass the checks of crypto_scrypt exactly when 128 * r * p fits in a size_t.
   */
  lemma PickedPassesGate(SIZE_MAX: nat, memlimit: nat, opslimit: real, logN: nat, p: nat)
    requires (SIZE_MAX == SIZE32 || SIZE_MAX == SIZE64) && memlimit <= SIZE_MAX
    requires PickParams.Best(memlimit, opslimit, logN, 8, p)
    ensures ScryptGate(SIZE_MAX, logN, 8, p) == Scrypt.OK <==> 1024 * p <= SIZE_MAX
    ensures SIZE_MAX == SIZE64 ==> 1024 * p <= SIZE_MAX
  {
    hide Pow2, IsPow2, Scrypt.Gate;
    NIsPow2(logN);
    Scrypt.GateIsExact(SIZE_MAX, 64, Pow2(logN), 8, p, 64);
  }

  lemma Pow2Below(a: nat, b: nat)
    requires Pow2(a) < 2 * Pow2(b)
    ensures a <= b
  {
    hide Pow2;
    if a > b {
      Pow2Increases(b, a);
    }
  }

  /** The share of N = 2^k that leaves p below 2^22. */
  lemma ShareBelow(opslimit: real, k: nat, p: nat)
    requires p >= 1 && PickParams.OpsFor(k, 8, p) as real <= opslimit
    requires PickParams.OpsFor(k, 8, p + 1) as real > opslimit || 8 * (p + 1) >= 0x4000_0000
    ensures p < 0x40_0000 <==> opslimit < (0x800_0000 * Pow2(k)) as real
  {
    hide Pow2, PickParams.OpsFor;
    var N := Pow2(k);
    Ops8(k, p);
    Ops8(k, p + 1);
    if p < 0x40_0000 {
      MulMonotone(p + 1, 0x40_0000, N);
    } else {
      MulMonotone(0x40_0000, p, N);
    }
  }

  lemma Ops8(k: nat, p: nat)
    ensures PickParams.OpsFor(k, 8, p) == 32 * (p * Pow2(k))
  {
    hide Pow2;
  }

  /**
   Whether crypto_scrypt accepts what pickparams will choose, told from the limits: always with a 64-bit size_t, and
   with 32 bits if and only if the CPU limit is below 2^27 times the largest N that the memory limit allows.
   */
  lemma PickedPassesExactly(SIZE_MAX: nat, memlimit: nat, opslimit: real, k: nat, logN: nat, p: nat)
    requires (SIZE_MAX == SIZE32 || SIZE_MAX == SIZE64) && memlimit <= SIZE_MAX
    requires Pow2(k) <= memlimit / 1024 < Pow2(k + 1)
    requires PickParams.Best(memlimit, opslimit, logN, 8, p)
    ensures ScryptGate(SIZE_MAX, logN, 8, p) == Scrypt.OK
       <==> SIZE_MAX == SIZE64 || opslimit < (0x800_0000 * Pow2(k)) as real
  {
    hide Pow2, IsPow2, Scrypt.Gate, ScryptGate, PickParams.OpsFor;
    PickedPassesGate(SIZE_MAX, memlimit, opslimit, logN, p);
    PickParams.Pow2Next(k);
    PickParams.Pow2Next(logN);
    PickParams.MemoryOf8(logN);
    PickParams.MemoryOf8(logN + 1);
    Pow2Below(logN, k);
    if opslimit < memlimit as real / 32.0 {
      Ops8(logN + 1, 1);
      Pow2Increases(logN, k);
    } else {
      Pow2Below(k, logN);
      ShareBelow(opslimit, k, p);
    }
  }

  /** With a 32-bit size_t, 1 MiB and a fast processor, pickparams can choose parameters that crypto_scrypt refuses. */
  lemma PickedCanBeRefused()
    ensures PickParams.Best(0x10_0000, 1099511627776.0, 10, 8, 0x200_0000)
    ensures ScryptGate(SIZE32, 10, 8, 0x200_0000) != Scrypt.OK
  {
    hide Scrypt.Gate, ScryptGate;
    PickParams.Pow2Of10();
    PickParams.Pow2Next(10);
    PickedPassesGate(SIZE32, 0x10_0000, 1099511627776.0, 10, 0x200_0000);
  }
}

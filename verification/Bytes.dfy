/** Octets, 32-bit words and the byte orders of sysendian.h. */
module Bytes {

  type byte = bv8
  type word = bv32

  const TWO32: nat := 0x1_0000_0000
  const TWO64: nat := 0x1_0000_0000_0000_0000

  /** SIZE_MAX for the two widths of size_t. */
  const SIZE32: nat := TWO32 - 1
  const SIZE64: nat := TWO64 - 1

  //////////////////////////////////////////////////////////////////////////////
  // Little-endian words
  //////////////////////////////////////////////////////////////////////////////

  function Le32(a: byte, b: byte, c: byte, d: byte): word {
    (a as word) | ((b as word) << 8) | ((c as word) << 16) | ((d as word) << 24)
  }

  function Le32Enc(w: word): (b: seq<byte>)
    ensures |b| == 4
  {
    [(w & 0xff) as byte, ((w >> 8) & 0xff) as byte, ((w >> 16) & 0xff) as byte, ((w >> 24) & 0xff) as byte]
  }

  lemma Le32EncDec(w: word)
    ensures var b := Le32Enc(w); Le32(b[0], b[1], b[2], b[3]) == w
  {
  }

  lemma Le32DecEnc(a: byte, b: byte, c: byte, d: byte)
    ensures Le32Enc(Le32(a, b, c, d)) == [a, b, c, d]
  {
  }

  function Xor8(a: byte, b: byte): byte {
    a ^ b
  }

  function Xor32(a: word, b: word): word {
    a ^ b
  }

  /** Addition of words wraps around at 2^32. */
  function Add32(a: word, b: word): word {
    a + b
  }

  function SameWord(w: word): word {
    w
  }

  // Addition is associative and commutative; SameWord keeps the solver from unfolding both sides at once.

  lemma SumLeft(a: word, b: word, c: word, u: word)
    requires u == a + b
    ensures Add32(u, c) == SameWord(a + b + c)
  {
  }

  lemma SumRight(a: word, b: word, c: word, v: word)
    requires v == b + c
    ensures Add32(a, v) == SameWord(a + b + c)
  {
  }

  lemma NestedLeft(a: word, b: word, c: word)
    ensures Add32(Add32(a, b), c) == SameWord(a + b + c)
  {
    hide SameWord;
    SumLeft(a, b, c, Add32(a, b));
  }

  lemma NestedRight(a: word, b: word, c: word)
    ensures Add32(a, Add32(b, c)) == SameWord(a + b + c)
  {
    hide SameWord;
    SumRight(a, b, c, Add32(b, c));
  }

  lemma AddAssociates(a: word, b: word, c: word)
    ensures Add32(Add32(a, b), c) == Add32(a, Add32(b, c))
  {
    hide *;
    NestedLeft(a, b, c);
    NestedRight(a, b, c);
  }

  lemma AddCommutes(a: word, b: word)
    ensures Add32(a, b) == Add32(b, a)
  {
  }

  function Shl32(a: word, n: nat): word
    requires n <= 32
  {
    a << n
  }

  function Shr32(a: word, n: nat): word
    requires n <= 32
  {
    a >> n
  }

  lemma Le32Xor(a: byte, b: byte, c: byte, d: byte, a': byte, b': byte, c': byte, d': byte)
    ensures Le32(Xor8(a, a'), Xor8(b, b'), Xor8(c, c'), Xor8(d, d'))
         == Xor32(Le32(a, b, c, d), Le32(a', b', c', d'))
  {
  }

  //////////////////////////////////////////////////////////////////////////////
  // Unsigned values
  //////////////////////////////////////////////////////////////////////////////

  function ByteVal(b: byte): (n: nat)
    ensures n < 256
  {
    b as nat
  }

  function HalfVal(h: bv16): nat {
    h as nat
  }

  function WordVal(w: word): (n: nat)
    ensures n < TWO32
  {
    w as nat
  }

  /** The value of a string of octets, least significant first. */
  function LeNat(b: seq<byte>): nat {
    if b == [] then 0 else ByteVal(b[0]) + 256 * LeNat(b[1..])
  }

  /** The value of a string of octets, most significant first. */
  function BeNat(b: seq<byte>): nat {
    if b == [] then 0 else 256 * BeNat(b[..|b| - 1]) + ByteVal(b[|b| - 1])
  }

  function Half(a: byte, b: byte): bv16 {
    (a as bv16) | ((b as bv16) << 8)
  }

  function Full(lo: bv16, hi: bv16): word {
    (lo as word) | ((hi as word) << 16)
  }

  lemma Le32Halves(a: byte, b: byte, c: byte, d: byte)
    ensures Le32(a, b, c, d) == Full(Half(a, b), Half(c, d))
  {
  }

  lemma OrIsSum8(a: byte, b: byte)
    ensures HalfVal((a as bv16) | ((b as bv16) << 8)) == ByteVal(a) + 256 * ByteVal(b)
  {
    assert ((a as bv16) | ((b as bv16) << 8)) as nat == a as nat + 256 * (b as nat);
  }

  lemma OrIsSum16(a: bv16, b: bv16)
    ensures WordVal((a as word) | ((b as word) << 16)) == HalfVal(a) + 65536 * HalfVal(b)
  {
    assert ((a as word) | ((b as word) << 16)) as nat == a as nat + 65536 * (b as nat);
  }

  lemma HalfValue(a: byte, b: byte)
    ensures HalfVal(Half(a, b)) == ByteVal(a) + 256 * ByteVal(b)
  {
    hide HalfVal, ByteVal;
    OrIsSum8(a, b);
  }

  lemma FullValue(lo: bv16, hi: bv16)
    ensures WordVal(Full(lo, hi)) == HalfVal(lo) + 65536 * HalfVal(hi)
  {
    hide WordVal, HalfVal;
    OrIsSum16(lo, hi);
  }

  /** The four octets of a word, weighted by their positions, sum to the word's value. */
  lemma Le32Value(a: byte, b: byte, c: byte, d: byte)
    ensures WordVal(Le32(a, b, c, d))
         == ByteVal(a) + 256 * ByteVal(b) + 65536 * ByteVal(c) + 16777216 * ByteVal(d)
  {
    hide *;
    Le32Halves(a, b, c, d);
    HalfValue(a, b);
    HalfValue(c, d);
    FullValue(Half(a, b), Half(c, d));
  }

  lemma LeNat4(b: seq<byte>)
    requires |b| == 4
    ensures LeNat(b) == WordVal(Le32(b[0], b[1], b[2], b[3]))
  {
    hide Le32, WordVal, ByteVal;
    Le32Value(b[0], b[1], b[2], b[3]);
    assert b[1..][1..] == b[2..];
    assert b[2..][1..] == b[3..];
    assert b[3..][1..] == [];
    assert LeNat(b[3..]) == ByteVal(b[3]);
    assert LeNat(b[2..]) == ByteVal(b[2]) + 256 * LeNat(b[3..]);
  }

  //////////////////////////////////////////////////////////////////////////////
  // Strings of octets and of words
  //////////////////////////////////////////////////////////////////////////////

  /** Octets read as little-endian words: le32dec over a whole buffer. */
  function Words(b: seq<byte>): (w: seq<word>)
    ensures |w| == |b| / 4
  {
    seq(|b| / 4, k requires 0 <= k < |b| / 4 => Le32(b[4 * k], b[4 * k + 1], b[4 * k + 2], b[4 * k + 3]))
  }

  /** Words written as little-endian octets: le32enc over a whole buffer. */
  function Unwords(w: seq<word>): (b: seq<byte>)
    ensures |b| == 4 * |w|
  {
    seq(4 * |w|, i requires 0 <= i < 4 * |w| => Le32Enc(w[i / 4])[i % 4])
  }

  function XorBytes(a: seq<byte>, b: seq<byte>): (c: seq<byte>)
    requires |a| == |b|
    ensures |c| == |a|
  {
    seq(|a|, i requires 0 <= i < |a| => Xor8(a[i], b[i]))
  }

  function XorWords(a: seq<word>, b: seq<word>): (c: seq<word>)
    requires |a| == |b|
    ensures |c| == |a|
  {
    seq(|a|, i requires 0 <= i < |a| => Xor32(a[i], b[i]))
  }

  lemma UnwordsAt(w: seq<word>, k: nat)
    requires k < |w|
    ensures Unwords(w)[4 * k..4 * k + 4] == Le32Enc(w[k])
  {
    hide Le32Enc;
    var b := Unwords(w);
    forall j | 0 <= j < 4
      ensures b[4 * k + j] == Le32Enc(w[k])[j]
    {
      assert (4 * k + j) / 4 == k && (4 * k + j) % 4 == j;
    }
  }

  lemma UnwordsConcat(a: seq<word>, b: seq<word>)
    ensures Unwords(a + b) == Unwords(a) + Unwords(b)
  {
    hide Le32Enc;
    var t, u := Unwords(a + b), Unwords(a) + Unwords(b);
    forall i | 0 <= i < |t|
      ensures t[i] == u[i]
    {
      if i >= 4 * |a| {
        assert (i - 4 * |a|) / 4 == i / 4 - |a| && (i - 4 * |a|) % 4 == i % 4;
      }
    }
  }

  lemma WordsUnwords(w: seq<word>)
    ensures Words(Unwords(w)) == w
  {
    hide Le32, Le32Enc;
    var b := Unwords(w);
    forall k | 0 <= k < |w|
      ensures Words(b)[k] == w[k]
    {
      UnwordsAt(w, k);
      Le32EncDec(w[k]);
      var e := b[4 * k..4 * k + 4];
      assert e[0] == b[4 * k] && e[1] == b[4 * k + 1] && e[2] == b[4 * k + 2] && e[3] == b[4 * k + 3];
    }
  }

  lemma UnwordsWords(b: seq<byte>)
    requires |b| % 4 == 0
    ensures Unwords(Words(b)) == b
  {
    hide Le32, Le32Enc;
    var w := Words(b);
    forall i | 0 <= i < |b|
      ensures Unwords(w)[i] == b[i]
    {
      var k := i / 4;
      Le32DecEnc(b[4 * k], b[4 * k + 1], b[4 * k + 2], b[4 * k + 3]);
      assert i == 4 * k + i % 4;
    }
  }

  /** Decoding commutes with exclusive or. */
  lemma WordsXor(a: seq<byte>, b: seq<byte>)
    requires |a| == |b| && |a| % 4 == 0
    ensures Words(XorBytes(a, b)) == XorWords(Words(a), Words(b))
  {
    hide Le32, Xor8, Xor32;
    var c := XorBytes(a, b);
    forall k | 0 <= k < |a| / 4
      ensures Words(c)[k] == XorWords(Words(a), Words(b))[k]
    {
      Le32Xor(a[4 * k], a[4 * k + 1], a[4 * k + 2], a[4 * k + 3], b[4 * k], b[4 * k + 1], b[4 * k + 2], b[4 * k + 3]);
    }
  }

  /** Decoding commutes with concatenation at a word boundary. */
  lemma WordsConcat(a: seq<byte>, b: seq<byte>)
    requires |a| % 4 == 0 && |b| % 4 == 0
    ensures Words(a + b) == Words(a) + Words(b)
  {
    hide Le32;
    var c := a + b;
    forall k | 0 <= k < |c| / 4
      ensures Words(c)[k] == (Words(a) + Words(b))[k]
    {
      if k < |a| / 4 {
        assert c[4 * k] == a[4 * k] && c[4 * k + 1] == a[4 * k + 1];
        assert c[4 * k + 2] == a[4 * k + 2] && c[4 * k + 3] == a[4 * k + 3];
      } else {
        var m := 4 * (k - |a| / 4);
        assert c[4 * k] == b[m] && c[4 * k + 1] == b[m + 1] && c[4 * k + 2] == b[m + 2] && c[4 * k + 3] == b[m + 3];
      }
    }
  }

  /** Decoding commutes with cutting at word boundaries. */
  lemma WordsSlice(b: seq<byte>, i: nat, j: nat)
    requires |b| % 4 == 0 && i <= j <= |b| / 4
    ensures Words(b[4 * i..4 * j]) == Words(b)[i..j]
  {
    hide Le32;
    var c := b[4 * i..4 * j];
    assert |c| % 4 == 0 && |c| / 4 == j - i;
    forall k | 0 <= k < j - i
      ensures Words(c)[k] == Words(b)[i + k]
    {
      assert c[4 * k] == b[4 * (i + k)] && c[4 * k + 1] == b[4 * (i + k) + 1]
          && c[4 * k + 2] == b[4 * (i + k) + 2] && c[4 * k + 3] == b[4 * (i + k) + 3];
    }
  }

  //////////////////////////////////////////////////////////////////////////////
  // Big-endian encodings
  //////////////////////////////////////////////////////////////////////////////

  function Be32(a: byte, b: byte, c: byte, d: byte): word {
    Le32(d, c, b, a)
  }

  /** Octets read as big-endian words: be32dec_vect. */
  function BeWords(b: seq<byte>): (w: seq<word>)
    ensures |w| == |b| / 4
  {
    seq(|b| / 4, k requires 0 <= k < |b| / 4 => Be32(b[4 * k], b[4 * k + 1], b[4 * k + 2], b[4 * k + 3]))
  }

  /** Words written as big-endian octets: be32enc_vect. */
  function BeUnwords(w: seq<word>): (b: seq<byte>)
    ensures |b| == 4 * |w|
  {
    seq(4 * |w|, i requires 0 <= i < 4 * |w| => Le32Enc(w[i / 4])[3 - i % 4])
  }

  /** Four octets of value, most significant first. */
  lemma BeNat4(b: seq<byte>)
    requires |b| == 4
    ensures BeNat(b) == WordVal(Be32(b[0], b[1], b[2], b[3]))
  {
    hide Le32, WordVal, ByteVal;
    Le32Value(b[3], b[2], b[1], b[0]);
    assert b[..3][..2] == b[..2] && b[..2][..1] == b[..1] && b[..1][..0] == [];
    assert BeNat(b[..1]) == ByteVal(b[0]);
    assert BeNat(b[..2]) == 256 * BeNat(b[..1]) + ByteVal(b[1]);
    assert BeNat(b[..3]) == 256 * BeNat(b[..2]) + ByteVal(b[2]);
  }

  /** Word k is octets 4 * k to 4 * k + 3, in reverse order of Le32Enc. */
  lemma BeOctets(w: seq<word>, k: nat)
    requires k < |w|
    ensures var e := Le32Enc(w[k]);
            BeUnwords(w)[4 * k..4 * k + 4] == [e[3], e[2], e[1], e[0]]
  {
    hide Le32Enc;
    var b, e := BeUnwords(w), Le32Enc(w[k]);
    assert 4 * k / 4 == (4 * k + 1) / 4 == (4 * k + 2) / 4 == (4 * k + 3) / 4 == k;
    assert b[4 * k] == e[3] && b[4 * k + 1] == e[2] && b[4 * k + 2] == e[1] && b[4 * k + 3] == e[0];
  }

  /** Most significant first: the four octets of word k, as a number, are the word. */
  lemma BeUnwordsAt(w: seq<word>, k: nat)
    requires k < |w|
    ensures BeNat(BeUnwords(w)[4 * k..4 * k + 4]) == WordVal(w[k])
  {
    hide Le32, Le32Enc, WordVal, BeNat, BeUnwords;
    BeOctets(w, k);
    Le32EncDec(w[k]);
    BeNat4(BeUnwords(w)[4 * k..4 * k + 4]);
  }

  /** Decoding inverts encoding. */
  lemma BeWordsUnwords(w: seq<word>)
    ensures BeWords(BeUnwords(w)) == w
  {
    hide Le32, Le32Enc, BeUnwords;
    var b := BeUnwords(w);
    forall k | 0 <= k < |w|
      ensures BeWords(b)[k] == w[k]
    {
      var x := b[4 * k..4 * k + 4];
      assert x[0] == b[4 * k] && x[1] == b[4 * k + 1] && x[2] == b[4 * k + 2] && x[3] == b[4 * k + 3];
      BeOctets(w, k);
      Le32EncDec(w[k]);
    }
  }

  /** The low octet of an integer. */
  function ToByte(n: nat): byte {
    (n % 256) as byte
  }

  lemma SmallByteVal(m: nat)
    requires m < 256
    ensures ByteVal(m as byte) == m
  {
  }

  lemma ToByteVal(n: nat)
    ensures ByteVal(ToByte(n)) == n % 256
  {
    hide ByteVal;
    SmallByteVal(n % 256);
  }

  /** `len` octets of an integer, most significant first: be32enc and be64enc. */
  function BeEnc(n: nat, len: nat): (b: seq<byte>)
    ensures |b| == len
  {
    if len == 0 then [] else BeEnc(n / 256, len - 1) + [ToByte(n)]
  }

  function Pow256(k: nat): (n: nat)
    ensures n >= 1
  {
    if k == 0 then 1 else 256 * Pow256(k - 1)
  }

  /** A big-endian encoding determines the integer up to the width encoded. */
  lemma {:induction false} BeEncRoundTrip(n: nat, len: nat)
    requires n < Pow256(len)
    ensures BeNat(BeEnc(n, len)) == n
  {
    hide ToByte, ByteVal;
    if len != 0 {
      BeEncRoundTrip(n / 256, len - 1);
      ToByteVal(n);
      assert BeEnc(n, len)[..len - 1] == BeEnc(n / 256, len - 1);
    }
  }

  /** An encoding in `len` octets depends only on the integer modulo 256^len. */
  lemma {:induction false} BeEncMod(n: nat, k: nat, len: nat)
    ensures BeEnc(n + k * Pow256(len), len) == BeEnc(n, len)
  {
    hide ToByte;
    if len != 0 {
      var m := n + k * Pow256(len);
      assert m == n + 256 * (k * Pow256(len - 1));
      assert m / 256 == n / 256 + k * Pow256(len - 1);
      BeEncMod(n / 256, k, len - 1);
      ToByteMod(n, k * Pow256(len - 1));
    }
  }

  lemma ByteValInjective(a: byte, b: byte)
    requires ByteVal(a) == ByteVal(b)
    ensures a == b
  {
    assert a as nat == b as nat;
  }

  lemma ToByteMod(n: nat, q: nat)
    ensures ToByte(n + 256 * q) == ToByte(n)
  {
    hide ToByte, ByteVal;
    ToByteVal(n);
    ToByteVal(n + 256 * q);
    ByteValInjective(ToByte(n + 256 * q), ToByte(n));
  }

  lemma Pow256Of8()
    ensures Pow256(8) == TWO64
  {
  }
}

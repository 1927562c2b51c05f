/**
 scryptBlockMix and scryptROMix on strings of octets: sections 3 to 5 of RFC 7914.  As in the scrypt
 paper they are written for an arbitrary core h on 64-octet blocks; RFC 7914 takes Salsa20/8.
 */
module Rfc7914 {
  import opened Bytes
  import opened Salsa

  ghost function SameOctets(x: seq<byte>): seq<byte> {
    x
  }

  /** Salsa20/8 on blocks of 64 octets, as a total function. */
  ghost function SalsaOctetsTotal(x: seq<byte>): (y: seq<byte>)
    ensures |y| == |x|
  {
    if |x| == 64 then Unwords(Salsa20_8(Words(x))) else x
  }

  /** A function on blocks of 64 octets, such as the Salsa20/8 core of section 3. */
  type OctetCore = h: seq<byte> -> seq<byte> | forall x {:trigger h(x)} :: |x| == 64 ==> |h(x)| == 64
    ghost witness SameOctets

  /** h is the Salsa20/8 core on octets, which are read and written as little-endian words. */
  ghost predicate IsSalsaOctets(h: OctetCore) {
    forall x {:trigger Salsa20_8(Words(x))} :: |x| == 64 ==> h(x) == Unwords(Salsa20_8(Words(x)))
  }

  lemma SalsaOctetsExists() returns (h: OctetCore)
    ensures IsSalsaOctets(h)
  {
    hide Salsa20_8;
    h := SalsaOctetsTotal;
  }

  ghost function SalsaOctets(): (h: OctetCore)
    ensures IsSalsaOctets(h)
  {
    assert exists h: OctetCore :: IsSalsaOctets(h) by {
      var h := SalsaOctetsExists();
    }
    var h: OctetCore :| IsSalsaOctets(h);
    h
  }

  /** Block i of a string of 64-octet blocks. */
  ghost function Block(B: seq<byte>, i: nat): (b: seq<byte>)
    requires 64 * i + 64 <= |B|
    ensures |b| == 64
  {
    B[64 * i..64 * i + 64]
  }

  /** The value of X after i steps of the loop of section 4: X starts as the last block. */
  ghost function Chain(h: OctetCore, B: seq<byte>, r: nat, i: nat): (X: seq<byte>)
    requires r >= 1 && |B| == 128 * r && i <= 2 * r
    ensures |X| == 64
  {
    if i == 0 then Block(B, 2 * r - 1) else h(XorBytes(Chain(h, B, r, i - 1), Block(B, i - 1)))
  }

  /** Y[0], Y[2], ..., Y[2n - 2], where Y[i] is X after step i. */
  ghost function Evens(h: OctetCore, B: seq<byte>, r: nat, n: nat): (Y: seq<byte>)
    requires r >= 1 && |B| == 128 * r && n <= r
    ensures |Y| == 64 * n
  {
    if n == 0 then [] else Evens(h, B, r, n - 1) + Chain(h, B, r, 2 * n - 1)
  }

  /** Y[1], Y[3], ..., Y[2n - 1]. */
  ghost function Odds(h: OctetCore, B: seq<byte>, r: nat, n: nat): (Y: seq<byte>)
    requires r >= 1 && |B| == 128 * r && n <= r
    ensures |Y| == 64 * n
  {
    if n == 0 then [] else Odds(h, B, r, n - 1) + Chain(h, B, r, 2 * n)
  }

  /** scryptBlockMix (section 4). */
  ghost function BlockMix(h: OctetCore, B: seq<byte>, r: nat): (B': seq<byte>)
    requires r >= 1 && |B| == 128 * r
    ensures |B'| == 128 * r
  {
    Evens(h, B, r, r) + Odds(h, B, r, r)
  }

  /** The last block as a little-endian integer. */
  ghost function Integerify(B: seq<byte>, r: nat): nat
    requires r >= 1 && |B| == 128 * r
  {
    LeNat(Block(B, 2 * r - 1))
  }

  /** V[i] of section 5: BlockMix applied i times. */
  ghost function Iterate(h: OctetCore, B: seq<byte>, r: nat, i: nat): (X: seq<byte>)
    requires r >= 1 && |B| == 128 * r
    ensures |X| == 128 * r
  {
    if i == 0 then B else BlockMix(h, Iterate(h, B, r, i - 1), r)
  }

  /** X after k steps of the second loop of section 5. */
  ghost function Mix(h: OctetCore, B: seq<byte>, r: nat, N: nat, k: nat): (X: seq<byte>)
    requires r >= 1 && |B| == 128 * r && N >= 1
    ensures |X| == 128 * r
  {
    if k == 0 then Iterate(h, B, r, N)
    else
      var X := Mix(h, B, r, N, k - 1);
      BlockMix(h, XorBytes(X, Iterate(h, B, r, Integerify(X, r) % N)), r)
  }

  /** scryptROMix (section 5). */
  ghost function ROMix(h: OctetCore, B: seq<byte>, r: nat, N: nat): (X: seq<byte>)
    requires r >= 1 && |B| == 128 * r && N >= 1
    ensures |X| == 128 * r
  {
    Mix(h, B, r, N, N)
  }
}

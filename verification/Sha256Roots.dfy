/**
 Where the constants of SHA-256 come from (sections 4.2.2 and 5.3.3 of FIPS 180-4): they are the first 32 bits of the
 fractional parts of the cube roots of the first 64 primes, and of the square roots of the first eight.
 */
module Sha256Roots {
  import Bits
  import opened Bytes
  import opened Sha256Spec

  //////////////////////////////////////////////////////////////////////////////
  // The first 64 primes
  //////////////////////////////////////////////////////////////////////////////

  ghost predicate IsPrime(n: nat) {
    n >= 2 && forall d | 2 <= d < n :: n % d != 0
  }

  /** No prime up to 17 divides n, unless it is n. */
  predicate Sifted(n: nat) {
    && (n % 2 != 0 || n == 2) && (n % 3 != 0 || n == 3) && (n % 5 != 0 || n == 5) && (n % 7 != 0 || n == 7)
    && (n % 11 != 0 || n == 11) && (n % 13 != 0 || n == 13) && (n % 17 != 0 || n == 17)
  }

  lemma Multiple(q: nat, x: nat)
    requires q >= 1
    ensures q * x % q == 0
  {
    Bits.DivModUnique(q * x, q, x, 0);
  }

  lemma Divided(n: nat, q: nat)
    requires 2 <= q <= 17 && (q <= 3 || (q % 2 != 0 && q % 3 != 0))
    requires n > q && n % q == 0
    ensures !Sifted(n)
  {
    assert q == 2 || q == 3 || q == 5 || q == 7 || q == 11 || q == 13 || q == 17;
  }

  lemma Regroup(a: nat, b: nat, c: nat)
    ensures a * b * c == a * (b * c)
  {
  }

  /** A product whose smaller factor is at most 18 has a prime factor up to 17. */
  lemma Composite(f: nat, g: nat)
    requires 2 <= f <= 18 && f <= g
    ensures !Sifted(f * g)
  {
    hide Sifted;
    var q := if f % 2 == 0 then 2 else if f % 3 == 0 then 3 else f;
    assert f == q * (f / q);
    Regroup(q, f / q, g);
    Multiple(q, f / q * g);
    Bits.MulMonotone(2, g, f);
    Divided(f * g, q);
  }

  lemma WithDivisor(n: nat, d: nat)
    requires n < 361 && 2 <= d < n && n % d == 0
    ensures !Sifted(n)
  {
    hide Sifted;
    var e := n / d;
    assert n == d * e == e * d && e >= 2;
    var f, g := if d <= e then d else e, if d <= e then e else d;
    if f >= 19 {
      Bits.MulMonotone(19, f, g);
    }
    Composite(f, g);
  }

  lemma PrimeIsSifted(n: nat)
    requires IsPrime(n)
    ensures Sifted(n)
  {
  }

  /** Below 19^2, the numbers that pass the sieve are the primes. */
  lemma SiftedIsPrime(n: nat)
    requires 2 <= n < 361
    ensures IsPrime(n) <==> Sifted(n)
  {
    hide Sifted;
    if IsPrime(n) {
      PrimeIsSifted(n);
    } else {
      var d :| 2 <= d < n && n % d == 0;
      WithDivisor(n, d);
    }
  }

  predicate OneOf(n: nat, a: nat, b: nat, c: nat, d: nat) {
    n == a || n == b || n == c || n == d
  }

  lemma Sieve0(n: nat) ensures 2 <= n <= 7 ==> (Sifted(n) <==> OneOf(n, 2, 3, 5, 7)) {}
  lemma Sieve4(n: nat) ensures 8 <= n <= 19 ==> (Sifted(n) <==> OneOf(n, 11, 13, 17, 19)) {}
  lemma Sieve8(n: nat) ensures 20 <= n <= 37 ==> (Sifted(n) <==> OneOf(n, 23, 29, 31, 37)) {}
  lemma Sieve12(n: nat) ensures 38 <= n <= 53 ==> (Sifted(n) <==> OneOf(n, 41, 43, 47, 53)) {}
  lemma Sieve16(n: nat) ensures 54 <= n <= 71 ==> (Sifted(n) <==> OneOf(n, 59, 61, 67, 71)) {}
  lemma Sieve20(n: nat) ensures 72 <= n <= 89 ==> (Sifted(n) <==> OneOf(n, 73, 79, 83, 89)) {}
  lemma Sieve24(n: nat) ensures 90 <= n <= 107 ==> (Sifted(n) <==> OneOf(n, 97, 101, 103, 107)) {}
  lemma Sieve28(n: nat) ensures 108 <= n <= 131 ==> (Sifted(n) <==> OneOf(n, 109, 113, 127, 131)) {}
  lemma Sieve32(n: nat) ensures 132 <= n <= 151 ==> (Sifted(n) <==> OneOf(n, 137, 139, 149, 151)) {}
  lemma Sieve36(n: nat) ensures 152 <= n <= 173 ==> (Sifted(n) <==> OneOf(n, 157, 163, 167, 173)) {}
  lemma Sieve40(n: nat) ensures 174 <= n <= 193 ==> (Sifted(n) <==> OneOf(n, 179, 181, 191, 193)) {}
  lemma Sieve44(n: nat) ensures 194 <= n <= 223 ==> (Sifted(n) <==> OneOf(n, 197, 199, 211, 223)) {}
  lemma Sieve48(n: nat) ensures 224 <= n <= 239 ==> (Sifted(n) <==> OneOf(n, 227, 229, 233, 239)) {}
  lemma Sieve52(n: nat) ensures 240 <= n <= 263 ==> (Sifted(n) <==> OneOf(n, 241, 251, 257, 263)) {}
  lemma Sieve56(n: nat) ensures 264 <= n <= 281 ==> (Sifted(n) <==> OneOf(n, 269, 271, 277, 281)) {}
  lemma Sieve60(n: nat) ensures 282 <= n <= 311 ==> (Sifted(n) <==> OneOf(n, 283, 293, 307, 311)) {}

  /** The primes up to 311, of which there are 64. */
  lemma FirstPrimes(n: nat)
    requires 2 <= n <= 311
    ensures IsPrime(n) <==>
            (OneOf(n, 2, 3, 5, 7) || OneOf(n, 11, 13, 17, 19)
            || OneOf(n, 23, 29, 31, 37) || OneOf(n, 41, 43, 47, 53)
            || OneOf(n, 59, 61, 67, 71) || OneOf(n, 73, 79, 83, 89)
            || OneOf(n, 97, 101, 103, 107) || OneOf(n, 109, 113, 127, 131)
            || OneOf(n, 137, 139, 149, 151) || OneOf(n, 157, 163, 167, 173)
            || OneOf(n, 179, 181, 191, 193) || OneOf(n, 197, 199, 211, 223)
            || OneOf(n, 227, 229, 233, 239) || OneOf(n, 241, 251, 257, 263)
            || OneOf(n, 269, 271, 277, 281) || OneOf(n, 283, 293, 307, 311))
  {
    hide Sifted, IsPrime;
    SiftedIsPrime(n);
    Sieve0(n); Sieve4(n); Sieve8(n); Sieve12(n);
    Sieve16(n); Sieve20(n); Sieve24(n); Sieve28(n);
    Sieve32(n); Sieve36(n); Sieve40(n); Sieve44(n);
    Sieve48(n); Sieve52(n); Sieve56(n); Sieve60(n);
  }

  //////////////////////////////////////////////////////////////////////////////
  // Roots
  //////////////////////////////////////////////////////////////////////////////

  /** The integer part of the cube root of p, which is below 7^3. */
  function CubeFloor(p: nat): nat {
    if p < 1 then 0 else if p < 8 then 1 else if p < 27 then 2 else if p < 64 then 3 else if p < 125 then 4
    else if p < 216 then 5 else 6
  }

  /** w is the first 32 bits of the fractional part of the cube root of p. */
  predicate CubeRoot(p: nat, w: word) {
    var c := TWO32 * CubeFloor(p) + WordVal(w);
    c * c * c <= p * (TWO32 * TWO32 * TWO32) < (c + 1) * (c + 1) * (c + 1)
  }

  /** Four round constants, from t on, belong to these primes. */
  predicate CubeRoots(t: nat, a: nat, b: nat, c: nat, d: nat) {
    && t + 4 <= 64
    && CubeRoot(a, K(t)) && CubeRoot(b, K(t + 1)) && CubeRoot(c, K(t + 2)) && CubeRoot(d, K(t + 3))
  }

  lemma Cubes0() ensures CubeRoots(0, 2, 3, 5, 7) {}
  lemma Cubes4() ensures CubeRoots(4, 11, 13, 17, 19) {}
  lemma Cubes8() ensures CubeRoots(8, 23, 29, 31, 37) {}
  lemma Cubes12() ensures CubeRoots(12, 41, 43, 47, 53) {}
  lemma Cubes16() ensures CubeRoots(16, 59, 61, 67, 71) {}
  lemma Cubes20() ensures CubeRoots(20, 73, 79, 83, 89) {}
  lemma Cubes24() ensures CubeRoots(24, 97, 101, 103, 107) {}
  lemma Cubes28() ensures CubeRoots(28, 109, 113, 127, 131) {}
  lemma Cubes32() ensures CubeRoots(32, 137, 139, 149, 151) {}
  lemma Cubes36() ensures CubeRoots(36, 157, 163, 167, 173) {}
  lemma Cubes40() ensures CubeRoots(40, 179, 181, 191, 193) {}
  lemma Cubes44() ensures CubeRoots(44, 197, 199, 211, 223) {}
  lemma Cubes48() ensures CubeRoots(48, 227, 229, 233, 239) {}
  lemma Cubes52() ensures CubeRoots(52, 241, 251, 257, 263) {}
  lemma Cubes56() ensures CubeRoots(56, 269, 271, 277, 281) {}
  lemma Cubes60() ensures CubeRoots(60, 283, 293, 307, 311) {}

  // K_t is the first 32 bits of the fractional part of the cube root of the t-th prime, counted from 0.

  lemma RoundConstants0()
    ensures CubeRoots(0, 2, 3, 5, 7) && CubeRoots(4, 11, 13, 17, 19)
    ensures CubeRoots(8, 23, 29, 31, 37) && CubeRoots(12, 41, 43, 47, 53)
  {
    hide CubeRoots;
    Cubes0(); Cubes4(); Cubes8(); Cubes12();
  }

  lemma RoundConstants16()
    ensures CubeRoots(16, 59, 61, 67, 71) && CubeRoots(20, 73, 79, 83, 89)
    ensures CubeRoots(24, 97, 101, 103, 107) && CubeRoots(28, 109, 113, 127, 131)
  {
    hide CubeRoots;
    Cubes16(); Cubes20(); Cubes24(); Cubes28();
  }

  lemma RoundConstants32()
    ensures CubeRoots(32, 137, 139, 149, 151) && CubeRoots(36, 157, 163, 167, 173)
    ensures CubeRoots(40, 179, 181, 191, 193) && CubeRoots(44, 197, 199, 211, 223)
  {
    hide CubeRoots;
    Cubes32(); Cubes36(); Cubes40(); Cubes44();
  }

  lemma RoundConstants48()
    ensures CubeRoots(48, 227, 229, 233, 239) && CubeRoots(52, 241, 251, 257, 263)
    ensures CubeRoots(56, 269, 271, 277, 281) && CubeRoots(60, 283, 293, 307, 311)
  {
    hide CubeRoots;
    Cubes48(); Cubes52(); Cubes56(); Cubes60();
  }

  /** w is the first 32 bits of the fractional part of the square root of p, whose integer part is i. */
  predicate SquareRoot(p: nat, i: nat, w: word) {
    var c := TWO32 * i + WordVal(w);
    c * c <= p * (TWO32 * TWO32) < (c + 1) * (c + 1)
  }

  /** The initial hash value consists of such bits for the square roots of the first eight primes. */
  lemma InitialValue()
    ensures var H := InitialState();
            && SquareRoot(2, 1, H[0]) && SquareRoot(3, 1, H[1]) && SquareRoot(5, 2, H[2]) && SquareRoot(7, 2, H[3])
            && SquareRoot(11, 3, H[4]) && SquareRoot(13, 3, H[5]) && SquareRoot(17, 4, H[6]) && SquareRoot(19, 4, H[7])
  {
  }
}

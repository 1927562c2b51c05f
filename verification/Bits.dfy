/** Powers of two and the bitwise and of unsigned integers. */
module Bits {

  function Pow2(k: nat): (n: nat)
    ensures n >= 1
  {
    if k == 0 then 1 else 2 * Pow2(k - 1)
  }

  ghost predicate IsPow2(n: nat) {
    exists k: nat :: n == Pow2(k)
  }

  /** The operator & on unsigned integers, bit by bit. */
  function BitAnd(a: nat, b: nat): nat {
    if a == 0 || b == 0 then 0 else 2 * BitAnd(a / 2, b / 2) + (a % 2) * (b % 2)
  }

  lemma {:induction false} AndSelf(a: nat)
    ensures BitAnd(a, a) == a
  {
    if a != 0 {
      AndSelf(a / 2);
      assert (a % 2) * (a % 2) == a % 2;
    }
  }

  lemma {:induction false} Pow2Split(a: nat, b: nat)
    ensures Pow2(a + b) == Pow2(a) * Pow2(b)
  {
    if a != 0 {
      Pow2Split(a - 1, b);
      assert Pow2(a + b) == 2 * (Pow2(a - 1) * Pow2(b)) == Pow2(a) * Pow2(b);
    }
  }

  lemma {:induction false} Pow2Increases(a: nat, b: nat)
    requires a <= b
    ensures Pow2(a) <= Pow2(b)
    ensures a < b ==> 2 * Pow2(a) <= Pow2(b)
  {
    if a < b {
      Pow2Increases(a, b - 1);
    }
  }

  /** x & (2^k - 1) is x mod 2^k. */
  lemma {:induction false} MaskIsMod(x: nat, k: nat)
    ensures BitAnd(x, Pow2(k) - 1) == x % Pow2(k)
  {
    if k != 0 && x != 0 {
      MaskIsMod(x / 2, k - 1);
      var m := Pow2(k - 1);
      assert (Pow2(k) - 1) / 2 == m - 1 && (Pow2(k) - 1) % 2 == 1;
      ModHalves(x, m);
    }
  }

  lemma ModHalves(x: nat, m: nat)
    requires m >= 1
    ensures x % (2 * m) == 2 * (x / 2 % m) + x % 2
  {
    var h, q := x / 2, x / 2 / m;
    assert h == q * m + h % m;
    assert x == q * (2 * m) + (2 * (h % m) + x % 2);
    DivModUnique(x, 2 * m, q, 2 * (h % m) + x % 2);
  }

  lemma MulGrows(a: nat, n: nat)
    requires a >= 1
    ensures a * n >= n
  {
  }

  lemma DivModUnique(x: nat, n: nat, q: nat, s: nat)
    requires n >= 1 && x == q * n + s && s < n
    ensures x / n == q && x % n == s
  {
    var q', s' := x / n, x % n;
    assert x == q' * n + s';
    if q' < q {
      MulGrows(q - q', n);
    } else if q' > q {
      MulGrows(q' - q, n);
    }
  }

  /** Adding a multiple of n does not change the remainder. */
  lemma ModAddMultiple(x: nat, n: nat, m: nat)
    requires n >= 1
    ensures (x + m * n) % n == x % n
  {
    assert x + m * n == (x / n + m) * n + x % n;
    DivModUnique(x + m * n, n, x / n + m, x % n);
  }

  /** The test N & (N - 1) == 0 accepts exactly the powers of two among the positive integers. */
  lemma {:induction false} PowerOfTwoTest(N: nat)
    requires N >= 1
    ensures BitAnd(N, N - 1) == 0 <==> IsPow2(N)
  {
    if N == 1 {
      assert N == Pow2(0);
    } else if N % 2 == 1 {
      AndSelf(N / 2);
      assert (N - 1) / 2 == N / 2 && (N - 1) % 2 == 0;
      forall k: nat
        ensures N != Pow2(k)
      {
        assert k != 0 ==> Pow2(k) == 2 * Pow2(k - 1);
      }
    } else {
      PowerOfTwoTest(N / 2);
      assert (N - 1) / 2 == N / 2 - 1 && (N - 1) % 2 == 1;
      if IsPow2(N / 2) {
        var k: nat :| N / 2 == Pow2(k);
        assert N == Pow2(k + 1);
      }
      if IsPow2(N) {
        var k: nat :| N == Pow2(k);
        assert N / 2 == Pow2(k - 1);
      }
    }
  }

  /** x <= m / a / b exactly when the product a * b * x does not exceed m. */
  lemma DivideTwice(m: nat, a: nat, b: nat, x: nat)
    requires a >= 1 && b >= 1
    ensures x <= m / a / b <==> a * b * x <= m
  {
    var q := m / a;
    DivideOnce(q, b, x);
    DivideOnce(m, a, b * x);
    assert a * (b * x) == a * b * x;
  }

  lemma DivideOnce(m: nat, b: nat, x: nat)
    requires b >= 1
    ensures x <= m / b <==> b * x <= m
  {
    var q, s := m / b, m % b;
    assert m == b * q + s && s < b;
    if x <= q {
      assert b * x <= b * q by { MulMonotone(x, q, b); }
    } else {
      assert b * (q + 1) <= b * x by { MulMonotone(q + 1, x, b); }
    }
  }

  lemma MulMonotone(a: nat, b: nat, c: nat)
    requires a <= b
    ensures a * c <= b * c
  {
  }
}

/** The choice of the parameters N, r and p in lib/scryptenc/scryptenc.c, with its doubles taken as reals. */
module PickParams {
  import opened Bits
  import opened Bytes
  import MixWords

  /** The return codes of scryptenc.h. */
  datatype Code =
    | OK | ELIMIT | ECLOCK | EKEY | ESALT | EOPENSSL | ENOMEM | EINVAL | EVERSION | ETOOBIG | ETOOSLOW | EPASS
    | EWRFILE | ERDFILE | EPARAM | EBIGSLOW | ETMPFILE

  /** What memtouse and scryptenc_cpuperf report: a value or a failure. */
  datatype Measured<T> = Known(value: T) | Failed(code: Code)

  /** The processor speed, or one of the two reasons why it may not be known. */
  type Speed = m: Measured<real> | m.Failed? ==> m.code == ECLOCK || m.code == EKEY witness Known(1.0)

  /** memtouse never reports less than 1 MiB. */
  type Memory = m: nat | 0x10_0000 <= m < TWO64 witness 0x10_0000

  const MINIMUM_OPS: real := 32768.0

  /** The CPU limit in force: the one asked for, but never less than 2^15 Salsa20/8 cores. */
  function OpsLimit(opps: real, maxtime: real): (limit: real)
    ensures limit >= 32768.0 && limit >= opps * maxtime && (limit == 32768.0 || limit == opps * maxtime)
  {
    if opps * maxtime < MINIMUM_OPS then MINIMUM_OPS else opps * maxtime
  }

  //////////////////////////////////////////////////////////////////////////////
  // What the parameters cost
  //////////////////////////////////////////////////////////////////////////////

  /** 128 * N * r octets of memory. */
  function MemoryFor(logN: nat, r: nat): nat {
    128 * r * Pow2(logN)
  }

  /** 4 * N * r * p Salsa20/8 cores. */
  function OpsFor(logN: nat, r: nat, p: nat): nat {
    4 * Pow2(logN) * r * p
  }

  predicate InRange(logN: int, r: nat, p: nat) {
    1 <= logN <= 63 && r >= 1 && p >= 1 && r * p < 0x4000_0000
  }

  //////////////////////////////////////////////////////////////////////////////
  // pickparams
  //////////////////////////////////////////////////////////////////////////////

  lemma Pow2Next(k: nat)
    ensures Pow2(k + 1) == 2 * Pow2(k)
  {
  }

  /** The largest power of two up to maxN, as the least one above maxN / 2. */
  method LargestPower(maxN: real) returns (logN: nat)
    requires 2.0 <= maxN < TWO64 as real
    ensures 1 <= logN <= 63
    ensures Pow2(logN) as real <= maxN < (2 * Pow2(logN)) as real
  {
    hide Pow2;
    MixWords.Pow2Of1();
    MixWords.Pow2Of64();
    logN := 1;
    while logN < 63
      invariant 1 <= logN <= 63 && Pow2(logN) as real <= maxN
      decreases 63 - logN
    {
      var checkN := Pow2(logN);
      if checkN as real > maxN / 2.0 {
        break;
      }
      Pow2Next(logN);
      logN := logN + 1;
    }
    Pow2Next(logN);
    if logN == 63 {
      assert Pow2(64) as real > maxN;
    }
  }

  /** The choice when the CPU limit is the stronger one: p is 1. */
  method PickByCpu(memlimit: Memory, opslimit: real) returns (logN: nat)
    requires MINIMUM_OPS <= opslimit < memlimit as real / 32.0
    ensures InRange(logN, 8, 1)
    ensures MemoryFor(logN, 8) <= memlimit
    ensures OpsFor(logN, 8, 1) as real <= opslimit < OpsFor(logN + 1, 8, 1) as real
  {
    hide Pow2;
    var maxN := opslimit / 32.0;
    logN := LargestPower(maxN);
    Pow2Next(logN);
  }

  lemma ScaleReal(a: real, b: real, n: real)
    requires n > 0.0
    ensures a <= b <==> a * n <= b * n
  {
  }

  lemma AtLeast(x: real, n: real, b: real)
    requires n > 0.0 && x >= b * n
    ensures x / n >= b && x / n * n == x
  {
  }

  /** p, from the quotient of the two limits. */
  method ShareOf(opslimit: real, N: nat) returns (p: nat)
    requires N >= 1 && opslimit >= 32.0 * N as real
    ensures p >= 1 && 8 * p < 0x4000_0000
    ensures (4 * (8 * p)) as real * N as real <= opslimit
    ensures (4 * (8 * (p + 1))) as real * N as real > opslimit || 8 * (p + 1) >= 0x4000_0000
  {
    AtLeast(opslimit / 4.0, N as real, 8.0);
    var maxrp := (opslimit / 4.0) / N as real;
    ghost var q := maxrp;
    if maxrp > 0x3fff_ffff as real {
      maxrp := 0x3fff_ffff as real;
    }
    p := maxrp.Floor / 8;
    ShareFits(opslimit, N, q, 8 * p);
    ShareFits(opslimit, N, q, 8 * (p + 1));
    assert (8 * p) as real <= maxrp < (8 * (p + 1)) as real;
  }

  lemma ShareFits(opslimit: real, N: nat, q: real, a: nat)
    requires N >= 1 && q * N as real == opslimit / 4.0
    ensures a as real <= q <==> (4 * a) as real * N as real <= opslimit
  {
    ScaleReal(a as real, q, N as real);
    Quadruple(a, N);
  }

  lemma Quadruple(a: nat, N: nat)
    ensures (4 * a) as real * N as real == 4.0 * (a as real * N as real)
  {
  }

  /** The choice when the memory limit is the stronger one: p is what the CPU limit leaves. */
  method PickByMemory(memlimit: Memory, opslimit: real) returns (logN: nat, p: nat)
    requires MINIMUM_OPS <= opslimit && opslimit >= memlimit as real / 32.0
    ensures InRange(logN, 8, p)
    ensures MemoryFor(logN, 8) <= memlimit < MemoryFor(logN + 1, 8)
    ensures OpsFor(logN, 8, p) as real <= opslimit
    ensures OpsFor(logN, 8, p + 1) as real > opslimit || 8 * (p + 1) >= 0x4000_0000
  {
    hide Pow2, MemoryFor, OpsFor;
    var maxN := (memlimit / 1024) as real;
    logN := LargestPower(maxN);
    Pow2Next(logN);
    UnitsOfMemory(memlimit, opslimit, Pow2(logN));
    MemoryOf8(logN);
    MemoryOf8(logN + 1);
    p := ShareOf(opslimit, Pow2(logN));
    OpsOf8(logN, p);
    OpsOf8(logN, p + 1);
  }

  lemma UnitsOfMemory(memlimit: nat, opslimit: real, N: nat)
    requires N as real <= (memlimit / 1024) as real < (2 * N) as real && opslimit >= memlimit as real / 32.0
    ensures 1024 * N <= memlimit < 1024 * (2 * N)
    ensures opslimit >= 32.0 * N as real
  {
    assert N <= memlimit / 1024 < 2 * N;
    assert memlimit as real >= 1024.0 * N as real;
  }

  lemma MemoryOf8(logN: nat)
    ensures MemoryFor(logN, 8) == 1024 * Pow2(logN)
  {
    hide Pow2;
  }

  lemma OpsOf8(logN: nat, p: nat)
    ensures OpsFor(logN, 8, p) as real == (4 * (8 * p)) as real * Pow2(logN) as real
  {
    hide Pow2;
    assert OpsFor(logN, 8, p) == (4 * (8 * p)) * Pow2(logN);
    RealProduct(4 * (8 * p), Pow2(logN));
  }

  lemma RealProduct(a: nat, b: nat)
    ensures (a * b) as real == a as real * b as real
  {
  }

  /**
   The parameters fit both limits, and neither N nor p can be raised.  When the CPU limit is the stronger one, p is 1
   and doubling N would break it; otherwise doubling N would break the memory limit.
   */
  ghost predicate Best(memlimit: nat, opslimit: real, logN: nat, r: nat, p: nat) {
    && InRange(logN, r, p)
    && MemoryFor(logN, r) <= memlimit
    && OpsFor(logN, r, p) as real <= opslimit
    && (if opslimit < memlimit as real / 32.0 then p == 1 && OpsFor(logN + 1, r, p) as real > opslimit
        else MemoryFor(logN + 1, r) > memlimit)
    && (OpsFor(logN, r, p + 1) as real > opslimit || r * (p + 1) >= 0x4000_0000)
  }

  /** pickparams */
  method Pick(mem: Measured<Memory>, perf: Speed, maxtime: real)
    returns (rc: Code, logN: nat, r: nat, p: nat)
    ensures rc == (if mem.Failed? then ELIMIT else if perf.Failed? then perf.code else OK)
    ensures rc == OK ==> Best(mem.value, OpsLimit(perf.value, maxtime), logN, r, p)
    ensures rc == OK && perf.value * maxtime >= 32768.0 ==> Best(mem.value, perf.value * maxtime, logN, r, p)
    ensures rc == OK && perf.value * maxtime < 32768.0 ==> Best(mem.value, 32768.0, logN, r, p)
    ensures rc == OK ==> r == 8
  {
    hide Pow2, MemoryFor, OpsFor;
    logN, r, p := 0, 0, 0;
    if mem.Failed? {
      return ELIMIT, logN, r, p;
    }
    if perf.Failed? {
      return perf.code, logN, r, p;
    }
    var memlimit: Memory := mem.value;
    var opslimit := perf.value * maxtime;
    if opslimit < MINIMUM_OPS {
      opslimit := MINIMUM_OPS;
    }
    r := 8;
    if opslimit < memlimit as real / 32.0 {
      p := 1;
      logN := PickByCpu(memlimit, opslimit);
      MoreP(logN);
    } else {
      logN, p := PickByMemory(memlimit, opslimit);
    }
    rc := OK;
  }

  /** With p = 1, raising p costs as much time as doubling N. */
  lemma MoreP(logN: nat)
    ensures OpsFor(logN, 8, 2) == OpsFor(logN + 1, 8, 1)
  {
    hide Pow2;
    Pow2Next(logN);
  }

  //////////////////////////////////////////////////////////////////////////////
  // checkparams
  //////////////////////////////////////////////////////////////////////////////

  /** The test of the memory limit. */
  predicate TooBig(memlimit: nat, logN: nat, r: nat)
    requires r >= 1
  {
    memlimit / Pow2(logN) / r < 128
  }

  /** The test of the CPU limit. */
  predicate TooSlow(opps: real, maxtime: real, logN: nat, r: nat, p: nat)
    requires r >= 1 && p >= 1
  {
    opps * maxtime / Pow2(logN) as real / r as real / p as real < 4.0
  }

  /** checkparams */
  function Check(mem: Measured<Memory>, perf: Speed, maxtime: real, logN: int, r: nat, p: nat, force: bool): Code
  {
    if logN < 1 || logN > 63 then EINVAL
    else if r * p >= 0x4000_0000 then EINVAL
    else if r == 0 || p == 0 then EINVAL
    else if force then OK
    else if mem.Failed? then ELIMIT
    else if perf.Failed? then perf.code
    else if TooBig(mem.value, logN, r) && TooSlow(perf.value, maxtime, logN, r, p) then EBIGSLOW
    else if TooBig(mem.value, logN, r) then ETOOBIG
    else if TooSlow(perf.value, maxtime, logN, r, p) then ETOOSLOW
    else OK
  }

  lemma DivideReal(x: real, n: real, b: real)
    requires n > 0.0
    ensures x / n < b <==> x < b * n
  {
    assert x / n * n == x;
    ScaleReal(b, x / n, n);
  }

  /** The chain of three divisions compares the cost in Salsa20/8 cores with the limit. */
  lemma OpsTest(opps: real, maxtime: real, logN: nat, r: nat, p: nat)
    requires r >= 1 && p >= 1
    ensures TooSlow(opps, maxtime, logN, r, p) <==> opps * maxtime < OpsFor(logN, r, p) as real
  {
    hide Pow2;
    var N, x := Pow2(logN), opps * maxtime;
    DivideReal(x / N as real / r as real, p as real, 4.0);
    DivideReal(x / N as real, r as real, 4.0 * p as real);
    DivideReal(x, N as real, 4.0 * p as real * r as real);
    RealProduct(4, p);
    RealProduct(4 * p, r);
    RealProduct(4 * p * r, N);
    assert 4 * p * r * N == OpsFor(logN, r, p);
  }

  lemma MemoryTest(memlimit: nat, logN: nat, r: nat)
    requires r >= 1
    ensures TooBig(memlimit, logN, r) <==> memlimit < MemoryFor(logN, r)
  {
    hide Pow2;
    DivideTwice(memlimit, Pow2(logN), r, 128);
    assert Pow2(logN) * r * 128 == MemoryFor(logN, r);
  }

  /**
   The verdict of checkparams for every input: parameters out of range are refused even when forced; forced ones in
   range are accepted whatever is known about the machine; for the rest, what could not be measured is reported, and
   otherwise the memory and the time that the parameters cost are compared with the limits.
   */
  lemma CheckIsExact(mem: Measured<Memory>, perf: Speed, maxtime: real, logN: int, r: nat, p: nat, force: bool)
    ensures Check(mem, perf, maxtime, logN, r, p, force)
         == if !(1 <= logN <= 63 && r >= 1 && p >= 1 && r * p < 0x4000_0000) then EINVAL
            else if force then OK
            else if mem.Failed? then ELIMIT
            else if perf.Failed? then perf.code
            else
              var big := MemoryFor(logN, r) > mem.value;
              var slow := OpsFor(logN, r, p) as real > perf.value * maxtime;
              if big && slow then EBIGSLOW
              else if big then ETOOBIG
              else if slow then ETOOSLOW
              else OK
  {
    hide Pow2, MemoryFor, OpsFor, TooBig, TooSlow;
    if InRange(logN, r, p) && mem.Known? && perf.Known? {
      OpsTest(perf.value, maxtime, logN, r, p);
      MemoryTest(mem.value, logN, r);
    }
  }

  //////////////////////////////////////////////////////////////////////////////
  // pickparams against checkparams
  //////////////////////////////////////////////////////////////////////////////

  lemma Between(N: nat, p: nat, m: nat)
    requires N >= 1 && N * p <= N * m < N * (p + 1)
    ensures p == m
  {
    if m < p {
      MulMonotone(m + 1, p, N);
    } else if m > p {
      MulMonotone(p + 1, m, N);
    }
  }

  /** At the minimum CPU limit the choice costs exactly the minimum: N divides 1024, and p is the quotient. */
  lemma LeastChoice(memlimit: Memory, logN: nat, p: nat)
    requires Best(memlimit, 32768.0, logN, 8, p)
    ensures OpsFor(logN, 8, p) as real == 32768.0
  {
    hide Pow2;
    var N := Pow2(logN);
    assert Pow2(10) == 1024 by { Pow2Of10(); }
    assert OpsFor(logN, 8, p) == 32 * (N * p) && OpsFor(logN, 8, p + 1) == 32 * (N * (p + 1));
    assert N * p >= p && N * p >= N by { MulGrows(N, p); MulGrows(p, N); }
    if logN > 10 {
      Pow2Increases(10, logN);
    }
    Pow2Split(logN, 10 - logN);
    Between(N, p, Pow2(10 - logN));
  }

  lemma Pow2Of10()
    ensures Pow2(10) == 1024
  {
    assert Pow2(5) == 32;
    Pow2Split(5, 5);
  }

  /** checkparams accepts, under the same limits, what pickparams chose exactly when the limit was not raised. */
  lemma PickedIsAccepted(memlimit: Memory, opps: real, maxtime: real, logN: nat, p: nat)
    requires Best(memlimit, OpsLimit(opps, maxtime), logN, 8, p)
    ensures Check(Known(memlimit), Known(opps), maxtime, logN, 8, p, false)
         == if opps * maxtime >= 32768.0 then OK else ETOOSLOW
  {
    hide Pow2, MemoryFor, OpsFor, Check;
    CheckIsExact(Known(memlimit), Known(opps), maxtime, logN, 8, p, false);
    if opps * maxtime < 32768.0 {
      LeastChoice(memlimit, logN, p);
    }
  }
}

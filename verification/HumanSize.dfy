/** Printing and parsing sizes: libcperciva/util/humansize.c. */
module HumanSize {
  import opened Bits

  const MAX64: nat := 0xffff_ffff_ffff_ffff
  const PREFIXES: string := " kMGTPE"

  function Pow1000(k: nat): (n: nat)
    ensures n >= 1
  {
    if k == 0 then 1 else 1000 * Pow1000(k - 1)
  }

  //////////////////////////////////////////////////////////////////////////////
  // The sizes that can be shown
  //////////////////////////////////////////////////////////////////////////////

  /** A whole number of bytes or of units with an SI prefix, or a number of tenths of such units. */
  datatype Shown = Whole(n: nat, k: nat) | Tenths(n: nat, k: nat)

  /** The documented forms: "<N> B" up to 999, and "<X> <prefix>B" with 10 <= X <= 999 or 1.0 <= X <= 9.9. */
  predicate Documented(v: Shown) {
    match v
    case Whole(n, k) => if k == 0 then n <= 999 else k <= 6 && 10 <= n <= 999
    case Tenths(n, k) => 1 <= k <= 6 && 10 <= n <= 99
  }

  function ValueOf(v: Shown): nat
    requires Documented(v)
  {
    match v
    case Whole(n, k) => n * Pow1000(k)
    case Tenths(n, k) => n * (100 * Pow1000(k - 1))
  }

  function DigitChar(d: nat): (c: char)
    requires d < 10
    ensures '0' <= c <= '9' && c as int - '0' as int == d
  {
    ('0' as int + d) as char
  }

  /** %d */
  function Decimal(n: nat): (s: string)
    ensures |s| >= 1
  {
    if n < 10 then [DigitChar(n)] else Decimal(n / 10) + [DigitChar(n % 10)]
  }

  function Text(v: Shown): string
    requires Documented(v)
  {
    match v
    case Whole(n, k) => if k == 0 then Decimal(n) + " B" else Decimal(n) + [' ', PREFIXES[k], 'B']
    case Tenths(n, k) => Decimal(n / 10) + "." + Decimal(n % 10) + [' ', PREFIXES[k], 'B']
  }

  //////////////////////////////////////////////////////////////////////////////
  // humansize
  //////////////////////////////////////////////////////////////////////////////

  lemma {:induction false} Pow1000Grows(j: nat, k: nat)
    requires j < k
    ensures 1000 * Pow1000(j) <= Pow1000(k)
    decreases k
  {
    if j < k - 1 {
      Pow1000Grows(j, k - 1);
    }
  }

  /** q is size in units of u, rounded down. */
  predicate InUnits(size: nat, u: nat, q: nat) {
    q * u <= size < (q + 1) * u
  }

  /** Dividing again and again is dividing by a larger unit at once. */
  lemma NestedFloor(size: nat, u: nat, q: nat)
    requires InUnits(size, u, q)
    ensures InUnits(size, 1000 * u, q / 1000)
  {
    var t := q / 1000;
    assert 1000 * t <= q && q + 1 <= 1000 * (t + 1);
    MulMonotone(1000 * t, q, u);
    MulMonotone(q + 1, 1000 * (t + 1), u);
    assert 1000 * t * u == t * (1000 * u) && 1000 * (t + 1) * u == (t + 1) * (1000 * u);
  }

  /** The number of units of 100 * 1000^(k - 1) in a value shown with the k-th prefix. */
  function Units(w: Shown): nat {
    if w.Whole? then 10 * w.n else w.n
  }

  function Unit(k: nat): (u: nat)
    requires k >= 1
    ensures u >= 1
  {
    100 * Pow1000(k - 1)
  }

  lemma ValueInUnits(w: Shown)
    requires Documented(w) && w.k >= 1
    ensures ValueOf(w) == Units(w) * Unit(w.k) && 10 <= Units(w) <= 9990
  {
    if w.Whole? {
      assert Pow1000(w.k) == 10 * Unit(w.k);
      assert w.n * (10 * Unit(w.k)) == 10 * w.n * Unit(w.k);
    }
  }

  /** A value shown without a prefix or with a smaller one is at most ten units. */
  lemma Smaller(w: Shown, k: nat)
    requires Documented(w) && w.k < k
    ensures ValueOf(w) <= 10 * Unit(k)
  {
    Pow1000Grows(w.k, k);
    assert Pow1000(k) == 10 * Unit(k);
    if w.k == 0 {
      assert Pow1000(0) == 1;
    } else {
      ValueInUnits(w);
      assert Pow1000(w.k) == 10 * Unit(w.k);
      MulMonotone(Units(w), 10000, Unit(w.k));
    }
  }

  /** A value shown with a larger prefix is at least ten thousand units. */
  lemma Bigger(w: Shown, k: nat)
    requires Documented(w) && w.k > k >= 1
    ensures ValueOf(w) >= 10000 * Unit(k)
  {
    Pow1000Grows(k - 1, w.k - 1);
    ValueInUnits(w);
    MulMonotone(10, Units(w), Unit(w.k));
  }

  /** What humansize shows for q units of the k-th prefix. */
  function Rounded(k: nat, q: nat): Shown {
    if q < 100 then Tenths(q, k) else Whole(q / 10, k)
  }

  /** It is the largest documented value up to the size. */
  lemma Largest(size: nat, k: nat, q: nat, w: Shown)
    requires 1 <= k <= 6 && 10 <= q < 10000 && InUnits(size, Unit(k), q)
    requires Documented(w) && ValueOf(w) <= size
    ensures Documented(Rounded(k, q)) && ValueOf(w) <= ValueOf(Rounded(k, q)) <= size
  {
    hide ValueOf, Unit;
    var v, u := Rounded(k, q), Unit(k);
    ValueInUnits(v);
    MulMonotone(Units(v), q, u);
    if w.k > k {
      Bigger(w, k);
      MulMonotone(q + 1, 10000, u);
    } else if w.k < k {
      Smaller(w, k);
      MulMonotone(10, Units(v), u);
    } else {
      ValueInUnits(w);
      if Units(w) > q {
        MulMonotone(q + 1, Units(w), u);
      }
      MulMonotone(Units(w), Units(v), u);
    }
  }

  lemma SmallLargest(size: nat, w: Shown)
    requires size < 1000 && Documented(w) && ValueOf(w) <= size
    ensures ValueOf(w) <= ValueOf(Whole(size, 0))
  {
    assert Pow1000(0) == 1;
  }

  lemma Units6()
    ensures Unit(6) == 100000000000000000
  {
    assert Pow1000(1) == 1000 && Pow1000(2) == 1000000 && Pow1000(3) == 1000000000;
    assert Pow1000(5) == 1000 * (1000 * Pow1000(3));
  }

  /** v is the largest documented value up to the size. */
  ghost predicate IsLargest(size: nat, v: Shown) {
    && Documented(v) && ValueOf(v) <= size
    && forall w: Shown {:trigger ValueOf(w)} :: Documented(w) && ValueOf(w) <= size ==> ValueOf(w) <= ValueOf(v)
  }

  /** humansize: the string shows the largest documented value up to the size. */
  method HumanSize(size: nat) returns (s: string)
    requires size < 0x1_0000_0000_0000_0000
    ensures exists v: Shown :: IsLargest(size, v) && s == Text(v)
  {
    hide Unit, Decimal;
    if size < 1000 {
      ghost var v := Whole(size, 0);
      assert Pow1000(0) == 1;
      forall w: Shown {:trigger ValueOf(w)} | Documented(w) && ValueOf(w) <= size
        ensures ValueOf(w) <= ValueOf(v)
      {
        SmallLargest(size, w);
      }
      assert IsLargest(size, v);
      return Decimal(size) + " B";
    }
    var q, shiftcnt := size / 100, 1;
    FirstUnit(size);
    while q >= 10000
      invariant 1 <= shiftcnt <= 6 && q >= 10 && InUnits(size, Unit(shiftcnt), q)
      decreases q
    {
      PrefixExists(size, shiftcnt, q);
      NestedFloor(size, Unit(shiftcnt), q);
      NextUnit(shiftcnt);
      q, shiftcnt := q / 1000, shiftcnt + 1;
    }
    ghost var v := Rounded(shiftcnt, q);
    var prefix := PREFIXES[shiftcnt];
    if q < 100 {
      s := Decimal(q / 10) + "." + Decimal(q % 10) + [' ', prefix, 'B'];
    } else {
      s := Decimal(q / 10) + [' ', prefix, 'B'];
    }
    Fits(size, shiftcnt, q);
    forall w: Shown {:trigger ValueOf(w)} | Documented(w) && ValueOf(w) <= size
      ensures ValueOf(w) <= ValueOf(v)
    {
      Largest(size, shiftcnt, q, w);
    }
    assert IsLargest(size, v);
  }

  lemma FirstUnit(size: nat)
    ensures InUnits(size, Unit(1), size / 100)
  {
    assert Pow1000(0) == 1;
  }

  lemma NextUnit(k: nat)
    requires k >= 1
    ensures Unit(k + 1) == 1000 * Unit(k)
  {
  }

  /** A 64-bit size never needs more than the six prefixes. */
  lemma PrefixExists(size: nat, k: nat, q: nat)
    requires size <= MAX64 && 1 <= k <= 6 && q >= 10000 && InUnits(size, Unit(k), q)
    ensures k < 6
  {
    Units6();
    MulMonotone(10000, q, Unit(k));
  }

  lemma Fits(size: nat, k: nat, q: nat)
    requires 1 <= k <= 6 && 10 <= q < 10000 && InUnits(size, Unit(k), q)
    ensures Documented(Rounded(k, q)) && ValueOf(Rounded(k, q)) <= size
  {
    hide ValueOf, Unit;
    ValueInUnits(Rounded(k, q));
    MulMonotone(Units(Rounded(k, q)), q, Unit(k));
  }

  //////////////////////////////////////////////////////////////////////////////
  // The language [0-9]+ ?[kMGTPE]?B? and its values
  //////////////////////////////////////////////////////////////////////////////

  predicate IsDigit(c: char) {
    '0' <= c <= '9'
  }

  function DigitOf(c: char): (d: nat)
    requires IsDigit(c)
    ensures d < 10
  {
    c as int - '0' as int
  }

  predicate IsPrefix(c: char) {
    c == 'k' || c == 'M' || c == 'G' || c == 'T' || c == 'P' || c == 'E'
  }

  /** The power of 1000 that a prefix stands for; any other character stands for 1. */
  function Multiplier(c: char): (m: nat)
    ensures m >= 1 && (m != 1 <==> IsPrefix(c))
  {
    if c == 'k' then 1000
    else if c == 'M' then 1000_000
    else if c == 'G' then 1000_000_000
    else if c == 'T' then 1000_000_000_000
    else if c == 'P' then 1000_000_000_000_000
    else if c == 'E' then 1000_000_000_000_000_000
    else 1
  }

  /** The value of a decimal numeral. */
  function DecimalValue(d: string): nat
    requires forall i | 0 <= i < |d| :: IsDigit(d[i])
  {
    if d == "" then 0 else 10 * DecimalValue(d[..|d| - 1]) + DigitOf(d[|d| - 1])
  }

  /** s is digits, an optional space, an optional prefix and an optional B. */
  ghost predicate Form(s: string, digits: string, space: string, prefix: string, unit: string) {
    && s == digits + space + prefix + unit
    && |digits| >= 1 && (forall i | 0 <= i < |digits| :: IsDigit(digits[i]))
    && (space == "" || space == " ")
    && (prefix == "" || (|prefix| == 1 && IsPrefix(prefix[0])))
    && (unit == "" || unit == "B")
  }

  function PrefixValue(prefix: string): nat {
    if prefix == "" then 1 else Multiplier(prefix[0])
  }

  //////////////////////////////////////////////////////////////////////////////
  // What may follow in each state of the parser
  //////////////////////////////////////////////////////////////////////////////

  predicate AfterPrefix(t: string) {
    t == "" || t == "B"
  }

  predicate AfterSpace(t: string) {
    AfterPrefix(t) || (t != "" && IsPrefix(t[0]) && AfterPrefix(t[1..]))
  }

  predicate AfterDigits(t: string) {
    AfterSpace(t) || (t != "" && t[0] == ' ' && AfterSpace(t[1..]))
  }

  predicate InDigits(t: string) {
    if t != "" && IsDigit(t[0]) then InDigits(t[1..]) else AfterDigits(t)
  }

  predicate IsSize(s: string) {
    s != "" && IsDigit(s[0]) && InDigits(s)
  }

  function SpaceFactor(t: string): (m: nat)
    ensures m >= 1
  {
    if t == "" then 1 else Multiplier(t[0])
  }

  function DigitsFactor(t: string): (m: nat)
    ensures m >= 1
  {
    if t != "" && t[0] == ' ' then SpaceFactor(t[1..]) else SpaceFactor(t)
  }

  /** The value when size has been read and t follows. */
  function Number(size: nat, t: string): (n: nat)
    ensures n >= size
    decreases |t|
  {
    if t != "" && IsDigit(t[0]) then Number(10 * size + DigitOf(t[0]), t[1..])
    else MultiplyGrows(size, DigitsFactor(t)); size * DigitsFactor(t)
  }

  lemma MultiplyGrows(size: nat, m: nat)
    requires m >= 1
    ensures size * m >= size
  {
  }

  function SizeOf(s: string): nat {
    Number(0, s)
  }

  /** t may follow in this state. */
  predicate Accepts(state: int, t: string) {
    if state == 0 then IsSize(t)
    else if state == 1 then InDigits(t)
    else if state == 3 then AfterSpace(t)
    else if state == 4 then AfterPrefix(t)
    else t == ""
  }

  /** The value of the whole when t follows in this state. */
  function Total(state: int, size: nat, multiplier: nat, t: string): nat {
    if state == 0 then Number(0, t)
    else if state == 1 then Number(size, t)
    else if state == 3 then size * SpaceFactor(t)
    else size * multiplier
  }

  predicate Between(state: int, size: nat, multiplier: nat) {
    && (state == 0 || state == 1 || state == 3 || state == 4 || state == 5)
    && size <= MAX64 && multiplier >= 1
    && (state != 4 && state != 5 ==> multiplier == 1)
  }

  //////////////////////////////////////////////////////////////////////////////
  // humansize_parse
  //////////////////////////////////////////////////////////////////////////////

  /** The switch on the prefix, whose cases fall through. */
  method ApplyPrefix(c: char) returns (multiplier: nat)
    ensures multiplier == Multiplier(c)
  {
    multiplier := 1;
    var matched := c == 'E';
    if matched {
      multiplier := multiplier * 1000;
    }
    matched := matched || c == 'P';
    if matched {
      multiplier := multiplier * 1000;
    }
    matched := matched || c == 'T';
    if matched {
      multiplier := multiplier * 1000;
    }
    matched := matched || c == 'G';
    if matched {
      multiplier := multiplier * 1000;
    }
    matched := matched || c == 'M';
    if matched {
      multiplier := multiplier * 1000;
    }
    matched := matched || c == 'k';
    if matched {
      multiplier := multiplier * 1000;
    }
  }

  /** A digit is read: the error state is entered when the number no longer fits. */
  method ReadDigit(size0: nat, c: char) returns (state: int, size: nat)
    requires size0 <= MAX64 && IsDigit(c)
    ensures state == if 10 * size0 + DigitOf(c) <= MAX64 then 1 else -1
    ensures state == 1 ==> size == 10 * size0 + DigitOf(c)
  {
    state, size := 1, size0;
    if size > MAX64 / 10 {
      state := -1;
    } else {
      size := size * 10;
    }
    if size > MAX64 - DigitOf(c) {
      state := -1;
    } else {
      size := size + DigitOf(c);
    }
  }

  /** The switch on the state, whose cases fall through: one character c is read and t follows. */
  method Step(state0: int, size0: nat, multiplier0: nat, c: char, ghost t: string)
    returns (state: int, size: nat, multiplier: nat)
    requires Between(state0, size0, multiplier0)
    ensures multiplier >= 1
    ensures state == -1 ==>
              !(Accepts(state0, [c] + t) && Total(state0, size0, multiplier0, [c] + t) <= MAX64)
    ensures state != -1 ==>
              && state != 0 && Between(state, size, multiplier)
              && (Accepts(state0, [c] + t) <==> Accepts(state, t))
              && (Accepts(state, t) ==> Total(state0, size0, multiplier0, [c] + t) == Total(state, size, multiplier, t))
  {
    ghost var u := [c] + t;
    assert u[0] == c && u[1..] == t;
    state, size, multiplier := state0, size0, multiplier0;
    var at := state0;
    if at == 0 {
      size := 0;
      if !IsDigit(c) {
        state := -1;
        return;
      }
      at := 1;
    }
    if at == 1 {
      state := 1;
      if IsDigit(c) {
        state, size := ReadDigit(size, c);
        return;
      }
      at := 2;
    }
    if at == 2 {
      state := 3;
      if c == ' ' {
        return;
      }
      at := 3;
    }
    if at == 3 {
      multiplier := ApplyPrefix(c);
      state := 4;
      if multiplier != 1 {
        return;
      }
      at := 4;
    }
    if at == 4 {
      state := 5;
      if c == 'B' {
        return;
      }
    }
    state := -1;
  }

  lemma AtStart(s: string)
    ensures IsSize(s) <==> Accepts(0, s[0..])
    ensures SizeOf(s) == Total(0, 0, 1, s[0..])
    ensures !IsSize("")
  {
    assert s[0..] == s;
  }

  /** At the end of the string every state but the error state accepts. */
  lemma AtEnd(state: int, size: nat, multiplier: nat, c: char)
    requires state != -1 ==> state != 0 && Between(state, size, multiplier)
    ensures state != -1 ==> Accepts(state, "") && Total(state, size, multiplier, "") == size * multiplier
    ensures c == '\0' ==> !Accepts(0, [c] + "")
  {
  }

  /** humansize_parse accepts exactly the sizes that fit into 64 bits, and returns their values. */
  method Parse(s: string) returns (ok: bool, size: nat)
    requires '\0' !in s
    ensures ok <==> IsSize(s) && SizeOf(s) < 0x1_0000_0000_0000_0000
    ensures ok ==> size == SizeOf(s)
  {
    hide Accepts, Total, IsSize, SizeOf;
    var state, multiplier, i := 0, 1, 0;
    AtStart(s);
    size := 0;
    while true
      invariant 0 <= i <= |s| && (i == |s| ==> s == "")
      invariant Between(state, size, multiplier) && (i == 0 <==> state == 0)
      invariant IsSize(s) <==> Accepts(state, s[i..])
      invariant IsSize(s) ==> SizeOf(s) == Total(state, size, multiplier, s[i..])
      decreases |s| - i
    {
      var c := if i < |s| then s[i] else '\0';
      ghost var t := if i < |s| then s[i + 1..] else "";
      assert i < |s| ==> s[i..] == [c] + t;
      state, size, multiplier := Step(state, size, multiplier, c, t);
      i := i + 1;
      if state == -1 || i >= |s| {
        AtEnd(state, size, multiplier, c);
        break;
      }
    }
    DivideOnce(MAX64, multiplier, size);
    if size > MAX64 / multiplier {
      state := -1;
    } else {
      size := size * multiplier;
    }
    ok := state != -1;
  }

  //////////////////////////////////////////////////////////////////////////////
  // The parser's language is the documented one
  //////////////////////////////////////////////////////////////////////////////

  /** The part after the digits. */
  lemma SuffixForm(space: string, prefix: string, unit: string)
    requires (space == "" || space == " ") && (unit == "" || unit == "B")
    requires prefix == "" || (|prefix| == 1 && IsPrefix(prefix[0]))
    ensures var t := space + prefix + unit;
            (AfterDigits(t) && DigitsFactor(t) == PrefixValue(prefix) && (t != "" ==> !IsDigit(t[0])))
  {
    var t, u := space + prefix + unit, prefix + unit;
    assert AfterPrefix(unit);
    if prefix != "" {
      assert u[0] == prefix[0] && u[1..] == unit;
    } else {
      assert u == unit;
    }
    if space != "" {
      assert t[0] == ' ' && t[1..] == u;
    } else {
      assert t == u;
    }
  }

  /** Digits in front of a suffix, when the number read before them is a. */
  lemma {:induction false} DigitsForm(a: nat, d: string, t: string)
    requires forall i | 0 <= i < |d| :: IsDigit(d[i])
    requires AfterDigits(t) && (t != "" ==> !IsDigit(t[0]))
    ensures InDigits(d + t)
    ensures Number(a, d + t) == ReadOn(a, d) * DigitsFactor(t)
    decreases |d|
  {
    if d == "" {
      assert d + t == t;
    } else {
      assert (d + t)[0] == d[0] && (d + t)[1..] == d[1..] + t;
      DigitsForm(10 * a + DigitOf(d[0]), d[1..], t);
    }
  }

  /** The number when a has been read and digits follow. */
  function ReadOn(a: nat, d: string): nat
    requires forall i | 0 <= i < |d| :: IsDigit(d[i])
    decreases |d|
  {
    if d == "" then a else ReadOn(10 * a + DigitOf(d[0]), d[1..])
  }

  lemma {:induction false} ReadOnLast(a: nat, d: string)
    requires d != "" && forall i | 0 <= i < |d| :: IsDigit(d[i])
    ensures ReadOn(a, d) == 10 * ReadOn(a, d[..|d| - 1]) + DigitOf(d[|d| - 1])
    decreases |d|
  {
    if |d| > 1 {
      ReadOnLast(10 * a + DigitOf(d[0]), d[1..]);
      assert d[1..][..|d| - 2] == d[..|d| - 1][1..];
    }
  }

  lemma {:induction false} ReadOnIsValue(d: string)
    requires forall i | 0 <= i < |d| :: IsDigit(d[i])
    ensures ReadOn(0, d) == DecimalValue(d)
    decreases |d|
  {
    if d != "" {
      ReadOnLast(0, d);
      ReadOnIsValue(d[..|d| - 1]);
    }
  }

  /** Every string of the documented form is a size, and its value is the number times the prefix. */
  lemma FormIsSize(s: string, digits: string, space: string, prefix: string, unit: string)
    requires Form(s, digits, space, prefix, unit)
    ensures IsSize(s) && SizeOf(s) == DecimalValue(digits) * PrefixValue(prefix)
  {
    hide InDigits, AfterDigits, DigitsFactor, Number, PrefixValue;
    var t := space + prefix + unit;
    assert s == digits + t;
    SuffixForm(space, prefix, unit);
    DigitsForm(0, digits, t);
    ReadOnIsValue(digits);
  }

  lemma {:induction false} SplitDigits(t: string) returns (d: string, u: string)
    requires InDigits(t)
    ensures t == d + u && (forall i | 0 <= i < |d| :: IsDigit(d[i])) && AfterDigits(u)
    ensures t != "" && IsDigit(t[0]) ==> |d| >= 1
    decreases |t|
  {
    if t != "" && IsDigit(t[0]) {
      d, u := SplitDigits(t[1..]);
      d := [t[0]] + d;
    } else {
      d, u := "", t;
    }
  }

  /** Every size has the documented form. */
  lemma SizeHasForm(s: string) returns (digits: string, space: string, prefix: string, unit: string)
    requires IsSize(s)
    ensures Form(s, digits, space, prefix, unit)
  {
    var t;
    digits, t := SplitDigits(s);
    space, prefix := "", "";
    var u := t;
    if !AfterSpace(t) {
      space, u := " ", t[1..];
      assert t == space + u;
    }
    unit := u;
    if !AfterPrefix(u) {
      prefix, unit := [u[0]], u[1..];
      assert u == prefix + unit;
    }
    assert s == digits + space + prefix + unit;
  }

  //////////////////////////////////////////////////////////////////////////////
  // Printing and parsing
  //////////////////////////////////////////////////////////////////////////////

  /** A printed number is read back, and has no leading zero. */
  lemma {:induction false} DecimalRoundTrip(n: nat)
    ensures forall i | 0 <= i < |Decimal(n)| :: IsDigit(Decimal(n)[i])
    ensures DecimalValue(Decimal(n)) == n
    ensures Decimal(n)[0] == '0' <==> n == 0
    decreases n
  {
    var s := Decimal(n);
    if n >= 10 {
      DecimalRoundTrip(n / 10);
      assert s[..|s| - 1] == Decimal(n / 10) && s[|s| - 1] == DigitChar(n % 10);
    } else {
      assert s[..0] == "" && DecimalValue("") == 0;
    }
  }

  lemma PrefixesMatch(k: nat)
    requires 1 <= k <= 6
    ensures IsPrefix(PREFIXES[k]) && Multiplier(PREFIXES[k]) == Pow1000(k)
  {
    assert Pow1000(1) == 1000 && Pow1000(2) == 1000000 && Pow1000(3) == 1000000000;
    assert Pow1000(4) == 1000 * Pow1000(3) && Pow1000(5) == 1000 * Pow1000(4) && Pow1000(6) == 1000 * Pow1000(5);
  }

  /** "<N> B" or "<X> <prefix>B": the numeral times the prefix is the value. */
  lemma WholeReads(v: Shown) returns (digits: string, prefix: string)
    requires Documented(v) && v.Whole?
    ensures Form(Text(v), digits, " ", prefix, "B") && (digits[0] == '0' ==> digits == "0")
    ensures DecimalValue(digits) * PrefixValue(prefix) == ValueOf(v)
  {
    hide Decimal;
    digits, prefix := Decimal(v.n), if v.k == 0 then "" else [PREFIXES[v.k]];
    DecimalRoundTrip(v.n);
    if v.k == 0 {
      assert Text(v) == digits + " " + "" + "B" && Pow1000(0) == 1;
      assert Decimal(0) == "0" by { SmallDecimal(0); }
    } else {
      PrefixesMatch(v.k);
      assert Text(v) == digits + " " + prefix + "B";
    }
  }

  lemma SmallDecimal(n: nat)
    requires n < 10
    ensures |Decimal(n)| == 1 && IsDigit(Decimal(n)[0]) && DigitOf(Decimal(n)[0]) == n
  {
  }

  /** "<X> <prefix>B" with one decimal place: ten times the number shown, times the prefix, is ten times the value. */
  lemma TenthsRead(v: Shown)
    requires Documented(v) && v.Tenths?
    ensures var s := Text(v);
            && |s| == 6 && IsDigit(s[0]) && s[0] != '0' && s[1] == '.' && IsDigit(s[2])
            && s[3] == ' ' && IsPrefix(s[4]) && s[5] == 'B'
            && (10 * DigitOf(s[0]) + DigitOf(s[2])) * Multiplier(s[4]) == 10 * ValueOf(v)
  {
    hide Decimal, IsPrefix, Multiplier;
    SmallDecimal(v.n / 10);
    SmallDecimal(v.n % 10);
    PrefixesMatch(v.k);
    assert Pow1000(v.k) == 1000 * Pow1000(v.k - 1);
    assert v.n * (1000 * Pow1000(v.k - 1)) == 10 * (v.n * (100 * Pow1000(v.k - 1)));
  }

  /** Of the strings that humansize prints, exactly those without a decimal point parse, to the value shown. */
  lemma PrintedParses(v: Shown)
    requires Documented(v)
    ensures IsSize(Text(v)) <==> v.Whole?
    ensures v.Whole? ==> SizeOf(Text(v)) == ValueOf(v)
  {
    match v {
      case Whole(n, k) =>
        hide IsSize, SizeOf, Decimal;
        DecimalRoundTrip(n);
        if k == 0 {
          assert Text(v) == Decimal(n) + " " + "" + "B";
          FormIsSize(Text(v), Decimal(n), " ", "", "B");
        } else {
          PrefixesMatch(k);
          assert Text(v) == Decimal(n) + " " + [PREFIXES[k]] + "B";
          FormIsSize(Text(v), Decimal(n), " ", [PREFIXES[k]], "B");
        }
      case Tenths(n, k) =>
        var s := Text(v);
        assert s[0] == DigitChar(n / 10) && s[1] == '.' && |s| > 2;
        assert !InDigits(s[1..]);
    }
  }
}

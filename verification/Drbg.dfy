/** HMAC_DRBG of section 10.1.2 of NIST SP 800-90A, and the generator of libcperciva/crypto/crypto_entropy.c. */
module Drbg {
  import opened Bytes
  import opened Hmac
  import opened Mem
  import opened Sha256Spec
  import opened Wrappers

  //////////////////////////////////////////////////////////////////////////////
  // Section 10.1.2
  //////////////////////////////////////////////////////////////////////////////

  datatype StateData = State(key: seq<byte>, v: seq<byte>)

  type State = s: StateData | |s.key| == 32 && |s.v| == 32 witness State(Zeros(32), Zeros(32))

  /** Section 10.1.2.2. */
  ghost function Mixed(s: State, b: byte, data: seq<byte>): State {
    var K := HmacSha256(s.key, s.v + [b] + data);
    State(K, HmacSha256(K, s.v))
  }

  ghost function Updated(s: State, data: seq<byte>): State {
    var t := Mixed(s, 0x00, data);
    if data == [] then t else Mixed(t, 0x01, data)
  }

  /** Extra octets, if there are any, are one more update. */
  ghost function Stirred(s: State, extra: Option<seq<byte>>): State {
    if extra.None? then s else Updated(s, extra.value)
  }

  /** Section 10.1.2.3, without a personalization string. */
  ghost function Instantiated(seed: seq<byte>): State {
    Updated(State(Zeros(32), Repeat(0x01, 32)), seed)
  }

  /** V after i steps of the loop of section 10.1.2.5. */
  ghost function Step(s: State, i: nat): (v: seq<byte>)
    ensures |v| == 32
  {
    if i == 0 then s.v else HmacSha256(s.key, Step(s, i - 1))
  }

  /** temp after i steps. */
  ghost function Temp(s: State, i: nat): (t: seq<byte>)
    ensures |t| == 32 * i
  {
    if i == 0 then [] else Temp(s, i - 1) + Step(s, i)
  }

  function Steps(n: nat): (i: nat)
    ensures 32 * i >= n && (n > 0 ==> 32 * (i - 1) < n)
  {
    (n + 31) / 32
  }

  /** Section 10.1.2.5: n octets of output, and the state after it. */
  ghost function Output(s: State, n: nat): (out: seq<byte>)
    ensures |out| == n
  {
    Temp(s, Steps(n))[..n]
  }

  ghost function AfterOutput(s: State, n: nat): State {
    Updated(State(s.key, Step(s, Steps(n))), [])
  }

  //////////////////////////////////////////////////////////////////////////////
  // Histories
  //////////////////////////////////////////////////////////////////////////////

  /** What the generator has done, with the entropy that it was given. */
  datatype Event =
    | Instantiate(seed: seq<byte>, extra: Option<seq<byte>>)
    | Reseed(seed: seq<byte>, extra: Option<seq<byte>>)
    | Generate(n: nat)

  /** The reseed counter. */
  ghost function Counter(h: seq<Event>): nat {
    if h == [] then 0
    else if h[|h| - 1].Generate? then Counter(h[..|h| - 1]) + 1
    else 1
  }

  /** The working state. */
  ghost function StateAfter(h: seq<Event>): State {
    if h == [] then State(Zeros(32), Repeat(0x01, 32))
    else
      var s := StateAfter(h[..|h| - 1]);
      match h[|h| - 1]
      case Instantiate(seed, extra) => Stirred(Instantiated(seed), extra)
      case Reseed(seed, extra) => Stirred(Updated(s, seed), extra)
      case Generate(n) => AfterOutput(s, n)
  }

  /** The output of the events from i on. */
  ghost function Outputs(h: seq<Event>, i: nat): (out: seq<byte>)
    requires i <= |h|
    decreases |h|
  {
    if i == |h| then []
    else
      var g := h[..|h| - 1];
      Outputs(g, i) + if h[|h| - 1].Generate? then Output(StateAfter(g), h[|h| - 1].n) else []
  }

  /** Instantiated once and first, reseeded after 256 steps, never asked for more than 65536 octets at once. */
  ghost predicate Legal(h: seq<Event>) {
    h == [] ||
    (var g, e := h[..|h| - 1], h[|h| - 1];
     && Legal(g)
     && match e
        case Instantiate(seed, _) => g == [] && |seed| == 48
        case Reseed(seed, _) => g != [] && |seed| == 32 && Counter(g) > 256
        case Generate(n) => g != [] && 1 <= n <= 65536 && Counter(g) <= 256)
  }

  /** Every generate happens with a counter between 1 and 256 and for at most 65536 octets. */
  lemma {:induction false} EveryGenerate(h: seq<Event>, i: nat)
    requires Legal(h) && i < |h| && h[i].Generate?
    ensures 1 <= Counter(h[..i]) <= 256 && 1 <= h[i].n <= 65536
    decreases |h|
  {
    var g := h[..|h| - 1];
    if i == |h| - 1 {
      CounterPositive(g);
    } else {
      EveryGenerate(g, i);
      assert g[..i] == h[..i];
    }
  }

  lemma {:induction false} CounterPositive(h: seq<Event>)
    requires h != []
    ensures Counter(h) >= 1
  {
  }

  /** The counter never goes beyond 257. */
  lemma CounterBelow(h: seq<Event>)
    requires Legal(h)
    ensures Counter(h) <= 257
  {
  }

  /** A reseed happens with a counter of exactly 257, on 32 octets of entropy; an instantiation is first, on 48. */
  lemma {:induction false} EveryReseed(h: seq<Event>, i: nat)
    requires Legal(h) && i < |h| && !h[i].Generate?
    ensures i == 0 <==> h[i].Instantiate?
    ensures h[i].Reseed? ==> Counter(h[..i]) == 257
    ensures |h[i].seed| == if i == 0 then 48 else 32
    decreases |h|
  {
    var g := h[..|h| - 1];
    if i == |h| - 1 {
      CounterBelow(g);
    } else {
      EveryReseed(g, i);
      assert g[..i] == h[..i];
    }
  }

  /** A stretch without a reseed has at most 256 generates. */
  lemma {:induction false} GeneratesBetweenReseeds(h: seq<Event>, i: nat, j: nat)
    requires Legal(h) && i <= j <= |h| && i >= 1
    requires forall k | i <= k < j :: h[k].Generate?
    ensures Counter(h[..j]) == Counter(h[..i]) + (j - i)
    ensures j - i <= 256
    decreases j
  {
    CounterPositive(h[..i]);
    if i < j {
      GeneratesBetweenReseeds(h, i, j - 1);
      assert h[..j][..j - 1] == h[..j - 1];
      EveryGenerate(h, j - 1);
    }
  }

  /** Later events do not change what was put out before. */
  lemma OutputsNext(h: seq<Event>, e: Event, i: nat)
    requires i <= |h|
    ensures Outputs(h + [e], i) == if e.Generate? then Outputs(h, i) + Output(StateAfter(h), e.n) else Outputs(h, i)
    ensures Counter(h + [e]) == if e.Generate? then Counter(h) + 1 else 1
  {
    hide Output;
    assert (h + [e])[..|h|] == h;
  }

  //////////////////////////////////////////////////////////////////////////////
  // The generator
  //////////////////////////////////////////////////////////////////////////////

  /** The operating system's entropy: request number i is answered with any octets, or not at all. */
  class EntropySource {
    const answer: nat -> Option<seq<byte>>
    var next: nat

    constructor (answer: nat -> Option<seq<byte>>)
      ensures this.answer == answer && next == 0
    {
      this.answer := answer;
      next := 0;
    }

    /** Request i for n octets succeeds. */
    predicate Delivers(i: nat, n: nat) {
      answer(i).Some? && |answer(i).value| == n
    }

    /** entropy_read */
    method Read(n: nat) returns (r: Option<seq<byte>>)
      modifies this`next
      ensures next == old(next) + 1
      ensures r == if Delivers(old(next), n) then answer(old(next)) else None
    {
      r := if Delivers(next, n) then answer(next) else None;
      next := next + 1;
    }
  }

  /** update_from_rdrand, when the processor has the instruction and it delivers: any octets. */
  method RdRand() returns (r: Option<seq<byte>>)
    ensures r.Some? ==> |r.value| == 32
  {
    var fails: bool := *;
    if fails {
      return None;
    }
    assert |Zeros(32)| == 32;
    var extra: seq<byte> :| |extra| == 32;
    r := Some(extra);
  }

  /** One mixing stage of update, on the local copies of Key and V. */
  method MixStage(hwaccel: bool, K: array<byte>, Vx: array<byte>, b: byte, data: seq<byte>, ghost s: State)
    requires K.Length == 32 && Vx.Length == 33 && K != Vx
    requires K[..] == s.key && Vx[..32] == s.v
    modifies K, Vx
    ensures K[..] == Mixed(s, b, data).key && Vx[..32] == Mixed(s, b, data).v
  {
    hide HmacContext.Valid, HmacContext.Absorbed, HmacSha256, Put;
    var src := new byte[|data|](i requires 0 <= i < |data| => data[i]);
    assert src[..] == data;
    Vx[32] := b;
    assert Vx[0..0 + 33] == s.v + [b];
    var ctx := new HmacContext(hwaccel);
    ctx.Init(K, 0, 32);
    assert K[0..0 + 32] == s.key;
    ctx.Update(s.key, [], Vx, 0, 33);
    assert [] + (s.v + [b]) == s.v + [b];
    ctx.Update(s.key, s.v + [b], src, 0, |data|);
    assert src[0..0 + |data|] == data;
    ghost var z := K[..];
    ctx.Final(s.key, s.v + [b] + data, K, 0);
    PutAll(z, HmacSha256(s.key, s.v + [b] + data));
    assert K[..32] == K[..] && Vx[..32] == s.v;
    z := Vx[..];
    HmacSha256Buf(hwaccel, K, 32, Vx, 32, Vx, 0);
    PutEnd(z, 0, HmacSha256(K[..], s.v));
    assert Vx[..32] == Vx[..][..32];
  }

  const RESEED_INTERVAL: nat := 256
  const GENERATE_MAXLEN: nat := 65536

  class Generator {
    const Key: array<byte>
    const V: array<byte>
    var reseedCounter: nat
    var instantiated: bool
    const hwaccel: bool
    ghost var history: seq<Event>

    ghost predicate Arrays() {
      Key.Length == 32 && V.Length == 32 && Key != V
    }

    /** Key and V hold the working state s. */
    ghost predicate Has(s: State)
      reads Key, V
    {
      Arrays() && Key[..] == s.key && V[..] == s.v
    }

    /** The fields are what the history makes them. */
    ghost predicate Valid()
      reads this, Key, V
    {
      && Arrays() && Legal(history)
      && (instantiated <==> history != [])
      && (instantiated ==> Has(StateAfter(history)) && reseedCounter == Counter(history))
    }

    constructor (hwaccel: bool)
      ensures Valid() && history == [] && fresh(Key) && fresh(V)
    {
      Key, V := new byte[32], new byte[32];
      reseedCounter := 0;
      instantiated := false;
      this.hwaccel := hwaccel;
      history := [];
    }

    /** update */
    method Update(data: seq<byte>, ghost s: State)
      requires Has(s)
      modifies Key, V
      ensures Has(Updated(s, data))
    {
      hide Mixed, Put;
      var K, Vx := new byte[32], new byte[33];
      ghost var z := K[..];
      MemCpy(K, 0, Key, 0, 32);
      CopyStart(z, Key[..], 32);
      z := Vx[..];
      MemCpy(Vx, 0, V, 0, 32);
      CopyStart(z, V[..], 32);
      assert K[..] == K[..][..32] && Key[..] == Key[..][..32];
      assert Vx[..32] == Vx[..][..32] && V[..] == V[..][..32];
      MixStage(hwaccel, K, Vx, 0x00, data, s);
      if |data| != 0 {
        MixStage(hwaccel, K, Vx, 0x01, data, Mixed(s, 0x00, data));
      }
      z := Key[..];
      MemCpy(Key, 0, K, 0, 32);
      CopyStart(z, K[..], 32);
      z := V[..];
      MemCpy(V, 0, Vx, 0, 32);
      CopyStart(z, Vx[..], 32);
      assert Key[..] == Key[..][..32] && K[..] == K[..][..32];
      assert V[..] == V[..][..32] && Vx[..32] == Vx[..][..32];
    }

    /** The extra update from RDRAND. */
    method Stir(extra: Option<seq<byte>>, ghost s: State)
      requires Has(s)
      modifies Key, V
      ensures Has(Stirred(s, extra))
    {
      if extra.Some? {
        Update(extra.value, s);
      }
    }

    /** The two calls of memset in instantiate. */
    method Reset()
      requires Arrays()
      modifies Key, V
      ensures Has(State(Zeros(32), Repeat(0x01, 32)))
    {
      forall k | 0 <= k < 32 {
        Key[k] := 0x00;
      }
      forall k | 0 <= k < 32 {
        V[k] := 0x01;
      }
      assert Key[..] == Zeros(32) && V[..] == Repeat(0x01, 32);
    }

    /** instantiate: it fails exactly when its one request for entropy does. */
    method InstantiateIt(src: EntropySource) returns (failed: bool)
      requires Valid() && !instantiated
      modifies Key, V, this`reseedCounter, this`instantiated, this`history, src`next
      ensures Valid() && (failed <==> !instantiated) && Outputs(history, |old(history)|) == []
      ensures src.next == old(src.next) + 1 && (failed <==> !src.Delivers(old(src.next), 48))
      ensures failed ==> history == []
      ensures !failed ==> reseedCounter == 1 && |history| == 1 && history[0].Instantiate?
                          && history[0].seed == src.answer(old(src.next)).value
    {
      hide Mixed, Updated, Stirred, AfterOutput, Zeros, Repeat;
      var seed := src.Read(48);
      if seed.None? {
        return true;
      }
      Reset();
      reseedCounter := 1;
      Update(seed.value, State(Zeros(32), Repeat(0x01, 32)));
      var extra := RdRand();
      Stir(extra, Instantiated(seed.value));
      OutputsNext([], Instantiate(seed.value, extra), 0);
      history := [Instantiate(seed.value, extra)];
      assert [] + [Instantiate(seed.value, extra)] == history;
      instantiated := true;
      failed := false;
    }

    /** reseed: it fails exactly when its one request for entropy does. */
    method ReseedIt(src: EntropySource) returns (failed: bool)
      requires Valid() && instantiated && reseedCounter > 256
      modifies Key, V, this`reseedCounter, this`history, src`next
      ensures Valid() && src.next == old(src.next) + 1 && (failed <==> !src.Delivers(old(src.next), 32))
      ensures failed ==> history == old(history) && reseedCounter == old(reseedCounter)
      ensures !failed ==> reseedCounter == 1 && history != [] && history[|history| - 1].Reseed?
                          && history[|history| - 1].seed == src.answer(old(src.next)).value
      ensures !failed ==> history == old(history) + [history[|history| - 1]]
    {
      hide Mixed, Updated, Stirred, AfterOutput;
      var seed := src.Read(32);
      if seed.None? {
        return true;
      }
      ghost var s := StateAfter(history);
      Update(seed.value, s);
      var extra := RdRand();
      Stir(extra, Updated(s, seed.value));
      ghost var e := Reseed(seed.value, extra);
      assert (history + [e])[..|history|] == history;
      reseedCounter := 1;
      history := history + [e];
      failed := false;
    }

    /** The loop of generate: V moves on, and is copied as far as octets are wanted. */
    method FillFrom(buf: array<byte>, off: nat, buflen: nat, ghost s: State)
      requires Has(s) && off + buflen <= buf.Length && buf != Key && buf != V
      modifies V, buf
      ensures Has(State(s.key, Step(s, Steps(buflen))))
      ensures buf[..] == Put(old(buf[..]), off, Output(s, buflen))
    {
      hide HmacSha256, Put, Temp;
      ghost var b0 := buf[..];
      var bufpos, i := 0, 0;
      NothingYet(s, b0, off);
      while bufpos < buflen
        invariant bufpos == 32 * i && i <= Steps(buflen) && Has(State(s.key, Step(s, i)))
        invariant off + |Temp(s, i)[..Least(bufpos, buflen)]| <= |b0|
        invariant buf[..] == Put(b0, off, Temp(s, i)[..Least(bufpos, buflen)])
        decreases buflen - bufpos
      {
        assert Key[..32] == Key[..] && V[..32] == V[..];
        ghost var z := V[..];
        HmacSha256Buf(hwaccel, Key, 32, V, 32, V, 0);
        PutAll(z, HmacSha256(s.key, Step(s, i)));
        var n := if buflen - bufpos >= 32 then 32 else buflen - bufpos;
        NextOutput(s, b0, off, buflen, i, n);
        MemCpy(buf, off + bufpos, V, 0, n);
        bufpos, i := bufpos + 32, i + 1;
      }
    }

    /** generate */
    method GenerateInto(buf: array<byte>, off: nat, buflen: nat)
      requires Valid() && instantiated && reseedCounter <= 256 && 1 <= buflen <= 65536
      requires off + buflen <= buf.Length && buf != Key && buf != V
      modifies Key, V, buf, this`reseedCounter, this`history
      ensures Valid() && history == old(history) + [Generate(buflen)] && reseedCounter == old(reseedCounter) + 1
      ensures buf[..] == Put(old(buf[..]), off, Output(StateAfter(old(history)), buflen))
    {
      hide Put, Step, Output, Updated;
      ghost var s, e := StateAfter(history), Generate(buflen);
      FillFrom(buf, off, buflen, s);
      Update([], State(s.key, Step(s, Steps(buflen))));
      assert (history + [e])[..|history|] == history;
      reseedCounter := reseedCounter + 1;
      history := history + [e];
    }

    /**
     crypto_entropy_read: on success all of the buffer is the output of the generate steps of this call; after a
     failure its start is.  It fails exactly when a request for entropy does, and asks only to be instantiated or to
     reseed when the interval is over and octets are still wanted.
     */
    method Read(src: EntropySource, buf: array<byte>, buflen: nat) returns (failed: bool)
      requires Valid() && buflen <= buf.Length && buf != Key && buf != V
      modifies Key, V, buf, this`reseedCounter, this`instantiated, this`history, src`next
      ensures Valid() && old(history) <= history && src.next >= old(src.next)
      ensures |Outputs(history, |old(history)|)| <= buflen
      ensures buf[..] == Put(old(buf[..]), 0, Outputs(history, |old(history)|))
      ensures !failed ==> |Outputs(history, |old(history)|)| == buflen && instantiated
      ensures forall i | old(src.next) <= i < if failed then src.next - 1 else src.next ::
                Answered(src, old(instantiated), old(src.next), i)
      ensures failed ==>
                && src.next > old(src.next) && !Answered(src, old(instantiated), old(src.next), src.next - 1)
                && (instantiated ==> reseedCounter == 257 && |Outputs(history, |old(history)|)| < buflen)
      ensures old(instantiated) && old(reseedCounter) + (buflen + 65535) / 65536 <= 257 ==> !failed
      ensures src.next - old(src.next) == |history| - |old(history)| - Generates(history, |old(history)|)
                                          + if failed then 1 else 0
    {
      hide Put, Output, StateAfter, Outputs, Legal, Counter, Generates, Chunks;
      ghost var b0, h0, n0, was := buf[..], |history|, src.next, instantiated;
      ghost var enough := was && reseedCounter + Chunks(buflen) <= 257;
      NoOutput(history, h0);
      PutNothing(b0, 0);
      ChunksAre(buflen);
      if !instantiated {
        failed := InstantiateIt(src);
        if failed {
          return;
        }
        GeneratesNext([], history[0], 0);
        assert [] + [history[0]] == history;
      }
      var done := 0;
      while done < buflen
        invariant Valid() && instantiated && old(history) <= history && n0 <= src.next
        invariant |Outputs(history, h0)| == done <= buflen && buf[..] == Put(b0, 0, Outputs(history, h0))
        invariant !was ==> src.next > n0
        invariant forall i | n0 <= i < src.next :: Answered(src, was, n0, i)
        invariant enough ==> reseedCounter + Chunks(buflen - done) <= 257
        invariant src.next - n0 == |history| - h0 - Generates(history, h0)
        decreases buflen - done
      {
        ChunksNext(buflen - done);
        var n;
        failed, n := NextChunk(src, buf, done, buflen - done, h0, b0);
        if failed {
          CounterBelow(history);
          return;
        }
        done := done + n;
      }
      failed := false;
    }

    /** One round of the loop of crypto_entropy_read: reseed if the interval is over, then generate n octets. */
    method NextChunk(src: EntropySource, buf: array<byte>, done: nat, left: nat, ghost h0: nat, ghost b0: seq<byte>)
      returns (failed: bool, n: nat)
      requires Valid() && instantiated && left >= 1 && done + left <= buf.Length == |b0| && buf != Key && buf != V
      requires h0 <= |history| && |Outputs(history, h0)| == done && buf[..] == Put(b0, 0, Outputs(history, h0))
      modifies Key, V, buf, this`reseedCounter, this`history, src`next
      ensures Valid() && instantiated
      ensures failed <==> old(reseedCounter) > 256 && !src.Delivers(old(src.next), 32)
      ensures src.next == old(src.next) + if old(reseedCounter) > 256 then 1 else 0
      ensures failed ==> history == old(history) && reseedCounter == old(reseedCounter) && buf[..] == old(buf[..])
      ensures !failed ==> n == Least(left, 65536) && old(history) <= history
      ensures !failed ==> reseedCounter == 1 + (if old(reseedCounter) > 256 then 1 else old(reseedCounter))
      ensures !failed ==> |Outputs(history, h0)| == done + n && buf[..] == Put(b0, 0, Outputs(history, h0))
      ensures !failed ==>
                |history| - Generates(history, h0)
                == |old(history)| - Generates(old(history), h0) + src.next - old(src.next)
    {
      hide Put, Output, StateAfter, Outputs, Legal, Counter, Generates;
      if reseedCounter > RESEED_INTERVAL {
        ghost var g := history;
        failed := ReseedIt(src);
        if failed {
          return failed, 0;
        }
        OutputsNext(g, history[|history| - 1], h0);
        GeneratesNext(g, history[|history| - 1], h0);
      }
      n := if left > GENERATE_MAXLEN then GENERATE_MAXLEN else left;
      ghost var h := history;
      PutJoin(b0, 0, Outputs(h, h0), Output(StateAfter(h), n));
      OutputsNext(h, Generate(n), h0);
      GeneratesNext(h, Generate(n), h0);
      GenerateInto(buf, done, n);
      failed := false;
    }
  }

  /** Request i is answered, in a call whose first request is a: a first instantiation takes 48 octets, a reseed 32. */
  ghost predicate Answered(src: EntropySource, instantiated: bool, a: nat, i: nat) {
    src.Delivers(i, if !instantiated && i == a then 48 else 32)
  }

  /** The number of generate steps for n octets. */
  function Chunks(n: nat): nat {
    (n + 65535) / 65536
  }

  lemma ChunksAre(n: nat)
    ensures Chunks(n) == (n + 65535) / 65536
  {
  }

  lemma ChunksNext(n: nat)
    requires n > 0
    ensures Chunks(n) == 1 + if n > 65536 then Chunks(n - 65536) else 0
    ensures Chunks(0) == 0
  {
  }

  /** The number of generate steps among the events from i on. */
  ghost function Generates(h: seq<Event>, i: nat): nat
    requires i <= |h|
    decreases |h|
  {
    if i == |h| then 0 else Generates(h[..|h| - 1], i) + if h[|h| - 1].Generate? then 1 else 0
  }

  lemma GeneratesNext(h: seq<Event>, e: Event, i: nat)
    requires i <= |h|
    ensures Generates(h + [e], i) == Generates(h, i) + if e.Generate? then 1 else 0
  {
    assert (h + [e])[..|h|] == h;
  }

  function Least(a: nat, b: nat): nat {
    if a < b then a else b
  }

  lemma NoOutput(h: seq<Event>, i: nat)
    requires i == |h|
    ensures Outputs(h, i) == [] && Generates(h, i) == 0
  {
  }

  lemma NothingYet(s: State, b0: seq<byte>, off: nat)
    requires off <= |b0|
    ensures Put(b0, off, Temp(s, 0)[..0]) == b0
  {
  }

  /** One more V copied, as far as octets are wanted. */
  lemma NextOutput(s: State, b0: seq<byte>, off: nat, buflen: nat, i: nat, n: nat)
    requires 32 * i < buflen && off + buflen <= |b0|
    requires n == if buflen - 32 * i >= 32 then 32 else buflen - 32 * i
    ensures Put(Put(b0, off, Temp(s, i)[..32 * i]), off + 32 * i, Get(Step(s, i + 1), 0, n))
         == Put(b0, off, Temp(s, i + 1)[..Least(32 * (i + 1), buflen)])
  {
    hide Put, Step;
    var T, v := Temp(s, i), Step(s, i + 1);
    assert T[..32 * i] == T && Get(v, 0, n) == v[..n];
    PutJoin(b0, off, T, v[..n]);
    assert Temp(s, i + 1)[..32 * i + n] == T + v[..n];
  }
}

// The adaptive binary range coder as arithmetic: the encoder as an exact interval of
// numbers (no carry), the decoder as CLzmaDec's range/code with lazy normalisation.
module RangeCoder {
  import opened Words
  import opened LzmaContexts

  type Probs = imap<Ctx, nat>

  // One coding step: a modelled bit with its context, or a direct (equiprobable) bit.
  datatype Event = Model(ctx: Ctx, b: bit) | Direct(b: bit)

  // kBitModelTotal >> 1, the value every probability is initialised to.
  const PROB_INIT: nat := 1024

  function Prob(p: Probs, c: Ctx): nat {
    if c in p then p[c] else PROB_INIT
  }

  // UPDATE_0 / UPDATE_1: the adaptation of one probability.
  function Adapt(t: nat, b: bit): int {
    if b == 0 then t + (2048 - t) / 32 else t - t / 32
  }

  ghost function Updated(p: Probs, c: Ctx, b: bit): Probs {
    var t := Adapt(Prob(p, c), b);
    p[c := if t < 0 then 0 else t]
  }

  ghost predicate ProbsOk(p: Probs) {
    forall c <- p :: 31 <= p[c] <= 2017
  }

  lemma ProbOk(p: Probs, c: Ctx, b: bit)
    requires ProbsOk(p)
    ensures 31 <= Prob(p, c) <= 2017 && ProbsOk(Updated(p, c, b))
    ensures Updated(p, c, b) == p[c := Adapt(Prob(p, c), b)]
  {
  }

  // (range >> kNumBitModelTotalBits) * prob
  function Bound(range: nat, t: nat): nat {
    (range / 2048) * t
  }

  // A bit leaves the other one's probability at 31 parts of 32, rounded up.
  lemma AdaptShare(t: nat)
    requires t <= 2048
    ensures 31 * t <= 32 * Adapt(t, 1) < 31 * t + 32
    ensures 31 * (2048 - t) <= 32 * (2048 - Adapt(t, 0)) < 31 * (2048 - t) + 32
  {
  }

  // Of the range a zero gets its probability's share, short of it by less than t; a context nobody has used takes
  // both bits for equally likely.
  lemma BoundShare(range: nat, t: nat)
    requires t > 0
    ensures range * t - 2048 * t < 2048 * Bound(range, t) <= range * t
    ensures 0 <= range - 2 * Bound(range, PROB_INIT) < 2048
  {
    var q, r := range / 2048, range % 2048;
    assert Bound(range, t) == q * t;
    Distribute(q, r, t);
    RestBelow(r, t);
  }

  lemma Distribute(q: nat, r: nat, t: nat)
    ensures (2048 * q + r) * t == 2048 * (q * t) + r * t
  {
  }

  lemma RestBelow(r: nat, t: nat)
    requires r < 2048 && t > 0
    ensures 0 <= r * t < 2048 * t
  {
  }

  // ---------- encoder ----------

  // low is the exact number emitted so far, n the number of bytes already shifted out of it.
  datatype RcEnc = RcEnc(low: nat, range: nat, n: nat, probs: Probs)

  // RangeEnc_Init: the first shifted-out byte is the initial cache.
  ghost function InitEnc(p: Probs): RcEnc {
    RcEnc(0, TWO_32 - 1, 1, p)
  }

  // RC_NORM
  ghost function EncNorm(e: RcEnc): RcEnc {
    if e.range < TOP_VALUE then e.(low := e.low * 256, range := e.range * 256, n := e.n + 1) else e
  }

  // The interval chosen for an event, before normalisation.
  ghost function Narrow(e: RcEnc, ev: Event): RcEnc {
    match ev
    case Model(c, b) =>
      var bound := Bound(e.range, Prob(e.probs, c));
      var p := Updated(e.probs, c, b);
      if b == 0 then e.(range := bound, probs := p)
      else e.(low := e.low + bound, range := if bound <= e.range then e.range - bound else 0, probs := p)
    case Direct(b) =>
      e.(low := e.low + b * (e.range / 2), range := e.range / 2)
  }

  ghost function EncEvent(e: RcEnc, ev: Event): RcEnc {
    EncNorm(Narrow(e, ev))
  }

  ghost function EncAll(e: RcEnc, evs: seq<Event>): RcEnc
    decreases evs
  {
    if evs == [] then e else EncAll(EncEvent(e, evs[0]), evs[1..])
  }

  ghost predicate EncOk(e: RcEnc) {
    && TOP_VALUE <= e.range < TWO_32
    && e.n >= 1
    && e.low + e.range <= Pow256(e.n + 3)
    && ProbsOk(e.probs)
  }

  lemma BoundOk(range: nat, t: nat)
    requires TOP_VALUE <= range < TWO_32 && 31 <= t <= 2017
    ensures 0x1_0000 <= Bound(range, t) < range
    ensures 0x1_0000 <= range - Bound(range, t)
  {
    var q := range / 2048;
    assert 8192 <= q;
    assert q * 31 <= q * t <= q * 2017;
  }

  lemma NarrowOk(e: RcEnc, ev: Event)
    requires EncOk(e)
    ensures var f := Narrow(e, ev);
      && 0x1_0000 <= f.range <= e.range && f.n == e.n && ProbsOk(f.probs)
      && e.low <= f.low && f.low + f.range <= e.low + e.range
  {
    match ev
    case Model(c, b) =>
      ProbOk(e.probs, c, b);
      BoundOk(e.range, Prob(e.probs, c));
    case Direct(b) =>
  }

  lemma EncEventOk(e: RcEnc, ev: Event)
    requires EncOk(e)
    ensures EncOk(EncEvent(e, ev))
  {
    NarrowOk(e, ev);
  }

  lemma {:induction false} EncAllOk(e: RcEnc, evs: seq<Event>)
    requires EncOk(e)
    ensures EncOk(EncAll(e, evs))
    decreases evs
  {
    if evs != [] {
      EncEventOk(e, evs[0]);
      EncAllOk(EncEvent(e, evs[0]), evs[1..]);
    }
  }

  // ---------- decoder ----------

  // pos counts the bytes read, range and code are the CLzmaDec fields; a frozen decoder
  // leaves the probabilities alone, which is how LzmaDec_TryDummy runs.
  datatype RcDec = RcDec(range: nat, code: nat, pos: nat, probs: Probs, src: seq<byte>, frozen: bool)

  function ByteAt(src: seq<byte>, i: nat): byte {
    if i < |src| then src[i] else 0
  }

  // NORMALIZE
  ghost function Norm(d: RcDec): RcDec {
    if d.range < TOP_VALUE then
      d.(range := d.range * 256, code := W32(d.code * 256 + ByteAt(d.src, d.pos)), pos := d.pos + 1)
    else d
  }

  ghost function Learn(d: RcDec, c: Ctx, b: bit): Probs {
    if d.frozen then d.probs else Updated(d.probs, c, b)
  }

  // IF_BIT_0 with UPDATE_0 or UPDATE_1: the bit read in context c and the decoder after it.
  ghost function DecBit(d: RcDec, c: Ctx): (r: (bit, RcDec))
    ensures 0 <= r.0 <= 1
  {
    var d1 := Norm(d);
    var bound := Bound(d1.range, Prob(d1.probs, c));
    if d1.code < bound then (0, d1.(range := bound, probs := Learn(d1, c, 0)))
    else (1,
          d1.(range := if bound <= d1.range then d1.range - bound else 0, code := d1.code - bound,
              probs := Learn(d1, c, 1)))
  }

  // One direct bit: the sign of the wrapped difference decides.
  ghost function DecDirect(d: RcDec): (r: (bit, RcDec)) {
    var d1 := Norm(d);
    var half := d1.range / 2;
    var diff := W32(d1.code - half);
    if diff >= 0x8000_0000 then (0, d1.(range := half)) else (1, d1.(range := half, code := diff))
  }

  // What the decoder reads when it asks for the same kind of bit as ev.
  ghost function DecEvent(d: RcDec, ev: Event): (bit, RcDec) {
    match ev
    case Model(c, _) => DecBit(d, c)
    case Direct(_) => DecDirect(d)
  }

  // The decoder after asking for the bits of evs, whatever it reads.
  ghost function Run(d: RcDec, evs: seq<Event>): RcDec
    decreases evs
  {
    if evs == [] then d else Run(DecEvent(d, evs[0]).1, evs[1..])
  }

  // The decoder, asked for the contexts of evs in turn, reads exactly the bits of evs.
  ghost predicate Pending(d: RcDec, evs: seq<Event>)
    decreases evs
  {
    evs == [] || (DecEvent(d, evs[0]).0 == evs[0].b && Pending(DecEvent(d, evs[0]).1, evs[1..]))
  }

  lemma {:induction false} RunConcat(d: RcDec, a: seq<Event>, b: seq<Event>)
    ensures Run(d, a + b) == Run(Run(d, a), b)
    ensures Pending(d, a + b) <==> Pending(d, a) && Pending(Run(d, a), b)
    decreases a
  {
    if a == [] {
      assert a + b == b;
    } else {
      assert (a + b)[1..] == a[1..] + b;
      RunConcat(DecEvent(d, a[0]).1, a[1..], b);
    }
  }

  lemma {:induction false} EncAllConcat(e: RcEnc, a: seq<Event>, b: seq<Event>)
    ensures EncAll(e, a + b) == EncAll(EncAll(e, a), b)
    decreases a
  {
    if a == [] {
      assert a + b == b;
    } else {
      assert (a + b)[1..] == a[1..] + b;
      EncAllConcat(EncEvent(e, a[0]), a[1..], b);
    }
  }

  // LzmaDec_DecodeToDic's start-up: byte 0 is checked to be zero, the next four are the code.
  ghost function InitDec(p: Probs, src: seq<byte>): RcDec
    requires |src| >= 5
  {
    RcDec(TWO_32 - 1, Val(src[1..5]), 5, p, src, false)
  }

  // ---------- round trip ----------

  // The emitted number stays inside the interval of e.
  ghost predicate Within(e: RcEnc, src: seq<byte>) {
    e.n + 4 <= |src| && e.low <= Val(src[..e.n + 4]) < e.low + e.range
  }

  // d is where the decoder is when the encoder was at e: code is the emitted number minus low.
  ghost predicate InStep(e: RcEnc, d: RcDec) {
    var d1 := Norm(d);
    && !d.frozen
    && d1.range == e.range && d1.probs == e.probs && d1.pos == e.n + 4
    && d1.pos <= |d.src|
    && d1.code + e.low == Val(d.src[..d1.pos])
    && d1.code < d1.range
  }

  lemma EncNormWithin(f: RcEnc, src: seq<byte>)
    requires f.range < TOP_VALUE && Within(EncNorm(f), src)
    ensures Within(f, src)
    ensures Val(src[..f.n + 5]) == Val(src[..f.n + 4]) * 256 + src[f.n + 4]
  {
    ValSnoc(src[..f.n + 4], src[f.n + 4]);
    assert src[..f.n + 5] == src[..f.n + 4] + [src[f.n + 4]];
  }

  // Intervals nest, so a number inside the later one is inside the earlier one.
  lemma EventWithin(e: RcEnc, ev: Event, src: seq<byte>)
    requires EncOk(e) && Within(EncEvent(e, ev), src)
    ensures Within(Narrow(e, ev), src) && Within(e, src)
  {
    NarrowOk(e, ev);
    if Narrow(e, ev).range < TOP_VALUE {
      EncNormWithin(Narrow(e, ev), src);
    }
  }

  lemma {:induction false} AllWithin(e: RcEnc, evs: seq<Event>, src: seq<byte>)
    requires EncOk(e) && Within(EncAll(e, evs), src)
    ensures Within(e, src)
    decreases evs
  {
    if evs != [] {
      EncEventOk(e, evs[0]);
      AllWithin(EncEvent(e, evs[0]), evs[1..], src);
      EventWithin(e, evs[0], src);
    }
  }

  // The decoder's state against an encoder interval that is not normalised yet.
  ghost predicate Tracks(f: RcEnc, d: RcDec) {
    && !d.frozen
    && d.range == f.range && d.probs == f.probs && d.pos == f.n + 4 && d.pos <= |d.src|
    && d.code + f.low == Val(d.src[..d.pos])
    && d.code < d.range
  }

  lemma ModelTracks(e: RcEnc, d: RcDec, c: Ctx, b: bit)
    requires EncOk(e) && InStep(e, d) && Within(Narrow(e, Model(c, b)), d.src)
    ensures DecBit(d, c).0 == b && Tracks(Narrow(e, Model(c, b)), DecBit(d, c).1)
  {
    ProbOk(e.probs, c, b);
    BoundOk(e.range, Prob(e.probs, c));
  }

  lemma DirectTracks(e: RcEnc, d: RcDec, b: bit)
    requires EncOk(e) && InStep(e, d) && Within(Narrow(e, Direct(b)), d.src)
    ensures DecDirect(d).0 == b && Tracks(Narrow(e, Direct(b)), DecDirect(d).1)
  {
    hide W32, Norm, Val, Pow256, ProbsOk;
    var d1 := Norm(d);
    NormFrame(d);
    SignDecides(d1.code, d1.range);
  }

  lemma NormFrame(d: RcDec)
    ensures Norm(d).src == d.src && Norm(d).frozen == d.frozen
  {
  }

  // The wrapped difference is negative exactly below the half.
  lemma SignDecides(code: nat, range: nat)
    requires code < range < TWO_32
    ensures code < range / 2 ==> W32(code - range / 2) >= 0x8000_0000
    ensures code >= range / 2 ==> W32(code - range / 2) == code - range / 2 < 0x8000_0000
  {
  }

  lemma TracksInStep(f: RcEnc, d: RcDec)
    requires Tracks(f, d) && Within(EncNorm(f), d.src) && f.range >= 0x1_0000
    ensures InStep(EncNorm(f), d)
  {
    hide Val, W32, Pow256;
    if f.range < TOP_VALUE {
      EncNormWithin(f, d.src);
      ByteFits(d.code, d.src[d.pos]);
    }
  }

  lemma ByteFits(code: nat, b: byte)
    requires code < TOP_VALUE
    ensures W32(code * 256 + b) == code * 256 + b
  {
  }

  // One event: the decoder reads the encoded bit and stays in step, lazily normalised.
  lemma EventInStep(e: RcEnc, d: RcDec, ev: Event)
    requires EncOk(e) && InStep(e, d) && Within(EncEvent(e, ev), d.src)
    ensures DecEvent(d, ev).0 == ev.b
    ensures InStep(EncEvent(e, ev), DecEvent(d, ev).1)
    ensures DecEvent(d, ev).1.src == d.src
  {
    NarrowOk(e, ev);
    EventWithin(e, ev, d.src);
    match ev {
      case Model(c, b) => ModelTracks(e, d, c, b);
      case Direct(b) => DirectTracks(e, d, b);
    }
    TracksInStep(Narrow(e, ev), DecEvent(d, ev).1);
  }

  lemma {:induction false} AllInStep(e: RcEnc, d: RcDec, evs: seq<Event>)
    requires EncOk(e) && InStep(e, d) && Within(EncAll(e, evs), d.src)
    ensures Pending(d, evs) && InStep(EncAll(e, evs), Run(d, evs))
    ensures Run(d, evs).src == d.src
    decreases evs
  {
    if evs != [] {
      var e1 := EncEvent(e, evs[0]);
      EncEventOk(e, evs[0]);
      AllWithin(e1, evs[1..], d.src);
      EventInStep(e, d, evs[0]);
      AllInStep(e1, DecEvent(d, evs[0]).1, evs[1..]);
    }
  }

  // The bytes RangeEnc_FlushData leaves: low, with its four pending bytes.
  ghost predicate Flushed(e: RcEnc, src: seq<byte>) {
    |src| == e.n + 4 && Val(src) == e.low
  }

  // Decoding the flushed bytes of any event list, each context chosen from the bits read
  // before it, gives back its bits, the encoder's final probabilities and range, and ends
  // with every byte read and code 0.
  lemma RoundTrip(p: Probs, evs: seq<Event>, src: seq<byte>)
    requires ProbsOk(p) && Flushed(EncAll(InitEnc(p), evs), src)
    ensures |src| >= 5 && src[0] == 0
    ensures Pending(InitDec(p, src), evs)
    ensures var d := Norm(Run(InitDec(p, src), evs)); var e := EncAll(InitEnc(p), evs);
      d.probs == e.probs && d.range == e.range && d.code == 0 && d.pos == |src|
  {
    hide EncAll, Run, Pending, Narrow, ProbsOk, W32;
    var e0 := InitEnc(p);
    var e := EncAll(e0, evs);
    assert Pow256(4) == TWO_32 by { assert Pow256(1) == 256; assert Pow256(2) == 0x1_0000;
                                   assert Pow256(3) == TOP_VALUE; }
    EncAllOk(e0, evs);
    assert Pow256(|src| - 1) == Pow256(e.n + 3);
    LeadingZero(src);
    assert src[..|src|] == src;
    AllWithin(e0, evs, src);
    var d0 := InitDec(p, src);
    assert src[..5] == src[..1] + src[1..5];
    ValConcat(src[..1], src[1..5]);
    assert Val(src[..1]) == 0 by { assert src[..1][..0] == []; }
    AllInStep(e0, d0, evs);
  }

  // ---------- contexts chosen along the way ----------

  // What is asked of the coder next, chosen from the bits coded so far.
  datatype Ask = AskModel(ctx: Ctx) | AskDirect
  type Strategy = seq<bit> -> Ask

  function EventOf(a: Ask, b: bit): Event {
    match a
    case AskModel(c) => Model(c, b)
    case AskDirect => Direct(b)
  }

  // The events of coding bits after got.
  ghost function EventsOf(ask: Strategy, got: seq<bit>, bits: seq<bit>): seq<Event>
    decreases bits
  {
    if bits == [] then [] else [EventOf(ask(got), bits[0])] + EventsOf(ask, got + [bits[0]], bits[1..])
  }

  // The decoder left to itself: n bits read, each asked for by the bits before it.
  ghost function ReadBits(ask: Strategy, d: RcDec, got: seq<bit>, n: nat): (seq<bit>, RcDec)
    decreases n
  {
    if n == 0 then ([], d) else
      var r := DecEvent(d, EventOf(ask(got), 0));
      var rest := ReadBits(ask, r.1, got + [r.0], n - 1);
      ([r.0] + rest.0, rest.1)
  }

  lemma {:induction false} ReadsBits(ask: Strategy, d: RcDec, got: seq<bit>, bits: seq<bit>)
    requires Pending(d, EventsOf(ask, got, bits))
    ensures ReadBits(ask, d, got, |bits|) == (bits, Run(d, EventsOf(ask, got, bits)))
    decreases bits
  {
    hide DecBit, DecDirect;
    if bits != [] {
      var evs := EventsOf(ask, got, bits);
      assert evs[1..] == EventsOf(ask, got + [bits[0]], bits[1..]);
      assert DecEvent(d, EventOf(ask(got), 0)) == DecEvent(d, evs[0]);
      ReadsBits(ask, DecEvent(d, evs[0]).1, got + [bits[0]], bits[1..]);
      assert [bits[0]] + bits[1..] == bits;
    }
  }

  // A decoder that follows the same strategy, and knows nothing but the bits it has read, reads the bits
  // that were coded, whatever they are and however contexts depend on them.
  lemma AdaptiveRoundTrip(p: Probs, ask: Strategy, bits: seq<bit>, src: seq<byte>)
    requires ProbsOk(p) && Flushed(EncAll(InitEnc(p), EventsOf(ask, [], bits)), src)
    ensures |src| >= 5 && src[0] == 0
    ensures var r := ReadBits(ask, InitDec(p, src), [], |bits|); var e := EncAll(InitEnc(p), EventsOf(ask, [], bits));
      && r.0 == bits && Norm(r.1).probs == e.probs && Norm(r.1).range == e.range
      && Norm(r.1).code == 0 && Norm(r.1).pos == |src|
  {
    hide EncAll, Run, Pending, Flushed, ReadBits;
    RoundTrip(p, EventsOf(ask, [], bits), src);
    ReadsBits(ask, InitDec(p, src), [], bits);
  }
}

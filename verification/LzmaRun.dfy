// Whole streams: what each symbol does to the output, and running the decoder symbol by symbol.
module LzmaRun {
  import opened Words
  import opened LzmaContexts
  import opened RangeCoder
  import opened LzmaSymbols
  import opened LzmaDryRun

  // kLiteralNextStates, kMatchNextStates, kRepNextStates, kShortRepNextStates
  function LitNext(s: nat): nat {
    if s < 4 then 0 else if s < 10 then s - 3 else s - 6
  }

  function MatchNext(s: nat): nat {
    if s < 7 then 7 else 10
  }

  function RepNext(s: nat): nat {
    if s < 7 then 8 else 11
  }

  function ShortRepNext(s: nat): nat {
    if s < 7 then 9 else 11
  }

  // len bytes copied one at a time from dist positions back, so that they may overlap.
  function Copy(out: seq<byte>, dist: nat, len: nat): (r: seq<byte>)
    ensures |r| == |out| + len && out <= r
    decreases len
  {
    if len == 0 then out else Copy(out + [Back(out, dist)], dist, len - 1)
  }

  lemma {:induction false} CopySplit(out: seq<byte>, dist: nat, a: nat, b: nat)
    ensures Copy(out, dist, a + b) == Copy(Copy(out, dist, a), dist, b)
    decreases a
  {
    if a > 0 {
      CopySplit(out + [Back(out, dist)], dist, a - 1, b);
    }
  }

  // Every copied byte equals the byte dist positions before it.
  lemma {:induction false} CopyPeriod(out: seq<byte>, dist: nat, len: nat, k: nat)
    requires 1 <= dist <= |out| && |out| <= k < |out| + len
    ensures Copy(out, dist, len)[k] == Copy(out, dist, len)[k - dist]
    decreases len
  {
    var o1 := out + [Back(out, dist)];
    assert o1 <= Copy(out, dist, len);
    if k > |out| {
      CopyPeriod(o1, dist, len - 1, k);
    }
  }

  function RepDist(m: Lz, i: nat): nat {
    if i == 0 then m.rep0 else if i == 1 then m.rep1 else if i == 2 then m.rep2 else m.rep3
  }

  // The state and the output after a symbol.
  function Apply(m: Lz, s: Sym): Lz {
    match s
    case Lit(b) => m.(state := LitNext(m.state), out := m.out + [b])
    case ShortRep => m.(state := ShortRepNext(m.state), out := Copy(m.out, m.rep0, 1))
    case Rep(i, len) =>
      Lz(RepNext(m.state), RepDist(m, i), if i == 0 then m.rep1 else m.rep0,
         if i <= 1 then m.rep2 else m.rep1, if i <= 2 then m.rep3 else m.rep2,
         Copy(m.out, RepDist(m, i), len))
    case Match(dist, len) =>
      Lz(MatchNext(m.state), dist + 1, m.rep0, m.rep1, m.rep2, Copy(m.out, dist + 1, len))
  }

  // The distances a match may use: back to the start of the output or of the dictionary.
  function Reach(p: Props, m: Lz): nat {
    Min(|m.out|, p.dicSize)
  }

  // Repeated distances always stay in reach; before the first byte they are all 1.
  ghost predicate LzInv(p: Props, m: Lz) {
    && LzOk(m)
    && (m.out == [] ==> m == LZ_INIT)
    && (m.out != [] ==> 1 <= m.rep0 <= Reach(p, m) && 1 <= m.rep1 <= Reach(p, m)
                        && 1 <= m.rep2 <= Reach(p, m) && 1 <= m.rep3 <= Reach(p, m))
  }

  // The symbols the format allows next: nothing is repeated before the first byte, and a
  // match starts in reach.
  predicate Legal(p: Props, m: Lz, s: Sym) {
    && ValidSym(s)
    && match s
       case Lit(_) => true
       case ShortRep => m.out != []
       case Rep(_, _) => m.out != []
       case Match(dist, _) => dist < Reach(p, m)
  }

  lemma ApplyInv(p: Props, m: Lz, s: Sym)
    requires PropsOk(p) && LzInv(p, m) && Legal(p, m, s)
    ensures LzInv(p, Apply(m, s)) && m.out <= Apply(m, s).out && |m.out| < |Apply(m, s).out|
  {
    match s
    case Lit(b) =>
    case ShortRep =>
    case Rep(i, len) =>
    case Match(dist, len) =>
  }

  // ---------- the decoder, symbol by symbol ----------

  datatype Stage =
    | Going(m: Lz, d: RcDec)
    | Ended(m: Lz, d: RcDec)     // the end mark was read
    | Broken(m: Lz, d: RcDec)    // a match out of reach

  // One symbol, with the normalisation after it.
  ghost function Step(p: Props, g: Stage): Stage
    requires p.lc <= 8
  {
    if !g.Going? then g else
      var r := SymDec(p, g.m, g.d);
      var d := Norm(r.d);
      if r.v.Match? && r.v.dist == END_DIST then Ended(g.m, d)
      else if r.v.Match? && r.v.dist >= Reach(p, g.m) then Broken(g.m, d)
      else Going(Apply(g.m, r.v), d)
  }

  ghost function Steps(p: Props, g: Stage, n: nat): Stage
    requires p.lc <= 8
  {
    if n == 0 then g else Step(p, Steps(p, g, n - 1))
  }

  ghost predicate DecReady(d: RcDec) {
    DecOk(d) && d.range >= TOP_VALUE && !d.frozen
  }

  lemma NormIdempotent(d: RcDec)
    requires DecOk(d)
    ensures Norm(Norm(d)) == Norm(d) && TOP_VALUE <= Norm(d).range < TWO_32
  {
  }

  // Reading starts with a normalisation, so normalising first changes nothing.
  lemma SymDecNorm(p: Props, m: Lz, d: RcDec)
    requires PropsOk(p) && DecOk(d)
    ensures SymDec(p, m, Norm(d)) == SymDec(p, m, d)
  {
    NormIdempotent(d);
    hide LitDec, MatchDec, RepMatchDec;
    assert DecBit(Norm(d), IsMatch(m.state, PosState(p, m))) == DecBit(d, IsMatch(m.state, PosState(p, m)));
  }

  lemma {:induction false} RunFrame(d: RcDec, evs: seq<Event>)
    ensures Run(d, evs).frozen == d.frozen && Run(d, evs).src == d.src
    decreases evs
  {
    if evs != [] {
      RunFrame(DecEvent(d, evs[0]).1, evs[1..]);
    }
  }

  lemma SymDecReady(p: Props, m: Lz, d: RcDec)
    requires PropsOk(p) && LzOk(m) && DecReady(d)
    ensures var r := SymDec(p, m, d); ValidSym(r.v) && DecOk(r.d) && DecReady(Norm(r.d)) && r.d.src == d.src
    ensures d.pos <= Norm(SymDec(p, m, d).d).pos <= d.pos + 20
  {
    hide SymDec, SymEvs;
    SymSound(p, m, d);
    var evs := SymEvs(p, m, SymDec(p, m, d).v);
    RunKeeps(d, evs);
    RunFrame(d, evs);
    InputBound(p, m, d);
  }

  // ---------- the encoder, symbol by symbol ----------

  // Every symbol in turn is allowed where it stands.
  predicate LegalAll(p: Props, m: Lz, syms: seq<Sym>)
    decreases syms
  {
    syms == [] || (Legal(p, m, syms[0]) && LegalAll(p, Apply(m, syms[0]), syms[1..]))
  }

  function ApplyAll(m: Lz, syms: seq<Sym>): Lz
    decreases syms
  {
    if syms == [] then m else ApplyAll(Apply(m, syms[0]), syms[1..])
  }

  function AllEvs(p: Props, m: Lz, syms: seq<Sym>): seq<Event>
    requires p.lc <= 8 && LegalAll(p, m, syms)
    decreases syms
  {
    if syms == [] then [] else SymEvs(p, m, syms[0]) + AllEvs(p, Apply(m, syms[0]), syms[1..])
  }

  // If the bits ahead are the encoding of syms, the decoder reads syms, symbol by symbol.
  lemma {:induction false} ReadsParse(p: Props, m: Lz, d: RcDec, syms: seq<Sym>)
    requires PropsOk(p) && LzInv(p, m) && DecReady(d) && LegalAll(p, m, syms)
    requires Pending(d, AllEvs(p, m, syms))
    ensures Steps(p, Going(m, d), |syms|) == Going(ApplyAll(m, syms), Norm(Run(d, AllEvs(p, m, syms))))
    decreases syms
  {
    hide SymDec, SymEvs, Pending, Run;
    if syms == [] {
      RunNothing(d);
    } else {
      var s, rest := syms[0], syms[1..];
      var m1 := Apply(m, s);
      var es, er := SymEvs(p, m, s), AllEvs(p, m1, rest);
      RunConcat(d, es, er);
      SymUnique(p, m, d, s);
      SymDecReady(p, m, d);
      ApplyInv(p, m, s);
      var d1 := Run(d, es);
      assert Step(p, Going(m, d)) == Going(m1, Norm(d1));
      NormPending(d1, er);
      ReadsParse(p, m1, Norm(d1), rest);
      StepsShift(p, Going(m, d), |rest|);
    }
  }

  // A list of symbols cut in two.
  lemma {:induction false} CutSyms(p: Props, m: Lz, syms: seq<Sym>, k: nat)
    requires p.lc <= 8 && LegalAll(p, m, syms) && k <= |syms|
    ensures LegalAll(p, m, syms[..k]) && LegalAll(p, ApplyAll(m, syms[..k]), syms[k..])
    ensures AllEvs(p, m, syms) == AllEvs(p, m, syms[..k]) + AllEvs(p, ApplyAll(m, syms[..k]), syms[k..])
    decreases k
  {
    hide Legal, SymEvs, Apply;
    if k == 0 {
      assert syms[..0] == [] && syms[0..] == syms;
    } else {
      var m1, rest := Apply(m, syms[0]), syms[1..];
      CutSyms(p, m1, rest, k - 1);
      assert syms[..k][1..] == rest[..k - 1] && syms[k..] == rest[k - 1..];
    }
  }

  // A decoder in step with the encoder that has coded the symbols' events is in step with it after
  // every one of them: state, reps and output are those of the symbols so far, and code, range and
  // probabilities those of the encoder at that boundary.
  lemma InStepAtEverySymbol(p: Props, m: Lz, d: RcDec, e: RcEnc, syms: seq<Sym>, k: nat)
    requires PropsOk(p) && LzInv(p, m) && DecReady(d) && LegalAll(p, m, syms) && k <= |syms|
    requires EncOk(e) && InStep(e, d) && RangeCoder.Within(EncAll(e, AllEvs(p, m, syms)), d.src)
    ensures LegalAll(p, m, syms[..k])
    ensures var h := Steps(p, Going(m, d), k);
      h.Going? && h.m == ApplyAll(m, syms[..k]) && InStep(EncAll(e, AllEvs(p, m, syms[..k])), h.d)
        && h.d.range >= TOP_VALUE
  {
    hide SymEvs, Pending, Run, RangeCoder.Within, EncAll, EncOk, LzInv, Legal, Apply;
    CutSyms(p, m, syms, k);
    var as_ := AllEvs(p, m, syms[..k]);
    var bs := AllEvs(p, ApplyAll(m, syms[..k]), syms[k..]);
    EncAllConcat(e, as_, bs);
    EncAllOk(e, as_);
    AllWithin(EncAll(e, as_), bs, d.src);
    AllInStep(e, d, as_);
    ReadsParse(p, m, d, syms[..k]);
    InStepNorm(EncAll(e, as_), Run(d, as_));
  }

  lemma InStepNorm(e: RcEnc, d: RcDec)
    requires EncOk(e) && InStep(e, d)
    ensures InStep(e, Norm(d)) && Norm(d).range >= TOP_VALUE
  {
  }

  lemma RunNothing(d: RcDec)
    requires d.range >= TOP_VALUE
    ensures Run(d, []) == d && Norm(d) == d
  {
  }

  lemma NormPending(d: RcDec, evs: seq<Event>)
    requires DecOk(d)
    ensures Pending(Norm(d), evs) == Pending(d, evs) && Norm(Run(Norm(d), evs)) == Norm(Run(d, evs))
  {
    NormIdempotent(d);
    if evs != [] {
      assert DecEvent(Norm(d), evs[0]) == DecEvent(d, evs[0]);
    }
  }

  lemma {:induction false} StepsShift(p: Props, g: Stage, n: nat)
    requires p.lc <= 8
    ensures Steps(p, g, n + 1) == Steps(p, Step(p, g), n)
  {
    hide Step;
    if n > 0 {
      StepsShift(p, g, n - 1);
    }
  }
}

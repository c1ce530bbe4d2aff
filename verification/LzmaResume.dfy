// Reading does not depend on where the bytes lie: a decoder set down at another position of
// another byte string with the same bytes ahead reads the same symbols.
module LzmaResume {
  import opened Words
  import opened RangeCoder
  import opened LzmaSymbols
  import opened LzmaDryRun
  import opened LzmaRun

  ghost function Moved(d: RcDec, src: seq<byte>, pos: nat): RcDec {
    d.(src := src, pos := pos)
  }

  // a from i on and b from j on have the same n bytes.
  ghost predicate SameBytes(a: seq<byte>, i: nat, b: seq<byte>, j: nat, n: int) {
    forall x :: i <= x < i + n ==> ByteAt(a, x) == ByteAt(b, x - i + j)
  }

  lemma SameRest(a: seq<byte>, i: nat, b: seq<byte>, j: nat, n: int, k: nat)
    requires SameBytes(a, i, b, j, n) && k <= n
    ensures SameBytes(a, i + k, b, j + k, n - k)
  {
  }

  lemma MovedEvent(d: RcDec, ev: Event, src: seq<byte>, pos: nat)
    requires DecEvent(d, ev).1.pos >= d.pos && SameBytes(d.src, d.pos, src, pos, DecEvent(d, ev).1.pos - d.pos)
    ensures var (b, d1) := DecEvent(d, ev);
      DecEvent(Moved(d, src, pos), ev) == (b, Moved(d1, src, pos + (d1.pos - d.pos)))
  {
    if d.range < TOP_VALUE {
      assert DecEvent(d, ev).1.pos == d.pos + 1;
      assert ByteAt(d.src, d.pos) == ByteAt(src, pos);
    }
  }

  lemma {:induction false} MovedRun(d: RcDec, evs: seq<Event>, src: seq<byte>, pos: nat)
    requires DecOk(d) && Run(d, evs).pos >= d.pos && SameBytes(d.src, d.pos, src, pos, Run(d, evs).pos - d.pos)
    ensures Run(Moved(d, src, pos), evs) == Moved(Run(d, evs), src, pos + (Run(d, evs).pos - d.pos))
    ensures Pending(d, evs) ==> Pending(Moved(d, src, pos), evs)
    decreases evs
  {
    hide DecEvent, SameBytes, DecOk;
    if evs != [] {
      var d1 := DecEvent(d, evs[0]).1;
      EventKeeps(d, evs[0]);
      RunKeeps(d1, evs[1..]);
      RunFrame(d, evs[..1]);
      SameRest(d.src, d.pos, src, pos, Run(d, evs).pos - d.pos, d1.pos - d.pos);
      SamePart(d.src, d.pos, src, pos, Run(d, evs).pos - d.pos, d1.pos - d.pos);
      MovedEvent(d, evs[0], src, pos);
      EventFrame(d, evs[0]);
      MovedRun(d1, evs[1..], src, pos + (d1.pos - d.pos));
    }
  }

  lemma EventFrame(d: RcDec, ev: Event)
    ensures DecEvent(d, ev).1.src == d.src
  {
  }

  lemma SamePart(a: seq<byte>, i: nat, b: seq<byte>, j: nat, n: int, k: nat)
    requires SameBytes(a, i, b, j, n) && k <= n
    ensures SameBytes(a, i, b, j, k)
  {
  }

  lemma MovedNorm(d: RcDec, src: seq<byte>, pos: nat)
    requires DecOk(d) && SameBytes(d.src, d.pos, src, pos, Norm(d).pos - d.pos)
    ensures Norm(Moved(d, src, pos)) == Moved(Norm(d), src, pos + (Norm(d).pos - d.pos))
  {
    if d.range < TOP_VALUE {
      assert ByteAt(d.src, d.pos) == ByteAt(src, pos);
    }
  }

  lemma MovedSym(p: Props, m: Lz, d: RcDec, src: seq<byte>, pos: nat)
    requires PropsOk(p) && LzOk(m) && DecReady(d)
    requires SameBytes(d.src, d.pos, src, pos, Norm(SymDec(p, m, d).d).pos - d.pos)
    ensures d.pos <= SymDec(p, m, d).d.pos <= Norm(SymDec(p, m, d).d).pos
    ensures var r := SymDec(p, m, d); var q := SymDec(p, m, Moved(d, src, pos));
      q.v == r.v && Norm(q.d) == Moved(Norm(r.d), src, pos + (Norm(r.d).pos - d.pos))
  {
    hide SymDec, SymEvs, Pending, Run, SameBytes;
    SymSound(p, m, d);
    SymDecReady(p, m, d);
    var r := SymDec(p, m, d);
    var evs := SymEvs(p, m, r.v);
    RunKeeps(d, evs);
    SamePart(d.src, d.pos, src, pos, Norm(r.d).pos - d.pos, r.d.pos - d.pos);
    MovedRun(d, evs, src, pos);
    SymUnique(p, m, Moved(d, src, pos), r.v);
    SameRest(d.src, d.pos, src, pos, Norm(r.d).pos - d.pos, r.d.pos - d.pos);
    MovedNorm(r.d, src, pos + (r.d.pos - d.pos));
  }

  // ---------- runs of symbols ----------

  ghost predicate Ready(p: Props, g: Stage) {
    PropsOk(p) && LzOk(g.m) && DecReady(g.d)
  }

  lemma ReadyProps(p: Props, g: Stage)
    requires Ready(p, g)
    ensures PropsOk(p)
  {
  }

  lemma StepReady(p: Props, g: Stage)
    requires Ready(p, g)
    ensures var h := Step(p, g); Ready(p, h) && g.d.pos <= h.d.pos && h.d.src == g.d.src && g.m.out <= h.m.out
    ensures var h := Step(p, g); h.Going? && g.Going? ==> |h.m.out| > |g.m.out|
  {
    hide SymDec;
    if g.Going? {
      SymDecReady(p, g.m, g.d);
      ApplyGrows(g.m, SymDec(p, g.m, g.d).v);
    }
  }

  lemma ApplyGrows(m: Lz, s: Sym)
    requires LzOk(m) && ValidSym(s)
    ensures m.out <= Apply(m, s).out && |m.out| < |Apply(m, s).out| && LzOk(Apply(m, s))
  {
  }

  lemma {:induction false} StepsReady(p: Props, g: Stage, n: nat)
    requires Ready(p, g)
    ensures var h := Steps(p, g, n); Ready(p, h) && g.d.pos <= h.d.pos && h.d.src == g.d.src && g.m.out <= h.m.out
  {
    hide Step, Ready;
    ReadyProps(p, g);
    if n > 0 {
      StepsReady(p, g, n - 1);
      StepReady(p, Steps(p, g, n - 1));
    }
  }

  lemma {:induction false} StepsAdd(p: Props, g: Stage, a: nat, b: nat)
    requires p.lc <= 8
    ensures Steps(p, g, a + b) == Steps(p, Steps(p, g, a), b)
    decreases b
  {
    hide Step;
    if b > 0 {
      StepsAdd(p, g, a, b - 1);
    }
  }

  // Later stages only extend the output.
  lemma OutputGrows(p: Props, g: Stage, a: nat, b: nat)
    requires Ready(p, g) && a <= b
    ensures Steps(p, g, a).m.out <= Steps(p, g, b).m.out && Steps(p, g, a).d.pos <= Steps(p, g, b).d.pos
    ensures Steps(p, g, b).Going? ==> Steps(p, g, a).Going?
  {
    hide Step, Ready;
    ReadyProps(p, g);
    StepsAdd(p, g, a, b - a);
    StepsReady(p, g, a);
    StepsReady(p, Steps(p, g, a), b - a);
    if !Steps(p, g, a).Going? {
      Stopped(p, Steps(p, g, a), b - a);
    }
  }

  lemma {:induction false} Stopped(p: Props, g: Stage, n: nat)
    requires p.lc <= 8 && !g.Going?
    ensures Steps(p, g, n) == g
  {
    hide SymDec, Norm, Apply, Reach;
    if n > 0 {
      Stopped(p, g, n - 1);
    }
  }

  ghost function MovedStage(g: Stage, src: seq<byte>, pos: nat): Stage {
    match g
    case Going(m, d) => Going(m, Moved(d, src, pos))
    case Ended(m, d) => Ended(m, Moved(d, src, pos))
    case Broken(m, d) => Broken(m, Moved(d, src, pos))
  }

  lemma MovedStep(p: Props, g: Stage, src: seq<byte>, pos: nat)
    requires Ready(p, g) && SameBytes(g.d.src, g.d.pos, src, pos, Step(p, g).d.pos - g.d.pos)
    ensures g.d.pos <= Step(p, g).d.pos
    ensures Step(p, MovedStage(g, src, pos)) == MovedStage(Step(p, g), src, pos + (Step(p, g).d.pos - g.d.pos))
  {
    hide SymDec, SameBytes, Apply, Norm;
    StepReady(p, g);
    if g.Going? {
      MovedSym(p, g.m, g.d, src, pos);
    }
  }

  // Any number of symbols, wherever the bytes lie.
  lemma {:induction false} MovedSteps(p: Props, g: Stage, n: nat, src: seq<byte>, pos: nat)
    requires Ready(p, g) && SameBytes(g.d.src, g.d.pos, src, pos, Steps(p, g, n).d.pos - g.d.pos)
    ensures g.d.pos <= Steps(p, g, n).d.pos
    ensures Steps(p, MovedStage(g, src, pos), n)
      == MovedStage(Steps(p, g, n), src, pos + (Steps(p, g, n).d.pos - g.d.pos))
  {
    hide Step, SameBytes, Ready;
    ReadyProps(p, g);
    StepsReady(p, g, n);
    if n > 0 {
      var h := Steps(p, g, n - 1);
      StepsReady(p, g, n - 1);
      StepReady(p, h);
      var all := Steps(p, g, n).d.pos - g.d.pos;
      SamePart(g.d.src, g.d.pos, src, pos, all, h.d.pos - g.d.pos);
      MovedSteps(p, g, n - 1, src, pos);
      SameRest(g.d.src, g.d.pos, src, pos, all, h.d.pos - g.d.pos);
      MovedStep(p, h, src, pos + (h.d.pos - g.d.pos));
    }
  }
}

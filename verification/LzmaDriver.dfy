// LZMA_DECODE_REAL's loop: symbols until a limit of the input or the output, the end mark or a
// bad distance.
module LzmaDriver {
  import opened Words
  import opened LzmaContexts
  import opened LzmaLayout
  import opened RangeCoder
  import opened ProbArrays
  import opened LzmaSymbols
  import opened LzmaDryRun
  import opened LzmaRun
  import opened LzmaDecoder
  import opened LzmaDictionary
  import opened LzmaDecodeSymbol
  import opened LzmaResume

  const REQUIRED_INPUT_MAX: nat := 20
  const RC_INIT_SIZE: nat := 5
  const INIT_LEN: nat := 276         // kMatchSpecLenStart + 2: the range coder and the state are to be set up
  const FAIL_LEN: nat := 511         // kMatchSpecLen_Error_Fail
  const BAD_REP_CODE: nat := 0xC000_0000 - 0x400

  // LzmaDec_DecodeToDic's start: the first five bytes, no output.
  ghost function Start(p: Props, stream: seq<byte>): Stage
    requires |stream| >= RC_INIT_SIZE
  {
    Going(LZ_INIT, InitDec(InitialProbs(Lits(p)), stream))
  }

  lemma StartReady(p: Props, stream: seq<byte>)
    requires PropsOk(p) && |stream| >= RC_INIT_SIZE
    ensures Ready(p, Start(p, stream)) && LzInv(p, LZ_INIT)
  {
    ValBound(stream[1..5]);
    assert Pow256(4) == TWO_32 by { assert Pow256(2) == 0x1_0000; }
  }

  // What checkDicSize is between runs, as the comment on LzmaDec_DecodeReal2 promises.
  predicate CheckSettled(p: Props, checkDicSize: nat, total: nat) {
    checkDicSize == if total < p.dicSize then 0 else p.dicSize
  }

  // ---------- LZMA_DECODE_REAL ----------

  // The ways LZMA_DECODE_REAL's loop ends.
  ghost predicate Outcome(p: Props, h: Stage, l: Locals, dic: seq<byte>, limit: nat) {
    match h
    case Going(m, _) => InSync(p, l, dic, m) && l.len < END_LEN && (l.len > 0 ==> l.dicPos == limit)
    case Ended(m, _) => InSync(p, l.(len := 0), dic, m) && l.len == END_LEN
    case Broken(m, _) => l.len >= ERROR_LEN && DicHolds(dic, l.dicPos, m.out) && l.processedPos == W32(|m.out|)
                         && Roomy(p, |dic|, l.dicPos, |m.out|)
  }

  function Total(h: Stage, l: Locals): int {
    if h.Going? then |h.m.out| - l.len else |h.m.out|
  }

  // One turn of the loop is one step of the run.
  lemma TurnStep(p: Props, m: Lz, d: RcDec, l0: Locals, l: Locals, was: seq<byte>, dic: seq<byte>, limit: nat)
    requires PropsOk(p) && DecOk(d) && !d.frozen && InSync(p, l0, was, m) && l0.len == 0 && l0.dicPos <= limit
    requires Turned(p, m, SymDec(p, m, d).v, l0, l, dic, limit) && DecOk(SymDec(p, m, d).d)
    requires var s := SymDec(p, m, d).v; s.Match? && (s.dist == END_DIST || s.dist >= Reach(p, m)) ==> dic == was
    ensures LzOk(m)
    ensures var r := SymDec(p, m, d); var h := Step(p, Going(m, Norm(d)));
      && h.d == Norm(r.d) && Outcome(p, h, l, dic, limit) && Total(h, l) == |m.out| + (l.dicPos - l0.dicPos)
      && l0.dicPos <= l.dicPos <= limit
      && (h.Going? <==> !(r.v.Match? && (r.v.dist == END_DIST || r.v.dist >= Reach(p, m))))
      && (h.Going? ==> h.m == Apply(m, r.v))
  {
    hide SymDec, InSync, Norm, Apply, DicHolds;
    SymDecNorm(p, m, d);
    WholeOutput(p, l0, was, m);
    var s := SymDec(p, m, d).v;
    if s.Match? && s.dist == END_DIST {
      assert l.(len := 0) == l0;
    } else if !(s.Match? && s.dist >= Reach(p, m)) {
      SyncLen(p, l, dic, Apply(m, s));
    }
  }

  lemma SyncLen(p: Props, l: Locals, dic: seq<byte>, m: Lz)
    requires InSync(p, l, dic, m)
    ensures l.len <= |m.out| && DicHolds(dic, l.dicPos, Written(l, m)) && l.processedPos == W32(|Written(l, m)|)
    ensures l.state == m.state < 12 && LzInv(p, m)
  {
  }

  // A turn that copies writes something unless it starts at the limit.
  lemma Progress(p: Props, m: Lz, s: Sym, l0: Locals, l: Locals, dic: seq<byte>, limit: nat)
    requires Turned(p, m, s, l0, l, dic, limit) && ValidSym(s) && LzOk(m)
    requires !(s.Match? && (s.dist == END_DIST || s.dist >= Reach(p, m)))
    ensures l0.dicPos < limit ==> l.dicPos > l0.dicPos
  {
    ApplyGrows(m, s);
  }

  method DecodeReal(p: Props, probs: array<nat>, dic: array<byte>, src: seq<byte>, bufLimit: nat,
      limit: nat, checkDicSize: nat,
                    g0: Regs, l0: Locals, ghost m0: Lz, ghost d0: RcDec)
      returns (g: Regs, l: Locals, ghost k: nat)
    requires PropsOk(p) && Reads(probs, src, g0, Lits(p), d0) && d0.range >= TOP_VALUE
    requires InSync(p, l0, dic[..], m0) && l0.len == 0
    requires l0.dicPos <= limit <= dic.Length && CheckOk(p, checkDicSize, |m0.out|, limit - l0.dicPos)
    requires var r := SymDec(p, m0, d0);
      && (l0.dicPos == limit ==> r.v.Match?) && (m0.out == [] ==> r.v.Lit? || r.v.Match?)
      && Norm(r.d).pos <= |src|
    requires bufLimit <= g0.buf || bufLimit + REQUIRED_INPUT_MAX <= |src|
    modifies probs, dic
    ensures k >= 1 && (bufLimit <= g0.buf ==> k == 1)
    ensures Reads(probs, src, g, Lits(p), Steps(p, Going(m0, d0), k).d) && g.buf <= |src|
    ensures var h := Steps(p, Going(m0, d0), k);
      && Outcome(p, h, l, dic[..], limit) && Total(h, l) == |m0.out| + (l.dicPos - l0.dicPos)
      && l0.dicPos <= l.dicPos <= limit
      && (h.Going? && l0.dicPos < limit ==> l.dicPos > l0.dicPos)
    ensures var h := Steps(p, Going(m0, d0), k - 1); h.Going? && (k > 1 ==> |h.m.out| < |m0.out| + (limit - l0.dicPos))
    ensures WroteOnly(old(dic[..]), dic[..], l0.dicPos, l.dicPos)
  {
    hide Reads, InSync, Step, SymDec, Outcome, Turned, DicHolds, LzInv, DecOk, Norm;
    g, l, k := g0, l0, 0;
    ghost var m, d := m0, d0;
    ghost var stage0 := Going(m0, d0);
    ReadsOk(probs, src, g0, Lits(p), d0);
    NormDone(d0);
    var more := true;
    while more
      invariant l0.dicPos <= l.dicPos <= limit && WroteOnly(old(dic[..]), dic[..], l0.dicPos, l.dicPos)
      invariant k == 0 ==> more && m == m0 && d == d0 && l == l0
      invariant k >= 1 && bufLimit <= g0.buf ==> k == 1 && !more
      invariant Reads(probs, src, g, Lits(p), d) && DecOk(d) && !d.frozen && d.pos == g.buf
      invariant more ==> Steps(p, stage0, k) == Going(m, Norm(d)) && InSync(p, l, dic[..], m) && l.len == 0
      invariant more ==> |m.out| == |m0.out| + (l.dicPos - l0.dicPos)
      invariant more && k > 0 ==> l.dicPos < limit && m.out != [] && g.buf < bufLimit
      invariant k > 0 && l0.dicPos < limit && Steps(p, stage0, k).Going? ==> l.dicPos > l0.dicPos
      invariant !more ==> Steps(p, stage0, k).d == Norm(d) && Norm(d).pos <= |src|
      invariant !more ==> Outcome(p, Steps(p, stage0, k), l, dic[..], limit)
      invariant !more ==> Total(Steps(p, stage0, k), l) == |m0.out| + (l.dicPos - l0.dicPos)
      invariant k > 0 ==> Steps(p, stage0, k - 1).Going?
      invariant k > 1 ==> |Steps(p, stage0, k - 1).m.out| < |m0.out| + (limit - l0.dicPos)
      decreases more, limit - l.dicPos
    {
      WholeOutput(p, l, dic[..], m);
      ghost var r := SymDec(p, m, d);
      EnoughInput(p, m, d, |src|, bufLimit, k == 0);
      SymKeeps(p, m, d);
      ghost var was, lWas := dic[..], l;
      var stop: bool;
      l, g, stop := DecodeSymbol(p, probs, dic, src, g, d, checkDicSize, limit, l, m);
      StopKeeps(p, m, r.v, lWas, l, dic[..], limit);
      ReadsOk(probs, src, g, Lits(p), r.d);
      TurnStep(p, m, d, lWas, l, was, dic[..], limit);
      if !stop {
        Progress(p, m, r.v, lWas, l, dic[..], limit);
        ApplyGrows(m, r.v);
        m := Apply(m, r.v);
      }
      d := r.d;
      k := k + 1;
      more := !stop && l.dicPos < limit && g.buf < bufLimit;
      if more {
        OutcomeGoing(p, m, Norm(d), l, dic[..], limit);
      }
    }
    NormReads(probs, src, g, Lits(p), d);
    g := Normalized(g, src);
  }

  lemma ReadsOk(probs: array<nat>, src: seq<byte>, g: Regs, lits: nat, d: RcDec)
    requires Reads(probs, src, g, lits, d)
    ensures DecOk(d) && !d.frozen && d.pos == g.buf && d.src == src
  {
  }

  lemma NormDone(d: RcDec)
    requires d.range >= TOP_VALUE
    ensures Norm(d) == d
  {
  }

  lemma NormReads(probs: array<nat>, src: seq<byte>, g: Regs, lits: nat, d: RcDec)
    requires Reads(probs, src, g, lits, d)
    ensures Reads(probs, src, Normalized(g, src), lits, Norm(d)) && Norm(d).pos == Normalized(g, src).buf
  {
    NormalizedOk(g, src, d);
  }

  // A symbol started before bufLimit, or the first one, ends inside the input.
  lemma EnoughInput(p: Props, m: Lz, d: RcDec, n: nat, bufLimit: nat, first: bool)
    requires PropsOk(p) && LzOk(m) && DecOk(d) && !d.frozen
    requires if first then Norm(SymDec(p, m, d).d).pos <= n else d.pos < bufLimit && bufLimit + REQUIRED_INPUT_MAX <= n
    ensures Norm(SymDec(p, m, d).d).pos <= n
  {
    hide SymDec;
    if !first {
      SymDecNorm(p, m, d);
      NormIdempotent(d);
      InputBound(p, m, Norm(d));
    }
  }

  lemma SymKeeps(p: Props, m: Lz, d: RcDec)
    requires PropsOk(p) && LzOk(m) && DecOk(d) && !d.frozen
    ensures var r := SymDec(p, m, d); DecOk(r.d) && ValidSym(r.v) && r.d.pos >= d.pos
  {
    hide SymDec, SymEvs, Pending, Run;
    SymSound(p, m, d);
    RunKeeps(d, SymEvs(p, m, SymDec(p, m, d).v));
  }

  lemma StopKeeps(p: Props, m: Lz, s: Sym, l0: Locals, l: Locals, dic: seq<byte>, limit: nat)
    requires Turned(p, m, s, l0, l, dic, limit)
    ensures s.Match? && (s.dist == END_DIST || s.dist >= Reach(p, m)) ==> l.dicPos == l0.dicPos
  {
  }

  lemma OutcomeGoing(p: Props, m: Lz, d: RcDec, l: Locals, dic: seq<byte>, limit: nat)
    requires Outcome(p, Going(m, d), l, dic, limit) && l.dicPos < limit
    ensures InSync(p, l, dic, m) && l.len == 0
  {
  }

  // ---------- the first symbol ----------

  lemma StartRange(p: Props, stream: seq<byte>)
    requires PropsOk(p) && |stream| >= RC_INIT_SIZE
    ensures PosState(p, LZ_INIT) == 0 && Prob(InitialProbs(Lits(p)), IsMatch(0, 0)) == 1024
    ensures forall b: bit :: Prob(Updated(InitialProbs(Lits(p)), IsMatch(0, 0), b), IsRep(0)) == 1024
  {
  }

  // The early check on the code lets through exactly a literal or a match with its own distance.
  lemma FirstSymbol(p: Props, stream: seq<byte>)
    requires PropsOk(p) && |stream| >= RC_INIT_SIZE
    ensures var s := SymDec(p, LZ_INIT, InitDec(InitialProbs(Lits(p)), stream)).v;
      s.Lit? || s.Match? <==> Val(stream[1..5]) < BAD_REP_CODE
  {
    hide LitDec, MatchDec, RepMatchDec, ValidCtx;
    StartRange(p, stream);
    var d := InitDec(InitialProbs(Lits(p)), stream);
    var (b, d1) := DecBit(d, IsMatch(0, 0));
    if b == 1 {
      assert d1.range == 0xFFFF_FFFF - 0x7FFF_FC00 && d1.code == d.code - 0x7FFF_FC00;
      assert DecBit(d1, IsRep(0)).0 == 0 <==> d.code < BAD_REP_CODE;
      MatchDecMatches(DecBit(d1, IsRep(0)).1, 0);
      RepDecRepeats(DecBit(d1, IsRep(0)).1, 0, 0);
    }
  }

  lemma RepDecRepeats(d: RcDec, st: nat, ps: nat)
    ensures var s := RepMatchDec(d, st, ps).v; s.Rep? || s.ShortRep?
  {
    hide RepDec, LenDec;
  }

  lemma MatchDecMatches(d: RcDec, ps: nat)
    ensures MatchDec(d, ps).v.Match?
  {
  }

  // Nothing has been written only before the first symbol.
  lemma NothingWritten(p: Props, stream: seq<byte>, n: nat)
    requires PropsOk(p) && |stream| >= RC_INIT_SIZE
    requires var g := Steps(p, Start(p, stream), n); g.Going? && g.m.out == []
    ensures n == 0
  {
    hide Step, Start;
    if n > 0 {
      StartReady(p, stream);
      StepsReady(p, Start(p, stream), n - 1);
      OutputGrows(p, Start(p, stream), n - 1, n);
      StepReady(p, Steps(p, Start(p, stream), n - 1));
    }
  }
}

// LzmaDec_TryDummy: how many bytes the next symbol takes and what kind it is, without
// touching the decoder.
module LzmaTryDummy {
  import opened Words
  import opened Masks
  import opened LzmaContexts
  import opened LzmaLayout
  import opened RangeCoder
  import opened LzmaSymbols
  import opened LzmaDryRun
  import opened LzmaRun
  import opened LzmaMasks
  import opened LzmaDecoder
  import opened LzmaPeek
  import opened LzmaDictionary
  import opened LzmaDecodeSymbol

  datatype Dummy = InputEof | DummyLit | DummyMatch | DummyRep

  function KindOf(s: Sym): Dummy {
    match s
    case Lit(_) => DummyLit
    case Match(_, _) => DummyMatch
    case ShortRep => DummyRep
    case Rep(_, _) => DummyRep
  }

  // The literal's context offset, written with a shift and a sum instead of one mask.
  method DummyLiteralProb(p: Props, dic: array<byte>, dicPos: nat, processedPos: nat, checkDicSize: nat,
      ghost m: Lz) returns (prob: nat)
    requires PropsOk(p) && DicHolds(dic[..], dicPos, m.out) && processedPos == W32(|m.out|)
    requires CheckOk(p, checkDicSize, |m.out|, 0)
    requires m.out != [] ==> dic.Length > 0
    ensures LitState(p, m) < Lits(p) && prob == LITERAL + LIT_SIZE * LitState(p, m)
  {
    hide Pow2, And;
    LitStateBound(p, m);
    prob := LITERAL;
    if checkDicSize != 0 || processedPos != 0 {
      DicBack(dic[..], dicPos, m.out, 1);
      var prev := dic[(if dicPos == 0 then dic.Length else dicPos) - 1];
      PosStateMask(|m.out|, p.lp);
      prob := prob + LIT_SIZE * (And(processedPos, Pow2(p.lp) - 1) * Pow2(p.lc) + prev / Pow2(8 - p.lc));
    } else {
      NoByteYet(p, m);
    }
  }

  method PeekLiteral(p: Props, probs: array<nat>, dic: array<byte>, src: seq<byte>, g0: Regs, ghost d: RcDec, l: Locals,
      checkDicSize: nat, ghost m: Lz)
      returns (eof: bool, g: Regs)
    requires PropsOk(p) && Peeks(probs, src, g0, Lits(p), d) && InSync(p, l, dic[..], m) && l.len == 0
    requires l.dicPos <= dic.Length && CheckOk(p, checkDicSize, |m.out|, 0)
    ensures eof <==> LitDec(d, p, m).d.pos > |src|
    ensures !eof ==> Peeks(probs, src, g, Lits(p), LitDec(d, p, m).d)
  {
    hide Peeks, TreeDec, MatchedDec, Pow2, LitState, ValidCtx, DecIx, DicHolds, Back, LzInv, DecBit, InSync;
    WholeOutput(p, l, dic[..], m);
    StateInv(p, m);
    var prob := DummyLiteralProb(p, dic, l.dicPos, l.processedPos, checkDicSize, m);
    LitTreeNodes(LitState(p, m), Lits(p));
    if l.state < 7 {
      var v: nat;
      eof, v, g := PeekTree(probs, src, g0, d, prob, 256, 8, LitTree(LitState(p, m)), Lits(p));
    } else {
      DicBack(dic[..], l.dicPos, m.out, m.rep0);
      var matchByte := dic[if l.dicPos < l.rep0 then l.dicPos - l.rep0 + dic.Length else l.dicPos - l.rep0];
      eof, g := PeekMatched(probs, src, g0, d, prob, matchByte, LitState(p, m), Lits(p));
    }
  }

  lemma MatchDecLater(d: RcDec, ps: nat)
    requires DecOk(d)
    ensures var len := LenDec(d, false, ps); Later(d, len.d) && Later(len.d, MatchDec(d, ps).d)
  {
    hide LenDec, DistDec;
    LenLater(d, false, ps);
    DistLater(LenDec(d, false, ps).d, LenState(LenDec(d, false, ps).v + 2));
  }

  method PeekMatch(probs: array<nat>, src: seq<byte>, g0: Regs, ghost d: RcDec, posState: nat,
      ghost ps: nat, ghost lits: nat)
      returns (eof: bool, g: Regs)
    requires Peeks(probs, src, g0, lits, d) && ps < 16 && posState == 16 * ps
    ensures eof <==> MatchDec(d, ps).d.pos > |src|
    ensures !eof ==> Peeks(probs, src, g, lits, MatchDec(d, ps).d)
  {
    hide Peeks, LenDec, DistDec, DecOk;
    PeeksOk(probs, src, g0, lits, d);
    MatchDecLater(d, ps);
    var len: nat;
    eof, len, g := PeekLen(probs, src, g0, d, LEN_CODER, posState, false, ps, lits);
    if eof { return; }
    eof, g := PeekDist(probs, src, g, LenDec(d, false, ps).d, len, lits);
  }

  lemma RepDecLater(d: RcDec, st: nat, ps: nat)
    requires DecOk(d)
    ensures Later(d, RepDec(d, st, ps).d) && Later(d, DecBit(d, IsRepG0(st)).1)
    ensures var d0 := DecBit(d, IsRepG0(st)).1;
      Later(d0, DecBit(d0, IsRep0Long(st, ps)).1) && Later(d0, DecBit(d0, IsRepG1(st)).1)
    ensures DecBit(d, IsRepG0(st)).0 == 1 ==> Later(DecBit(d, IsRepG0(st)).1, RepDec(d, st, ps).d)
    ensures var d1 := DecBit(DecBit(d, IsRepG0(st)).1, IsRepG1(st)).1; Later(d1, DecBit(d1, IsRepG2(st)).1)
    ensures DecBit(d, IsRepG0(st)).0 == 1 && DecBit(DecBit(d, IsRepG0(st)).1, IsRepG1(st)).0 == 1
      ==> Later(DecBit(DecBit(d, IsRepG0(st)).1, IsRepG1(st)).1, RepDec(d, st, ps).d)
  {
    hide DecBit;
    BitLater(d, IsRepG0(st));
    var d0 := DecBit(d, IsRepG0(st)).1;
    BitLater(d0, IsRep0Long(st, ps));
    BitLater(d0, IsRepG1(st));
    var d1 := DecBit(d0, IsRepG1(st)).1;
    BitLater(d1, IsRepG2(st));
  }

  method PeekRepSelect(probs: array<nat>, src: seq<byte>, g0: Regs, ghost d0: RcDec, state: nat, posState: nat,
      ghost ps: nat, ghost lits: nat)
      returns (eof: bool, short: bool, g: Regs)
    requires Peeks(probs, src, g0, lits, d0) && state < 12 && ps < 16 && posState == 16 * ps
    ensures eof <==> RepDec(d0, state, ps).d.pos > |src|
    ensures !eof
      ==> Peeks(probs, src, g, lits, RepDec(d0, state, ps).d) && (short <==> RepDec(d0, state, ps).v == SHORT_REP)
  {
    hide Peeks, DecBit, DecOk;
    PeeksOk(probs, src, g0, lits, d0);
    RepDecLater(d0, state, ps);
    var b: bit;
    short := false;
    eof, b, g := PeekBit(probs, src, g0, d0, IS_REP_G0 + state, IsRepG0(state), lits);
    ghost var d := DecBit(d0, IsRepG0(state)).1;
    if eof { return; }
    if b == 0 {
      eof, b, g := PeekBit(probs, src, g, d, IS_REP0_LONG + posState + state, IsRep0Long(state, ps), lits);
      short := b == 0;
    } else {
      eof, b, g := PeekBit(probs, src, g, d, IS_REP_G1 + state, IsRepG1(state), lits);
      if eof { return; }
      if b == 1 {
        d := DecBit(d, IsRepG1(state)).1;
        eof, b, g := PeekBit(probs, src, g, d, IS_REP_G2 + state, IsRepG2(state), lits);
      }
    }
  }

  lemma RepMatchLater(d: RcDec, st: nat, ps: nat)
    requires DecOk(d)
    ensures var sel := RepDec(d, st, ps); Later(d, sel.d) && Later(sel.d, RepMatchDec(d, st, ps).d)
  {
    hide RepDec, LenDec;
    RepDecLater(d, st, ps);
    LenLater(RepDec(d, st, ps).d, true, ps);
  }

  method PeekRep(probs: array<nat>, src: seq<byte>, g0: Regs, ghost d: RcDec, state: nat, posState: nat,
      ghost ps: nat, ghost lits: nat)
      returns (eof: bool, g: Regs)
    requires Peeks(probs, src, g0, lits, d) && state < 12 && ps < 16 && posState == 16 * ps
    ensures eof <==> RepMatchDec(d, state, ps).d.pos > |src|
    ensures !eof ==> Peeks(probs, src, g, lits, RepMatchDec(d, state, ps).d)
  {
    hide Peeks, RepDec, LenDec, DecOk;
    PeeksOk(probs, src, g0, lits, d);
    RepMatchLater(d, state, ps);
    var short: bool;
    eof, short, g := PeekRepSelect(probs, src, g0, d, state, posState, ps, lits);
    if eof || short { return; }
    var len: nat;
    eof, len, g := PeekLen(probs, src, g, RepDec(d, state, ps).d, REP_LEN_CODER, posState, true, ps, lits);
  }

  lemma SymDecLater(p: Props, m: Lz, d: RcDec)
    requires PropsOk(p) && DecOk(d)
    ensures var ps := PosState(p, m); var (b, d1) := DecBit(d, IsMatch(m.state, ps));
      var (c, d2) := DecBit(d1, IsRep(m.state));
      && Later(d, d1) && Later(d1, SymDec(p, m, d).d) && Later(d1, d2) && (b == 1 ==> Later(d2, SymDec(p, m, d).d))
  {
    hide DecBit, LitDec, MatchDec, RepMatchDec, LenDec;
    var ps := PosState(p, m);
    var (b, d1) := DecBit(d, IsMatch(m.state, ps));
    BitLater(d, IsMatch(m.state, ps));
    BitLater(d1, IsRep(m.state));
    var d2 := DecBit(d1, IsRep(m.state)).1;
    MatchDecLater(d2, ps);
    RepMatchLater(d2, m.state, ps);
    LitLater(p, m, d1);
  }

  lemma LitLater(p: Props, m: Lz, d: RcDec)
    requires p.lc <= 8 && DecOk(d)
    ensures Later(d, LitDec(d, p, m).d)
  {
    hide LitDec, LitEvs, Run, Pending;
    LitSound(d, p, m);
    RunKeeps(d, LitEvs(p, m, LitDec(d, p, m).v));
  }

  lemma KindBranches(p: Props, m: Lz, d: RcDec)
    requires PropsOk(p)
    ensures var ps := PosState(p, m); var (b, d1) := DecBit(d, IsMatch(m.state, ps));
      var c := DecBit(d1, IsRep(m.state)).0;
      KindOf(SymDec(p, m, d).v) == if b == 0 then DummyLit else if c == 0 then DummyMatch else DummyRep
  {
    hide DecBit, LitDec, LenDec, DistDec, RepDec;
  }

  // The body of LzmaDec_TryDummy before its last NORMALIZE_CHECK.
  method PeekSymbol(p: Props, probs: array<nat>, dic: array<byte>, src: seq<byte>, g0: Regs, ghost d0: RcDec, l: Locals,
      checkDicSize: nat, ghost m: Lz)
      returns (eof: bool, res: Dummy, g: Regs)
    requires PropsOk(p) && Peeks(probs, src, g0, Lits(p), d0) && InSync(p, l, dic[..], m) && l.len == 0
    requires l.dicPos <= dic.Length && CheckOk(p, checkDicSize, |m.out|, 0)
    ensures eof <==> SymDec(p, m, d0).d.pos > |src|
    ensures !eof ==> Peeks(probs, src, g, Lits(p), SymDec(p, m, d0).d) && res == KindOf(SymDec(p, m, d0).v)
  {
    hide Peeks, SymDec, LitDec, MatchDec, RepMatchDec, DecBit, InSync, DicHolds, Pow2, And, ValidCtx, DecIx, DecOk;
    WholeOutput(p, l, dic[..], m);
    FlagCtx(p, m);
    PeeksOk(probs, src, g0, Lits(p), d0);
    SymDecBranches(p, m, d0);
    KindBranches(p, m, d0);
    SymDecLater(p, m, d0);
    ghost var ps := PosState(p, m);
    var posState := And(l.processedPos, Pow2(p.pb) - 1) * 16;
    var b: bit;
    res := DummyLit;
    eof, b, g := PeekBit(probs, src, g0, d0, IS_MATCH + posState + l.state, IsMatch(m.state, ps), Lits(p));
    ghost var d := DecBit(d0, IsMatch(m.state, ps)).1;
    if eof { return; }
    if b == 0 {
      eof, g := PeekLiteral(p, probs, dic, src, g, d, l, checkDicSize, m);
      return;
    }
    eof, b, g := PeekBit(probs, src, g, d, IS_REP + l.state, IsRep(m.state), Lits(p));
    d := DecBit(d, IsRep(m.state)).1;
    if eof { return; }
    if b == 0 {
      res := DummyMatch;
      eof, g := PeekMatch(probs, src, g, d, posState, ps, Lits(p));
    } else {
      res := DummyRep;
      eof, g := PeekRep(probs, src, g, d, l.state, posState, ps, Lits(p));
    }
  }

  // LzmaDec_TryDummy against the symbol the real decoder would read: input runs out exactly
  // when that symbol, with the normalisation after it, needs more than src has.
  method TryDummy(p: Props, probs: array<nat>, dic: array<byte>, src: seq<byte>, g0: Regs, ghost d: RcDec, l: Locals,
      checkDicSize: nat, ghost m: Lz)
      returns (res: Dummy, processed: nat)
    requires PropsOk(p) && Reads(probs, src, g0, Lits(p), d) && g0.buf <= |src|
      && InSync(p, l, dic[..], m) && l.len == 0
    requires l.dicPos <= dic.Length && CheckOk(p, checkDicSize, |m.out|, 0)
    ensures res.InputEof? <==> Norm(SymDec(p, m, d).d).pos > |src|
    ensures !res.InputEof? ==> processed == Norm(SymDec(p, m, d).d).pos && res == KindOf(SymDec(p, m, d).v)
  {
    hide SymDec, InSync, LzInv;
    WholeOutput(p, l, dic[..], m);
    StateInv(p, m);
    DryRunAgrees(p, m, d);
    var eof: bool;
    var g: Regs;
    eof, res, g := PeekSymbol(p, probs, dic, src, g0, Frozen(d), l, checkDicSize, m);
    processed := 0;
    if eof {
      res := InputEof;
      return;
    }
    if g.range < TOP_VALUE {
      if g.buf >= |src| {
        res := InputEof;
        return;
      }
    }
    processed := Normalized(g, src).buf;
  }
}

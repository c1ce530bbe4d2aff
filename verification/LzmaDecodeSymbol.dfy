// One turn of LZMA_DECODE_REAL's loop: a symbol read and carried out on the dictionary.
module LzmaDecodeSymbol {
  import opened Words
  import opened Masks
  import opened LzmaContexts
  import opened LzmaLayout
  import opened RangeCoder
  import opened LzmaSymbols
  import opened LzmaDryRun
  import opened LzmaRun
  import opened LzmaMasks
  import opened LzmaDecoder
  import opened LzmaDictionary

  const END_LEN: nat := 274         // kMatchSpecLenStart
  const ERROR_LEN: nat := 512       // kMatchSpecLen_Error_Data

  // The locals of LZMA_DECODE_REAL besides the range coder's; len becomes remainLen.
  datatype Locals = Locals(state: nat, rep0: nat, rep1: nat, rep2: nat, rep3: nat, dicPos: nat,
                           processedPos: nat, len: nat)

  // What of m's output is in the dictionary: all but the len bytes still to be copied.
  function Written(l: Locals, m: Lz): seq<byte>
    requires l.len <= |m.out|
  {
    m.out[..|m.out| - l.len]
  }

  // The dictionary is long enough for every distance, or it has never wrapped.
  predicate Roomy(p: Props, n: nat, dicPos: nat, total: nat) {
    n >= p.dicSize || dicPos == total
  }

  // The locals and the dictionary stand for m, with len bytes of its last match to come.
  ghost predicate InSync(p: Props, l: Locals, dic: seq<byte>, m: Lz) {
    && LzInv(p, m)
    && l.state == m.state && l.rep0 == m.rep0 && l.rep1 == m.rep1 && l.rep2 == m.rep2 && l.rep3 == m.rep3
    && l.len <= |m.out|
    && var w := Written(l, m);
      && DicHolds(dic, l.dicPos, w)
      && l.processedPos == W32(|w|)
      && (w != [] ==> 1 <= m.rep0 <= Min(|w|, p.dicSize))
      && (w == [] ==> l.len == 0)
      && m.out == Copy(w, m.rep0, l.len)
      && Roomy(p, |dic|, l.dicPos, |w|)
  }

  // checkDicSize while a run is under way: 0 until dicSize bytes have been written, and then
  // the run must stop before more than dicSize bytes have been.
  predicate CheckOk(p: Props, checkDicSize: nat, total: nat, room: int) {
    if checkDicSize == 0 then total + room <= p.dicSize else checkDicSize == p.dicSize <= total
  }

  lemma WholeOutput(p: Props, l: Locals, dic: seq<byte>, m: Lz)
    requires InSync(p, l, dic, m) && l.len == 0
    ensures LzInv(p, m) && DicHolds(dic, l.dicPos, m.out) && l.processedPos == W32(|m.out|)
      && Roomy(p, |dic|, l.dicPos, |m.out|)
    ensures l.state == m.state && l.rep0 == m.rep0 && l.rep1 == m.rep1 && l.rep2 == m.rep2 && l.rep3 == m.rep3
    ensures m.out != [] ==> 1 <= m.rep0 <= |m.out| && m.rep0 <= |dic| && m.rep0 <= p.dicSize
  {
    assert Written(l, m) == m.out;
  }

  // ---------- literals ----------

  lemma LitTreeNodes(l: nat, lits: nat)
    requires l < lits
    ensures Pow2(8) == 256
    ensures forall m :: 1 <= m < Pow2(8)
              ==> ValidCtx(Node(LitTree(l), m), lits) && DecIx(Node(LitTree(l), m)) == LITERAL + LIT_SIZE * l + m
  {
    Pow2Consts();
  }

  // The literal's context offset from processedPos and the byte before dicPos; the first byte
  // of a stream has none.
  method LiteralProb(p: Props, dic: array<byte>, dicPos: nat, processedPos: nat, checkDicSize: nat,
      ghost m: Lz) returns (prob: nat)
    requires PropsOk(p) && DicHolds(dic[..], dicPos, m.out) && processedPos == W32(|m.out|)
    requires CheckOk(p, checkDicSize, |m.out|, 0)
    requires m.out != [] ==> dic.Length > 0
    ensures LitState(p, m) < Lits(p) && prob == LITERAL + LIT_SIZE * LitState(p, m)
  {
    hide Pow2, And, LitStateOf;
    LitStateBound(p, m);
    prob := LITERAL;
    if processedPos != 0 || checkDicSize != 0 {
      DicBack(dic[..], dicPos, m.out, 1);
      var prev := dic[(if dicPos == 0 then dic.Length else dicPos) - 1];
      LitOffset(p, |m.out|, prev);
      prob := prob + 3 * (And(W32(processedPos * 256) + prev, LpMask(p)) * Pow2(p.lc));
    } else {
      NoByteYet(p, m);
    }
  }

  lemma NoByteYet(p: Props, m: Lz)
    requires PropsOk(p) && m.out == []
    ensures LitState(p, m) == 0
  {
    assert 0 % Pow2(p.lp) == 0 && 0 / Pow2(8 - p.lc) == 0;
  }

  lemma StateInv(p: Props, m: Lz)
    requires LzInv(p, m)
    ensures m.state < 12 && (m.out == [] ==> m == LZ_INIT)
  {
  }

  // The literal branch up to the byte itself.
  method ReadLiteral(probs: array<nat>, src: seq<byte>, g0: Regs, ghost d0: RcDec, p: Props, dic: array<byte>,
      l: Locals, prob: nat, ghost m: Lz)
      returns (symbol: byte, g: Regs)
    requires PropsOk(p) && Reads(probs, src, g0, Lits(p), d0) && LzInv(p, m)
    requires DicHolds(dic[..], l.dicPos, m.out) && l.state == m.state && l.rep0 == m.rep0
    requires m.out != [] ==> 1 <= m.rep0 <= |m.out| && m.rep0 <= dic.Length
    requires LitState(p, m) < Lits(p) && prob == LITERAL + LIT_SIZE * LitState(p, m)
    modifies probs
    ensures symbol == LitDec(d0, p, m).v && Reads(probs, src, g, Lits(p), LitDec(d0, p, m).d)
  {
    hide Reads, TreeDec, MatchedDec, Pow2, LitState, ValidCtx, DecIx, LitEvs, Pending, Run,
      DicHolds, Back, LzInv, DecBit;
    StateInv(p, m);
    LitTreeNodes(LitState(p, m), Lits(p));
    LitSound(d0, p, m);
    var v: nat;
    if l.state < 7 {
      v, g := TreeDecode(probs, src, g0, d0, prob, 256, 8, LitTree(LitState(p, m)), Lits(p));
    } else {
      DicBack(dic[..], l.dicPos, m.out, m.rep0);
      var matchByte := dic[if l.dicPos < l.rep0 then l.dicPos - l.rep0 + dic.Length else l.dicPos - l.rep0];
      v, g := MatchedLiteral(probs, src, g0, d0, prob, matchByte, LitState(p, m), Lits(p));
      v := v - 0x100;
    }
    symbol := v;
  }

  // ---------- repeated distances ----------

  // state -= ..., per branch
  function LitNextBy(state: nat): int {
    if state < 7 then state - (if state < 4 then state else 3) else state - (if state < 10 then 3 else 6)
  }

  method RepDecode(probs: array<nat>, src: seq<byte>, g0: Regs, ghost d0: RcDec, l0: Locals, posState: nat,
      ghost ps: nat, ghost lits: nat)
      returns (short: bool, l: Locals, g: Regs)
    requires Reads(probs, src, g0, lits, d0) && l0.state < 12 && ps < 16 && posState == 16 * ps
    modifies probs
    ensures var r := RepDec(d0, l0.state, ps);
      && Reads(probs, src, g, lits, r.d) && r.v <= SHORT_REP && (short <==> r.v == SHORT_REP)
      && l == (if r.v == 0 || r.v == SHORT_REP then l0
               else if r.v == 1 then l0.(rep0 := l0.rep1, rep1 := l0.rep0)
               else if r.v == 2 then l0.(rep0 := l0.rep2, rep1 := l0.rep0, rep2 := l0.rep1)
               else l0.(rep0 := l0.rep3, rep1 := l0.rep0, rep2 := l0.rep1, rep3 := l0.rep2))
  {
    hide Reads, DecBit;
    var state := l0.state;
    var b: bit;
    short, l := false, l0;
    b, g := GetBit(probs, src, g0, d0, IS_REP_G0 + state, IsRepG0(state), lits);
    ghost var d := DecBit(d0, IsRepG0(state)).1;
    if b == 0 {
      b, g := GetBit(probs, src, g, d, IS_REP0_LONG + posState + state, IsRep0Long(state, ps), lits);
      short := b == 0;
    } else {
      var distance: nat;
      b, g := GetBit(probs, src, g, d, IS_REP_G1 + state, IsRepG1(state), lits);
      if b == 0 {
        distance := l.rep1;
      } else {
        d := DecBit(d, IsRepG1(state)).1;
        b, g := GetBit(probs, src, g, d, IS_REP_G2 + state, IsRepG2(state), lits);
        if b == 0 {
          distance := l.rep2;
        } else {
          distance := l.rep3;
          l := l.(rep3 := l.rep2);
        }
        l := l.(rep2 := l.rep1);
      }
      l := l.(rep1 := l.rep0);
      l := l.(rep0 := distance);
    }
  }

  // ---------- what a turn of the loop leaves ----------

  // The symbol read from d in state m, and where it leaves the locals and the dictionary.
  ghost predicate Turned(p: Props, m: Lz, s: Sym, l0: Locals, l: Locals, dic: seq<byte>, limit: nat) {
    if s.Match? && s.dist == END_DIST then l == l0.(len := END_LEN)
    else if s.Match? && s.dist >= Reach(p, m)
         then l.len >= ERROR_LEN && l.dicPos == l0.dicPos && l.processedPos == l0.processedPos
    else
      && InSync(p, l, dic, Apply(m, s)) && l.len < END_LEN
      && l0.dicPos <= l.dicPos <= limit && (l.len > 0 ==> l.dicPos == limit)
      && |Written(l, Apply(m, s))| == |m.out| + (l.dicPos - l0.dicPos)
  }

  // The state and the distances after a symbol.
  ghost predicate MatchRegs(l: Locals, m': Lz) {
    l.state == m'.state && l.rep0 == m'.rep0 && l.rep1 == m'.rep1 && l.rep2 == m'.rep2 && l.rep3 == m'.rep3
  }

  lemma InReach(p: Props, m: Lz)
    requires LzInv(p, m) && m.out != []
    ensures 1 <= m.rep0 <= Min(|m.out|, p.dicSize)
  {
  }

  lemma CountOn(n: nat, k: nat)
    ensures W32(W32(n) + k) == W32(n + k)
  {
  }

  // A symbol of one byte: the byte is written and counted.
  lemma OneByteTurned(p: Props, m: Lz, s: Sym, b: byte, l: Locals, l': Locals, dic: seq<byte>, limit: nat)
    requires PropsOk(p) && InSync(p, l, dic, m) && l.len == 0 && l.dicPos < limit <= |dic|
    requires (s.Lit? || s.ShortRep?) && Legal(p, m, s) && Apply(m, s).out == m.out + [b] && MatchRegs(l', Apply(m, s))
    requires l'.dicPos == l.dicPos + 1 && l'.processedPos == W32(l.processedPos + 1) && l'.len == 0
    ensures Turned(p, m, s, l, l', dic[l.dicPos := b], limit)
  {
    hide DicHolds, Apply, Legal, LzInv, Copy, W32, Min, Reach;
    WholeOutput(p, l, dic, m);
    CountOn(|m.out|, 1);
    ApplyInv(p, m, s);
    InReach(p, Apply(m, s));
    DicPush(dic, l.dicPos, m.out, b);
    CopyNone(m.out + [b], Apply(m, s).rep0);
    assert Written(l', Apply(m, s)) == m.out + [b];
  }

  lemma LiteralTurned(p: Props, m: Lz, b: byte, l: Locals, dic: seq<byte>, limit: nat)
    requires PropsOk(p) && InSync(p, l, dic, m) && l.len == 0 && l.dicPos < limit <= |dic|
    ensures Turned(p, m, Lit(b), l,
                   l.(state := LitNextBy(m.state), dicPos := l.dicPos + 1, processedPos := W32(l.processedPos + 1)),
      dic[l.dicPos := b], limit)
  {
    hide DicHolds, Turned;
    var l' := l.(state := LitNextBy(m.state), dicPos := l.dicPos + 1, processedPos := W32(l.processedPos + 1));
    OneByteTurned(p, m, Lit(b), b, l, l', dic, limit);
  }

  lemma CopyOne(out: seq<byte>, dist: nat)
    ensures Copy(out, dist, 1) == out + [Back(out, dist)]
  {
    hide Back;
    CopyNone(out + [Back(out, dist)], dist);
  }

  lemma ShortRepTurned(p: Props, m: Lz, l: Locals, dic: seq<byte>, limit: nat)
    requires PropsOk(p) && InSync(p, l, dic, m) && l.len == 0 && l.dicPos < limit <= |dic| && m.out != []
    ensures Turned(p, m, ShortRep, l,
                   l.(state := if m.state < 7 then 9 else 11, dicPos := l.dicPos + 1,
                      processedPos := W32(l.processedPos + 1)),
      dic[l.dicPos := Back(m.out, m.rep0)], limit)
  {
    hide DicHolds, Copy, Back, Turned;
    var l' := l.(state := if m.state < 7 then 9 else 11, dicPos := l.dicPos + 1,
                 processedPos := W32(l.processedPos + 1));
    CopyOne(m.out, m.rep0);
    OneByteTurned(p, m, ShortRep, Back(m.out, m.rep0), l, l', dic, limit);
  }

  lemma MatchDist(p: Props, m: Lz, s: Sym)
    requires PropsOk(p) && LzInv(p, m) && Legal(p, m, s) && (s.Rep? || s.Match?) && m.out != []
    ensures 1 <= Apply(m, s).rep0 <= Min(|m.out|, p.dicSize) && Apply(m, s).out == Copy(m.out, Apply(m, s).rep0, s.len)
  {
  }

  lemma MatchTurned(p: Props, m: Lz, s: Sym, l0: Locals, l: Locals, dic: seq<byte>, limit: nat, len: nat, curLen: nat)
    requires PropsOk(p) && LzInv(p, m) && Legal(p, m, s) && (s.Rep? || s.Match?) && len == s.len
    requires MatchRegs(l, Apply(m, s)) && curLen <= len && l.len == len - curLen
    requires l.dicPos == l0.dicPos + curLen <= limit && l.processedPos == W32(|m.out| + curLen)
    requires curLen < len ==> l.dicPos == limit
    requires m.out != [] && Roomy(p, |dic|, l0.dicPos, |m.out|) && DicHolds(dic, l.dicPos, Copy(m.out, l.rep0, curLen))
    ensures Turned(p, m, s, l0, l, dic, limit)
  {
    hide DicHolds, LzInv, Back, W32;
    var m' := Apply(m, s);
    ApplyInv(p, m, s);
    MatchDist(p, m, s);
    CopySplit(m.out, m'.rep0, curLen, len - curLen);
    var w := Copy(m.out, m'.rep0, curLen);
    assert m'.out == Copy(w, m'.rep0, l.len);
    assert Written(l, m') == w;
  }

  // rep3 = rep2; rep2 = rep1; rep1 = rep0; rep0 = distance + 1, and the state of a match.
  method CopyPart(p: Props, dic: array<byte>, l0: Locals, len: nat, limit: nat, checkDicSize: nat, ghost m: Lz,
      ghost s: Sym, ghost start: Locals)
      returns (l: Locals)
    requires PropsOk(p) && LzInv(p, m) && Legal(p, m, s) && (s.Rep? || s.Match?) && len == s.len
    requires MatchRegs(l0, Apply(m, s)) && m.out != [] && limit <= dic.Length && l0.dicPos <= limit
      && l0.dicPos == start.dicPos
    requires l0.processedPos == W32(|m.out|) && DicHolds(dic[..], l0.dicPos, m.out)
      && Roomy(p, dic.Length, l0.dicPos, |m.out|)
    modifies dic
    ensures Turned(p, m, s, start, l, dic[..], limit) && WroteOnly(old(dic[..]), dic[..], l0.dicPos, l.dicPos)
  {
    hide DicHolds, Turned, Copy, LzInv, Apply, Legal, Roomy, Back, W32;
    RepInReach(p, m, s, l0, dic.Length);
    var rem := limit - l0.dicPos;
    CountOn(|m.out|, 0);
    if rem == 0 {
      l := l0.(len := len);
      CopyNone(m.out, l.rep0);
      MatchTurned(p, m, s, start, l, dic[..], limit, len, 0);
    } else {
      var curLen := if rem < len then rem else len;
      var dicPos := CopyMatch(dic, l0.dicPos, l0.rep0, curLen, m.out);
      l := l0.(dicPos := dicPos, processedPos := W32(l0.processedPos + curLen), len := len - curLen);
      CountOn(|m.out|, curLen);
      MatchTurned(p, m, s, start, l, dic[..], limit, len, curLen);
    }
  }

  lemma CopyNone(out: seq<byte>, dist: nat)
    ensures Copy(out, dist, 0) == out
  {
  }

  lemma RepInReach(p: Props, m: Lz, s: Sym, l: Locals, n: nat)
    requires PropsOk(p) && LzInv(p, m) && Legal(p, m, s) && (s.Rep? || s.Match?) && m.out != []
    requires MatchRegs(l, Apply(m, s)) && l.dicPos <= n && Roomy(p, n, l.dicPos, |m.out|)
    ensures 1 <= l.rep0 <= |m.out| && l.rep0 <= p.dicSize && l.rep0 <= n && s.len > 0
  {
  }

  // ---------- a whole turn ----------

  lemma FlagCtx(p: Props, m: Lz)
    requires PropsOk(p) && LzOk(m)
    ensures PosState(p, m) < 16
    ensures var c := IsMatch(m.state, PosState(p, m));
      ValidCtx(c, Lits(p)) && DecIx(c) == IS_MATCH + 16 * PosState(p, m) + m.state
    ensures var c := IsRep(m.state); ValidCtx(c, Lits(p)) && DecIx(c) == IS_REP + m.state
    ensures And(W32(|m.out|), Pow2(p.pb) - 1) == PosState(p, m)
  {
    PosStateMask(|m.out|, p.pb);
  }

  // How SymDec goes on after isMatch and isRep.
  lemma SymDecBranches(p: Props, m: Lz, d: RcDec)
    requires PropsOk(p)
    ensures var ps := PosState(p, m); var (b, d1) := DecBit(d, IsMatch(m.state, ps));
      var (c, d2) := DecBit(d1, IsRep(m.state));
      SymDec(p, m, d) == (
        if b == 0 then (var r := LitDec(d1, p, m); Read(Lit(if r.v < 256 then r.v else 0), r.d))
        else if c == 0 then MatchDec(d2, ps) else RepMatchDec(d2, m.state, ps))
  {
    hide DecBit, LitDec, MatchDec, RepMatchDec;
  }

  // The symbol's own part of LZMA_DECODE_REAL's loop for a literal.
  method DecodeLiteral(p: Props, probs: array<nat>, dic: array<byte>, src: seq<byte>, g0: Regs,
      ghost d: RcDec, checkDicSize: nat,
                       limit: nat, l0: Locals, ghost m: Lz)
      returns (l: Locals, g: Regs)
    requires PropsOk(p) && Reads(probs, src, g0, Lits(p), d) && InSync(p, l0, dic[..], m) && l0.len == 0
    requires l0.dicPos < limit <= dic.Length && CheckOk(p, checkDicSize, |m.out|, 0)
    modifies probs, dic
    ensures var r := LitDec(d, p, m);
      r.v < 256 && Reads(probs, src, g, Lits(p), r.d) && Turned(p, m, Lit(r.v), l0, l, dic[..], limit)
    ensures WroteOnly(old(dic[..]), dic[..], l0.dicPos, l.dicPos) && l.dicPos == l0.dicPos + 1
  {
    hide Reads, LitDec, Turned, InSync, DicHolds, LitState, Pow2, And;
    ghost var was := dic[..];
    WholeOutput(p, l0, dic[..], m);
    LitSound(d, p, m);
    var prob := LiteralProb(p, dic, l0.dicPos, l0.processedPos, checkDicSize, m);
    var symbol: byte;
    symbol, g := ReadLiteral(probs, src, g0, d, p, dic, l0, prob, m);
    LiteralTurned(p, m, symbol, l0, dic[..], limit);
    l := l0.(state := LitNextBy(l0.state), dicPos := l0.dicPos + 1, processedPos := W32(l0.processedPos + 1));
    dic[l0.dicPos] := symbol;
    assert dic[..] == was[l0.dicPos := symbol];
  }

  // isRep was 1: a short repeat is carried out at once, else the locals name the distance.
  method DecodeRep(p: Props, probs: array<nat>, dic: array<byte>, src: seq<byte>, g0: Regs, ghost d: RcDec,
                   limit: nat, l0: Locals, posState: nat, ghost m: Lz)
      returns (short: bool, l: Locals, g: Regs)
    requires PropsOk(p) && Reads(probs, src, g0, Lits(p), d) && InSync(p, l0, dic[..], m) && l0.len == 0
    requires l0.dicPos < limit <= dic.Length && m.out != [] && posState == 16 * PosState(p, m)
    modifies probs, dic
    ensures var r := RepDec(d, m.state, PosState(p, m));
      && Reads(probs, src, g, Lits(p), r.d) && (short <==> r.v == SHORT_REP) && r.v <= SHORT_REP
      && (short
          ==> Turned(p, m, ShortRep, l0, l, dic[..], limit) && WroteOnly(old(dic[..]), dic[..], l0.dicPos, l.dicPos))
      && (!short ==> dic[..] == old(dic[..]) && l.dicPos == l0.dicPos && l.processedPos == l0.processedPos)
      && (!short ==> forall len :: 2 <= len <= 273 ==> MatchRegs(l, Apply(m, Rep(r.v, len))))
  {
    hide Reads, RepDec, Turned, InSync, DicHolds, Pow2, Copy;
    ghost var was := dic[..];
    WholeOutput(p, l0, dic[..], m);
    FlagCtx(p, m);
    short, l, g := RepDecode(probs, src, g0, d, l0, posState, PosState(p, m), Lits(p));
    if short {
      DicBack(dic[..], l.dicPos, m.out, m.rep0);
      ShortRepTurned(p, m, l0, dic[..], limit);
      dic[l.dicPos] := dic[if l.dicPos < l.rep0 then l.dicPos - l.rep0 + dic.Length else l.dicPos - l.rep0];
      assert dic[..] == was[l0.dicPos := Back(m.out, m.rep0)];
      l := l.(dicPos := l.dicPos + 1, processedPos := W32(l.processedPos + 1), state := if l.state < 7 then 9 else 11);
    } else {
      l := l.(state := if l.state < 7 then 8 else 11);
    }
  }

  // The rest of a repeat: its length, then the copy.
  method DecodeRepMatch(p: Props, probs: array<nat>, dic: array<byte>, src: seq<byte>, g0: Regs,
      ghost d: RcDec, checkDicSize: nat,
                        limit: nat, l0: Locals, posState: nat, ghost m: Lz)
      returns (l: Locals, g: Regs, stop: bool)
    requires PropsOk(p) && Reads(probs, src, g0, Lits(p), d) && InSync(p, l0, dic[..], m) && l0.len == 0
    requires l0.dicPos < limit <= dic.Length && m.out != [] && posState == 16 * PosState(p, m)
    modifies probs, dic
    ensures var r := RepMatchDec(d, m.state, PosState(p, m));
      Reads(probs, src, g, Lits(p), r.d) && Turned(p, m, r.v, l0, l, dic[..], limit)
    ensures WroteOnly(old(dic[..]), dic[..], l0.dicPos, l.dicPos) && !stop
  {
    hide Reads, RepDec, LenDec, Turned, InSync, DicHolds, Pow2, Copy, MatchRegs, Apply, LzInv, Roomy, W32, PosState;
    stop := false;
    WholeOutput(p, l0, dic[..], m);
    FlagCtx(p, m);
    var short: bool;
    ghost var r := RepDec(d, m.state, PosState(p, m));
    short, l, g := DecodeRep(p, probs, dic, src, g0, d, limit, l0, posState, m);
    if !short {
      LenSound(r.d, true, PosState(p, m));
      var len: nat;
      len, g := LenDecode(probs, src, g, r.d, REP_LEN_CODER, posState, true, PosState(p, m), Lits(p));
      l := CopyPart(p, dic, l, len + 2, limit, checkDicSize, m, Rep(r.v, len + 2), l0);
    }
  }

  // A match with its own distance: the end mark, a distance out of reach, or a copy.
  method DecodeMatch(p: Props, probs: array<nat>, dic: array<byte>, src: seq<byte>, g0: Regs,
      ghost d: RcDec, checkDicSize: nat,
                     limit: nat, l0: Locals, posState: nat, ghost m: Lz)
      returns (l: Locals, g: Regs, stop: bool)
    requires PropsOk(p) && Reads(probs, src, g0, Lits(p), d) && InSync(p, l0, dic[..], m) && l0.len == 0
    requires l0.dicPos <= limit <= dic.Length && posState == 16 * PosState(p, m) && CheckOk(p, checkDicSize, |m.out|, 0)
    modifies probs, dic
    ensures var r := MatchDec(d, PosState(p, m));
      Reads(probs, src, g, Lits(p), r.d) && Turned(p, m, r.v, l0, l, dic[..], limit)
    ensures WroteOnly(old(dic[..]), dic[..], l0.dicPos, l.dicPos)
    ensures var s := MatchDec(d, PosState(p, m)).v; s.Match? && (stop <==> s.dist == END_DIST || s.dist >= Reach(p, m))
  {
    hide Reads, LenDec, DistDec, InSync, DicHolds, Pow2, Copy, MatchRegs, Apply, LzInv, Roomy, LenEvs, DistEvs,
      Pending, Run, W32, PosState;
    WholeOutput(p, l0, dic[..], m);
    FlagCtx(p, m);
    LenSound(d, false, PosState(p, m));
    var len: nat;
    len, g := LenDecode(probs, src, g0, d, LEN_CODER, posState, false, PosState(p, m), Lits(p));
    ghost var d1 := LenDec(d, false, PosState(p, m)).d;
    DistSound(d1, LenState(len + 2));
    var distance: nat;
    distance, g := DistDecode(probs, src, g, d1, len, Lits(p));
    ReachOf(p, checkDicSize, m);
    stop := true;
    if distance == END_DIST {
      l := l0.(len := END_LEN);
      return;
    }
    l := l0.(rep3 := l0.rep2, rep2 := l0.rep1, rep1 := l0.rep0, rep0 := distance + 1,
             state := if l0.state < 7 then 7 else 10);
    if distance >= (if checkDicSize == 0 then l0.processedPos else checkDicSize) {
      l := l.(len := len + ERROR_LEN + 2);
      return;
    }
    stop := false;
    MatchRegsHold(p, m, l0, l, distance, len + 2);
    hide Turned;
    l := CopyPart(p, dic, l, len + 2, limit, checkDicSize, m, Match(distance, len + 2), l0);
  }

  lemma MatchRegsHold(p: Props, m: Lz, l0: Locals, l: Locals, distance: nat, len: nat)
    requires LzInv(p, m) && l0.state == m.state && l0.rep0 == m.rep0 && l0.rep1 == m.rep1
      && l0.rep2 == m.rep2 && 2 <= len <= 273
    requires l
      == l0.(rep3 := l0.rep2, rep2 := l0.rep1, rep1 := l0.rep0, rep0 := distance + 1,
             state := if l0.state < 7 then 7 else 10)
    ensures MatchRegs(l, Apply(m, Match(distance, len)))
  {
  }

  // The distance check is against what the dictionary holds.
  lemma ReachOf(p: Props, checkDicSize: nat, m: Lz)
    requires PropsOk(p) && CheckOk(p, checkDicSize, |m.out|, 0)
    ensures Reach(p, m) == if checkDicSize == 0 then W32(|m.out|) else checkDicSize
    ensures Reach(p, m) > 0 ==> m.out != []
  {
  }

  // One turn of the loop; go is false after the end mark, an error, or with no room to copy.
  method DecodeSymbol(p: Props, probs: array<nat>, dic: array<byte>, src: seq<byte>, g0: Regs,
      ghost d0: RcDec, checkDicSize: nat,
                      limit: nat, l0: Locals, ghost m: Lz)
      returns (l: Locals, g: Regs, stop: bool)
    requires PropsOk(p) && Reads(probs, src, g0, Lits(p), d0) && InSync(p, l0, dic[..], m) && l0.len == 0
    requires l0.dicPos <= limit <= dic.Length && CheckOk(p, checkDicSize, |m.out|, 0)
    requires var s := SymDec(p, m, d0).v; (l0.dicPos == limit ==> s.Match?) && (m.out == [] ==> s.Lit? || s.Match?)
    modifies probs, dic
    ensures var r := SymDec(p, m, d0); Reads(probs, src, g, Lits(p), r.d) && Turned(p, m, r.v, l0, l, dic[..], limit)
    ensures WroteOnly(old(dic[..]), dic[..], l0.dicPos, l.dicPos)
    ensures var s := SymDec(p, m, d0).v; stop <==> s.Match? && (s.dist == END_DIST || s.dist >= Reach(p, m))
  {
    hide Reads, SymDec, LitDec, MatchDec, RepMatchDec, DecBit, InSync, Turned, DicHolds, Pow2, And, ValidCtx, DecIx;
    WholeOutput(p, l0, dic[..], m);
    FlagCtx(p, m);
    SymDecBranches(p, m, d0);
    ghost var ps := PosState(p, m);
    var posState := And(l0.processedPos, Pow2(p.pb) - 1) * 16;
    var b: bit;
    b, g := GetBit(probs, src, g0, d0, IS_MATCH + posState + l0.state, IsMatch(m.state, ps), Lits(p));
    ghost var d := DecBit(d0, IsMatch(m.state, ps)).1;
    stop := false;
    if b == 0 {
      l, g := DecodeLiteral(p, probs, dic, src, g, d, checkDicSize, limit, l0, m);
      return;
    }
    b, g := GetBit(probs, src, g, d, IS_REP + l0.state, IsRep(m.state), Lits(p));
    d := DecBit(d, IsRep(m.state)).1;
    if b == 0 {
      l, g, stop := DecodeMatch(p, probs, dic, src, g, d, checkDicSize, limit, l0, posState, m);
    } else {
      RepIsNotMatch(d, m.state, ps);
      l, g, stop := DecodeRepMatch(p, probs, dic, src, g, d, checkDicSize, limit, l0, posState, m);
    }
  }

  lemma RepIsNotMatch(d: RcDec, st: nat, ps: nat)
    ensures var s := RepMatchDec(d, st, ps).v; s.ShortRep? || s.Rep?
  {
  }
}

// CLzmaDec and its calls: LzmaDec_Init, LzmaDec_WriteRem, LzmaDec_DecodeReal2,
// LzmaDec_DecodeToDic and LzmaDec_DecodeToBuf. Every call leaves the object where some number
// of symbols of the bytes accepted so far leave it.
module LzmaDec {
  import opened Words
  import opened LzmaLayout
  import opened RangeCoder
  import opened ProbArrays
  import opened LzmaSymbols
  import opened LzmaDryRun
  import opened LzmaRun
  import opened LzmaDecoder
  import opened LzmaDictionary
  import opened LzmaDecodeSymbol
  import opened LzmaResume
  import opened LzmaDriver
  import opened LzmaTryDummy

  datatype Status = NotSpecified | FinishedWithMark | NotFinished | NeedsMoreInput | MaybeFinishedWithoutMark

  datatype Res = Ok | ErrorData | ErrorFail

  // What of a stage's output has been written when rem bytes of its last match are to come.
  function OutputOf(h: Stage, rem: nat): seq<byte> {
    if h.Going? && rem <= |h.m.out| then h.m.out[..|h.m.out| - rem] else h.m.out
  }

  // The object's fields between runs, against the stage they stand for.
  ghost predicate Settled(p: Props, h: Stage, l: Locals, dic: seq<byte>, checkDicSize: nat) {
    && CheckSettled(p, checkDicSize, |OutputOf(h, l.len)|)
    && match h
       case Going(m, _) => InSync(p, l, dic, m) && l.len < END_LEN
       case Ended(m, _) => InSync(p, l.(len := 0), dic, m) && l.len == END_LEN
       case Broken(m, _) => l.len >= ERROR_LEN && DicHolds(dic, l.dicPos, m.out) && Roomy(p, |dic|, l.dicPos, |m.out|)
  }

  // The first five bytes pass both of LzmaDec_DecodeToDic's checks.
  predicate GoodStart(stream: seq<byte>) {
    |stream| >= RC_INIT_SIZE && stream[0] == 0 && Val(stream[1..5]) < BAD_REP_CODE
  }

  // The registers, the probabilities, the fields and the dictionary stand for count symbols
  // read from full.
  ghost predicate Tied(p: Props, full: seq<byte>, h: Stage, count: nat, range: nat, code: nat, view: Probs, l: Locals,
      dic: seq<byte>, check: nat) {
    && GoodStart(full)
    && p.lc <= 8 && h == Steps(p, Start(p, full), count)
    && range == h.d.range && code == h.d.code && view == h.d.probs
    && h.d.pos <= |full|
    && Settled(p, h, l, dic, check)
  }

  lemma TiedParts(p: Props, full: seq<byte>, h: Stage, count: nat, range: nat, code: nat, view: Probs, l: Locals,
      dic: seq<byte>, check: nat)
    requires Tied(p, full, h, count, range, code, view, l, dic, check)
    ensures GoodStart(full) && |full| >= RC_INIT_SIZE && p.lc <= 8 && h == Steps(p, Start(p, full), count)
      && h.d.pos <= |full| && code == h.d.code
    ensures Settled(p, h, l, dic, check)
  {
  }

  // The registers stand for the same when a dictionary that is full is written from its front again.
  lemma TiedWrap(p: Props, full: seq<byte>, h: Stage, count: nat, range: nat, code: nat, view: Probs, l: Locals,
      dic: seq<byte>, check: nat)
    requires Tied(p, full, h, count, range, code, view, l, dic, check) && l.dicPos == |dic| >= p.dicSize
    ensures Tied(p, full, h, count, range, code, view, l.(dicPos := 0), dic, check)
  {
    hide Steps, Start, LzInv, DicHolds, Copy, Val;
    if h.Going? {
      SyncLen(p, l, dic, h.m);
      DicWrap(dic, Written(l, h.m));
    } else if h.Ended? {
      SyncLen(p, l.(len := 0), dic, h.m);
      DicWrap(dic, Written(l.(len := 0), h.m));
    } else {
      DicWrap(dic, h.m.out);
    }
  }

  // LzmaDec_WriteRem on values: n bytes of the pending copy are written.
  lemma RemWritten(p: Props, h: Stage, l: Locals, dic: seq<byte>, check: nat, n: nat, dic': seq<byte>)
    requires PropsOk(p) && h.Going? && Settled(p, h, l, dic, check) && 0 < n <= l.len && l.dicPos + n <= |dic| == |dic'|
    requires DicHolds(dic', l.dicPos + n, Copy(OutputOf(h, l.len), l.rep0, n))
    ensures var l' := l.(dicPos := l.dicPos + n, processedPos := W32(l.processedPos + n), len := l.len - n);
      && Settled(p, h, l', dic', if check == 0 && p.dicSize - l.processedPos <= n then p.dicSize else check)
      && OutputOf(h, l.len) <= OutputOf(h, l'.len) && |OutputOf(h, l'.len)| == |OutputOf(h, l.len)| + n
  {
    hide DicHolds, LzInv, Copy;
    SyncLen(p, l, dic, h.m);
    var w := OutputOf(h, l.len);
    var w' := Copy(w, l.rep0, n);
    CopySplit(w, l.rep0, n, l.len - n);
    assert h.m.out == Copy(w', l.rep0, l.len - n);
    CopyExtends(w', l.rep0, l.len - n);
    CopyExtends(w, l.rep0, n);
    assert OutputOf(h, l.len - n) == w';
    RemCount(p, check, |w|, n, l.processedPos);
  }

  lemma CopyExtends(out: seq<byte>, dist: nat, n: nat)
    ensures |Copy(out, dist, n)| == |out| + n && out <= Copy(out, dist, n)
  {
  }

  lemma RemCount(p: Props, check: nat, total: nat, n: nat, processedPos: nat)
    requires PropsOk(p) && CheckSettled(p, check, total) && processedPos == W32(total) && n > 0
    ensures CheckSettled(p, if check == 0 && p.dicSize - processedPos <= n then p.dicSize else check, total + n)
    ensures W32(processedPos + n) == W32(total + n)
  {
  }

  lemma RemReach(p: Props, h: Stage, l: Locals, dic: seq<byte>, check: nat)
    requires PropsOk(p) && h.Going? && Settled(p, h, l, dic, check) && l.len > 0
    ensures var w := OutputOf(h, l.len); 1 <= l.rep0 <= |w| && l.rep0 <= |dic| && DicHolds(dic, l.dicPos, w)
    ensures check == 0 ==> p.dicSize > l.processedPos
  {
    SyncLen(p, l, dic, h.m);
  }

  lemma Retied(p: Props, full: seq<byte>, h: Stage, count: nat, range: nat, code: nat, view: Probs, l: Locals,
      dic: seq<byte>, check: nat,
               l': Locals, dic': seq<byte>, check': nat)
    requires Tied(p, full, h, count, range, code, view, l, dic, check) && Settled(p, h, l', dic', check')
    ensures Tied(p, full, h, count, range, code, view, l', dic', check')
  {
  }

  // A run of k symbols read from a piece of the stream, put back into the whole stream.
  lemma GlobalRun(p: Props, full: seq<byte>, count: nat, h0: Stage, piece: seq<byte>, k: nat)
    requires PropsOk(p) && |full| >= RC_INIT_SIZE && h0 == Steps(p, Start(p, full), count) && h0.Going?
    requires h0.d.pos + |piece| <= |full| && piece == full[h0.d.pos..h0.d.pos + |piece|]
    requires Steps(p, Going(h0.m, Moved(h0.d, piece, 0)), k).d.pos <= |piece|
    ensures var h := Steps(p, Going(h0.m, Moved(h0.d, piece, 0)), k);
      Steps(p, Start(p, full), count + k) == MovedStage(h, full, h0.d.pos + h.d.pos)
    ensures h0.m.out <= Steps(p, Start(p, full), count + k).m.out
  {
    hide Steps, Start, Step, SameBytes;
    StartReady(p, full);
    StepsReady(p, Start(p, full), count);
    StartSource(p, full);
    var local := Going(h0.m, Moved(h0.d, piece, 0));
    LocalReady(p, h0, piece);
    var h := Steps(p, local, k);
    StepsReady(p, local, k);
    PieceSame(piece, full, h0.d.pos, h.d.pos);
    MovedSteps(p, local, k, full, h0.d.pos);
    assert MovedStage(local, full, h0.d.pos) == h0;
    StepsAdd(p, Start(p, full), count, k);
    StepsReady(p, h0, k);
  }

  lemma StartSource(p: Props, full: seq<byte>)
    requires |full| >= RC_INIT_SIZE
    ensures Start(p, full).d.src == full
  {
  }

  lemma LocalReady(p: Props, h: Stage, piece: seq<byte>)
    requires Ready(p, h)
    ensures Ready(p, Going(h.m, Moved(h.d, piece, 0)))
  {
  }

  lemma PieceSame(piece: seq<byte>, full: seq<byte>, pos: nat, n: nat)
    requires n <= |piece| && pos + |piece| <= |full| && piece == full[pos..pos + |piece|]
    ensures SameBytes(piece, 0, full, pos, n)
  {
  }

  // What LZMA_DECODE_REAL leaves, with checkDicSize brought up to date.
  lemma OutcomeSettled(p: Props, m: Lz, h: Stage, l0: Locals, l: Locals, dic: seq<byte>,
      limit: nat, check: nat, g: Stage)
    requires PropsOk(p) && Outcome(p, h, l, dic, limit) && CheckOk(p, check, |m.out|, limit - l0.dicPos)
    requires Total(h, l) == |m.out| + (l.dicPos - l0.dicPos) && l0.dicPos <= l.dicPos <= limit
    requires g.m == h.m && (g.Going? <==> h.Going?) && (g.Ended? <==> h.Ended?) && m.out <= g.m.out
    ensures Settled(p, g, l, dic, if check == 0 && l.processedPos >= p.dicSize then p.dicSize else check)
    ensures m.out <= OutputOf(g, l.len) && |OutputOf(g, l.len)| == |m.out| + (l.dicPos - l0.dicPos)
  {
    hide DicHolds, LzInv, InSync;
    match h
    case Going(m', _) => SyncLen(p, l, dic, m');
    case Ended(m', _) => SyncLen(p, l.(len := 0), dic, m');
    case Broken(_, _) =>
  }

  lemma SettledStart(p: Props, h: Stage, l: Locals, dic: seq<byte>, check: nat)
    requires PropsOk(p) && h.Going? && Settled(p, h, l, dic, check) && l.len == 0
    ensures InSync(p, l, dic, h.m) && OutputOf(h, 0) == h.m.out && LzInv(p, h.m)
    ensures if check == 0 then l.processedPos == |h.m.out| < p.dicSize else check == p.dicSize <= |h.m.out|
  {
    WholeOutput(p, l, dic, h.m);
  }

  lemma RegsRead(p: Props, probs: array<nat>, src: seq<byte>, full: seq<byte>, count: nat, h: Stage, g: Regs)
    requires PropsOk(p) && |full| >= RC_INIT_SIZE && h == Steps(p, Start(p, full), count)
      && g == Regs(h.d.range, h.d.code, 0)
    requires probs.Length == DecProbs(Lits(p)) && DecView(probs[..], Lits(p)) == h.d.probs
    ensures Reads(probs, src, g, Lits(p), Moved(h.d, src, 0)) && h.d.range >= TOP_VALUE
      && Ready(p, h) && h.d.src == full
  {
    hide Steps, Start, DecView;
    StartReady(p, full);
    StartSource(p, full);
    StepsReady(p, Start(p, full), count);
  }

  lemma ReadsRegs(probs: array<nat>, src: seq<byte>, g: Regs, lits: nat, d: RcDec)
    requires Reads(probs, src, g, lits, d)
    ensures g.range == d.range && g.code == d.code && g.buf == d.pos && DecView(probs[..], lits) == d.probs
  {
  }

  // The first symbol of a stream repeats nothing, wherever its bytes lie.
  lemma FirstFits(p: Props, full: seq<byte>, count: nat, h: Stage, src: seq<byte>)
    requires PropsOk(p) && |full| >= RC_INIT_SIZE && h == Steps(p, Start(p, full), count) && h.Going?
      && Ready(p, h) && h.d.src == full
    requires Val(full[1..5]) < BAD_REP_CODE && h.d.pos + |src| <= |full| && src == full[h.d.pos..h.d.pos + |src|]
    requires Norm(SymDec(p, h.m, Moved(h.d, src, 0)).d).pos <= |src|
    ensures h.m.out == [] ==> var s := SymDec(p, h.m, Moved(h.d, src, 0)).v; s.Lit? || s.Match?
  {
    hide SymDec, Norm, SameBytes, Ready;
    if h.m.out == [] {
      NothingWritten(p, full, count);
      FirstSymbol(p, full);
      LocalReady(p, h, src);
      PieceSame(src, full, h.d.pos, Norm(SymDec(p, h.m, Moved(h.d, src, 0)).d).pos);
      ReadyParts(p, Going(h.m, Moved(h.d, src, 0)));
      MovedSym(p, h.m, Moved(h.d, src, 0), full, h.d.pos);
      assert Moved(Moved(h.d, src, 0), full, h.d.pos) == h.d;
    }
  }

  lemma ReadyParts(p: Props, h: Stage)
    requires Ready(p, h)
    ensures PropsOk(p) && LzOk(h.m) && DecReady(h.d)
  {
  }

  // The stage before the last symbol of a run, and that the last one added something.
  lemma BeforeLast(p: Props, full: seq<byte>, count: nat, h0: Stage, piece: seq<byte>, k: nat)
    requires PropsOk(p) && |full| >= RC_INIT_SIZE && h0 == Steps(p, Start(p, full), count) && h0.Going? && k >= 1
    requires h0.d.pos + |piece| <= |full| && piece == full[h0.d.pos..h0.d.pos + |piece|]
    requires Steps(p, Going(h0.m, Moved(h0.d, piece, 0)), k).d.pos <= |piece|
    requires Steps(p, Going(h0.m, Moved(h0.d, piece, 0)), k - 1).Going?
    ensures var b := Steps(p, Going(h0.m, Moved(h0.d, piece, 0)), k - 1);
      var g := Steps(p, Start(p, full), count + k - 1);
      g.Going? && g.m == b.m
    ensures var h := Steps(p, Going(h0.m, Moved(h0.d, piece, 0)), k); h.Going? ==> |h.m.out| > |h0.m.out|
  {
    hide Steps, Start, Step, Ready;
    var local := Going(h0.m, Moved(h0.d, piece, 0));
    StartReady(p, full);
    StepsReady(p, Start(p, full), count);
    LocalReady(p, h0, piece);
    OutputGrows(p, local, k - 1, k);
    GlobalRun(p, full, count, h0, piece, k - 1);
    StepsReady(p, local, k - 1);
    StepsLast(p, local, k);
    StepReady(p, Steps(p, local, k - 1));
  }

  lemma StepsLast(p: Props, g: Stage, k: nat)
    requires p.lc <= 8 && k >= 1
    ensures Steps(p, g, k) == Step(p, Steps(p, g, k - 1))
  {
  }

  lemma OutcomeResult(p: Props, h: Stage, l: Locals, dic: seq<byte>, limit: nat)
    requires Outcome(p, h, l, dic, limit)
    ensures l.len >= ERROR_LEN <==> h.Broken?
    ensures l.dicPos <= |dic|
  {
  }

  // LzmaDec_WriteRem on locals.
  method RemRun(p: Props, dic: array<byte>, limit: nat, check0: nat, l0: Locals,
                ghost full: seq<byte>, ghost h: Stage, ghost count: nat, ghost range: nat,
                  ghost code: nat, ghost view: Probs)
      returns (dicPos: nat, processedPos: nat, check: nat, remainLen: nat)
    requires PropsOk(p) && Tied(p, full, h, count, range, code, view, l0, dic[..], check0)
    requires h.Going? && l0.dicPos <= limit <= dic.Length
    modifies dic
    ensures Tied(p, full, h, count, range, code, view,
                 l0.(dicPos := dicPos, processedPos := processedPos, len := remainLen), dic[..], check)
    ensures (remainLen == 0 || dicPos == limit) && l0.dicPos <= dicPos <= limit
      && remainLen + dicPos == l0.len + l0.dicPos
    ensures OutputOf(h, l0.len) <= OutputOf(h, remainLen)
      && |OutputOf(h, remainLen)| == |OutputOf(h, l0.len)| + (dicPos - l0.dicPos)
    ensures WroteOnly(old(dic[..]), dic[..], l0.dicPos, dicPos)
  {
    hide DicHolds, Tied, Settled, OutputOf, Copy, Steps, Start, Back;
    TiedParts(p, full, h, count, range, code, view, l0, dic[..], check0);
    dicPos, processedPos, check, remainLen := l0.dicPos, l0.processedPos, check0, l0.len;
    var len := remainLen;
    if len == 0 {
      return;
    }
    RemReach(p, h, l0, dic[..], check0);
    var rem := limit - dicPos;
    if rem < len {
      len := rem;
      if len == 0 {
        return;
      }
    }
    ghost var was := dic[..];
    if check == 0 && p.dicSize - processedPos <= len {
      check := p.dicSize;
    }
    processedPos := W32(processedPos + len);
    remainLen := remainLen - len;
    dicPos := CopyRem(dic, dicPos, l0.rep0, len, OutputOf(h, l0.len));
    RemWritten(p, h, l0, was, check0, len, dic[..]);
    Retied(p, full, h, count, range, code, view, l0, was, check0,
           l0.(dicPos := dicPos, processedPos := processedPos, len := remainLen), dic[..], check);
  }

  // LzmaDec_DecodeReal2 on locals: the limit drawn in so that checkDicSize can be trusted, the
  // run, and checkDicSize brought up to date.
  method RealRun(p: Props, probs: array<nat>, dic: array<byte>, limit0: nat, src: seq<byte>, bufLimit: nat,
      check0: nat, g0: Regs, l0: Locals,
                 ghost full: seq<byte>, ghost h0: Stage, ghost count: nat)
      returns (g: Regs, l: Locals, check: nat, ghost k: nat)
    requires PropsOk(p) && probs.Length == DecProbs(Lits(p)) && g0.buf == 0
    requires Tied(p, full, h0, count, g0.range, g0.code, DecView(probs[..], Lits(p)), l0, dic[..], check0)
    requires h0.Going? && l0.len == 0 && l0.dicPos <= limit0 <= dic.Length
    requires h0.d.pos + |src| <= |full| && src == full[h0.d.pos..h0.d.pos + |src|]
    requires var r := SymDec(p, h0.m, Moved(h0.d, src, 0));
      Norm(r.d).pos <= |src| && (l0.dicPos == limit0 ==> r.v.Match?)
    requires bufLimit == 0 || bufLimit + REQUIRED_INPUT_MAX <= |src|
    modifies probs, dic
    ensures k >= 1 && (bufLimit == 0 ==> k == 1) && g.buf <= |src| && l0.dicPos <= l.dicPos <= limit0
    ensures k == 1 ==> g.buf == Norm(SymDec(p, h0.m, Moved(h0.d, src, 0)).d).pos
    ensures var h := Steps(p, Start(p, full), count + k);
      && Tied(p, full, h, count + k, g.range, g.code, DecView(probs[..], Lits(p)), l, dic[..], check)
      && h.d.pos == h0.d.pos + g.buf
      && (l.len >= ERROR_LEN <==> h.Broken?)
      && OutputOf(h0, 0) <= OutputOf(h, l.len) && |OutputOf(h, l.len)| == |OutputOf(h0, 0)| + (l.dicPos - l0.dicPos)
      && (h.Going? ==> if l0.dicPos < limit0 then l.dicPos > l0.dicPos else l.len > 0)
    ensures var h := Steps(p, Start(p, full), count + k - 1);
      h.Going? && (l0.dicPos < limit0 ==> |h.m.out| < |OutputOf(h0, 0)| + (limit0 - l0.dicPos))
    ensures WroteOnly(old(dic[..]), dic[..], l0.dicPos, l.dicPos)
  {
    hide DicHolds, Start, DecView, Settled, InSync, Reads, Outcome, SymDec, Step, Norm, LzInv, OutputOf;
    ghost var m, dl := h0.m, Moved(h0.d, src, 0);
    SettledStart(p, h0, l0, dic[..], check0);
    var limit := limit0;
    if check0 == 0 {
      var rem := p.dicSize - l0.processedPos;
      if limit - l0.dicPos > rem {
        limit := l0.dicPos + rem;
      }
    }
    RegsRead(p, probs, src, full, count, h0, g0);
    FirstFits(p, full, count, h0, src);
    g, l, k := DecodeReal(p, probs, dic, src, bufLimit, limit, check0, g0, l0, m, dl);
    check := if check0 == 0 && l.processedPos >= p.dicSize then p.dicSize else check0;
    ghost var h := Steps(p, Going(m, dl), k);
    ReadsRegs(probs, src, g, Lits(p), h.d);
    GlobalRun(p, full, count, h0, src, k);
    OutcomeSettled(p, m, h, l0, l, dic[..], limit, check0, Steps(p, Start(p, full), count + k));
    BeforeLast(p, full, count, h0, src, k);
    OutcomeResult(p, h, l, dic[..], limit);
    OneStep(p, m, dl);
  }

  lemma OneStep(p: Props, m: Lz, d: RcDec)
    requires p.lc <= 8
    ensures Steps(p, Going(m, d), 1).d == Norm(SymDec(p, m, d).d)
  {
    hide SymDec, Norm;
    assert Steps(p, Going(m, d), 0) == Going(m, d);
  }

  // ---------- the same bytes seen from the input at hand and from the whole stream ----------

  // What the next symbol takes, read from a piece of the stream or from all of it.
  lemma LocalGlobal(p: Props, h: Stage, piece: seq<byte>, full: seq<byte>)
    requires Ready(p, h) && h.d.src == full && h.d.pos + |piece| <= |full| && piece == full[h.d.pos..h.d.pos + |piece|]
    ensures var r := SymDec(p, h.m, Moved(h.d, piece, 0)); var q := SymDec(p, h.m, h.d);
      && (Norm(r.d).pos <= |piece| ==> Norm(q.d).pos == h.d.pos + Norm(r.d).pos && q.v == r.v)
      && (Norm(r.d).pos > |piece| ==> Norm(q.d).pos > h.d.pos + |piece|)
      && Norm(r.d).pos <= REQUIRED_INPUT_MAX
  {
    hide SymDec, Norm, SameBytes, Ready;
    var l := Moved(h.d, piece, 0);
    LocalReady(p, h, piece);
    ReadyParts(p, h);
    ReadyParts(p, Going(h.m, l));
    InputBoundReady(p, h.m, l);
    var r, q := SymDec(p, h.m, l), SymDec(p, h.m, h.d);
    if Norm(r.d).pos <= |piece| {
      PieceSame(piece, full, h.d.pos, Norm(r.d).pos);
      MovedSym(p, h.m, l, full, h.d.pos);
      assert Moved(l, full, h.d.pos) == h.d;
    } else if Norm(q.d).pos <= h.d.pos + |piece| {
      MovedSymPos(p, h.m, h.d);
      PieceSameBack(piece, full, h.d.pos, Norm(q.d).pos - h.d.pos);
      MovedSym(p, h.m, h.d, piece, 0);
    }
  }

  lemma InputBoundReady(p: Props, m: Lz, d: RcDec)
    requires PropsOk(p) && LzOk(m) && DecReady(d)
    ensures d.pos <= Norm(SymDec(p, m, d).d).pos <= d.pos + REQUIRED_INPUT_MAX
  {
    InputBound(p, m, d);
  }

  lemma MovedSymPos(p: Props, m: Lz, d: RcDec)
    requires PropsOk(p) && LzOk(m) && DecReady(d)
    ensures Norm(SymDec(p, m, d).d).pos >= d.pos
  {
    InputBound(p, m, d);
  }

  lemma PieceSameBack(piece: seq<byte>, full: seq<byte>, pos: nat, n: nat)
    requires n <= |piece| && pos + |piece| <= |full| && piece == full[pos..pos + |piece|]
    ensures SameBytes(full, pos, piece, 0, n)
  {
  }

  // Symbols already read do not depend on the bytes after them.
  lemma Rebase(p: Props, a: seq<byte>, b: seq<byte>, count: nat)
    requires PropsOk(p) && |a| >= RC_INIT_SIZE && |b| >= RC_INIT_SIZE
    requires var n := Steps(p, Start(p, a), count).d.pos; n <= |a| && n <= |b| && a[..n] == b[..n]
    ensures Steps(p, Start(p, b), count)
      == MovedStage(Steps(p, Start(p, a), count), b, Steps(p, Start(p, a), count).d.pos)
    ensures a[0] == b[0] && a[1..5] == b[1..5]
  {
    hide Steps, SameBytes, Ready;
    StartReady(p, a);
    StepsReady(p, Start(p, a), count);
    StartPos(p, a);
    var n := Steps(p, Start(p, a), count).d.pos;
    assert a[1..5] == a[..n][1..5] == b[..n][1..5] == b[1..5];
    assert a[0] == a[..n][0] == b[..n][0] == b[0];
    PrefixSame(a, b, n);
    MovedSteps(p, Start(p, a), count, b, 5);
    assert MovedStage(Start(p, a), b, 5) == Start(p, b);
  }

  lemma StartPos(p: Props, a: seq<byte>)
    requires |a| >= RC_INIT_SIZE
    ensures Start(p, a).d.pos == 5 && Start(p, a).d.src == a
  {
  }

  lemma PrefixSame(a: seq<byte>, b: seq<byte>, n: nat)
    requires 5 <= n <= |a| && n <= |b| && a[..n] == b[..n]
    ensures SameBytes(a, 5, b, 5, n - 5)
  {
    forall x | 5 <= x < 5 + (n - 5)
      ensures ByteAt(a, x) == ByteAt(b, x - 5 + 5)
    {
      assert a[..n][x] == b[..n][x];
    }
  }

  // A symbol that needs the first n bytes still does when the bytes after them change.
  lemma StillNeeds(p: Props, m: Lz, d: RcDec, b: seq<byte>, n: nat)
    requires PropsOk(p) && LzOk(m) && DecReady(d) && d.pos <= n <= |d.src| && n <= |b| && d.src[..n] == b[..n]
    requires Norm(SymDec(p, m, d).d).pos >= n
    ensures Norm(SymDec(p, m, d.(src := b)).d).pos >= n
  {
    hide SymDec, Norm, SameBytes;
    var e := d.(src := b);
    assert DecReady(e);
    assert Moved(e, d.src, d.pos) == d;
    InputBoundReady(p, m, e);
    var k := Norm(SymDec(p, m, e).d).pos;
    if k < n {
      PrefixSameBack(d.src, b, n, d.pos, k);
      MovedSym(p, m, e, d.src, d.pos);
    }
  }

  lemma PrefixSameBack(a: seq<byte>, b: seq<byte>, n: nat, i: nat, k: nat)
    requires n <= |a| && n <= |b| && a[..n] == b[..n] && i <= k <= n
    ensures SameBytes(b, i, a, i, k - i)
  {
    forall x | i <= x < i + (k - i)
      ensures ByteAt(b, x) == ByteAt(a, x - i + i)
    {
      assert a[..n][x] == b[..n][x];
    }
  }

  // The last of count symbols was started with room bytes still to be filled after total.
  ghost predicate StartedBelow(p: Props, full: seq<byte>, count: nat, total: nat, room: int) {
    && count > 0 && |full| >= RC_INIT_SIZE && p.lc <= 8
    && var h := Steps(p, Start(p, full), count - 1);
      h.Going? && (room > 0 ==> |h.m.out| < total + room)
  }

  // tempBuf holds the bytes accepted after the last symbol, none of which the next can spare.
  ghost predicate Held(p: Props, h: Stage, full: seq<byte>, taken: nat, temp: seq<byte>) {
    && p.lc <= 8 && h.d.pos + |temp| == taken <= |full| && full[h.d.pos..taken] == temp
    && (h.Going? && temp != [] ==> Norm(SymDec(p, h.m, h.d).d).pos >= taken)
  }

  lemma HeldParts(p: Props, h: Stage, full: seq<byte>, taken: nat, temp: seq<byte>)
    requires Held(p, h, full, taken, temp)
    ensures h.d.pos + |temp| == taken <= |full| && full[h.d.pos..taken] == temp
  {
  }

  lemma HeldNeeds(p: Props, h: Stage, full: seq<byte>, taken: nat, temp: seq<byte>)
    requires Held(p, h, full, taken, temp) && h.Going? && temp != []
    ensures p.lc <= 8 && Norm(SymDec(p, h.m, h.d).d).pos >= taken
  {
  }

  lemma HeldNothing(p: Props, h: Stage, full: seq<byte>)
    requires p.lc <= 8 && h.d.pos <= |full|
    ensures Held(p, h, full, h.d.pos, [])
  {
  }

  // Going over to another stream that starts with the same taken bytes.
  lemma Reseated(p: Props, a: seq<byte>, h: Stage, count: nat, range: nat, code: nat, view: Probs, l: Locals,
      dic: seq<byte>, check: nat,
                 taken: nat, temp: seq<byte>, b: seq<byte>)
    requires PropsOk(p) && Tied(p, a, h, count, range, code, view, l, dic, check) && Held(p, h, a, taken, temp)
    requires RC_INIT_SIZE <= taken <= |b| && a[..taken] == b[..taken]
    ensures var g := Steps(p, Start(p, b), count);
      && Tied(p, b, g, count, range, code, view, l, dic, check) && Held(p, g, b, taken, temp)
      && g == MovedStage(h, b, h.d.pos) && OutputOf(g, l.len) == OutputOf(h, l.len)
  {
    hide Steps, Start, SymDec, Norm, InSync, DicHolds, Ready;
    assert a[..taken][..h.d.pos] == b[..taken][..h.d.pos];
    assert a[..h.d.pos] == b[..h.d.pos];
    Rebase(p, a, b, count);
    StartReady(p, a);
    StartSource(p, a);
    StepsReady(p, Start(p, a), count);
    assert a[h.d.pos..taken] == a[..taken][h.d.pos..] == b[..taken][h.d.pos..] == b[h.d.pos..taken];
    if h.Going? && temp != [] {
      ReadyParts(p, h);
      StillNeeds(p, h.m, h.d, b, taken);
    }
  }

  // A stage's earlier stages, seen in another stream with the same bytes.
  lemma EarlierSame(p: Props, a: seq<byte>, b: seq<byte>, count: nat, n: nat, earlier: nat)
    requires PropsOk(p) && |a| >= RC_INIT_SIZE && Steps(p, Start(p, a), count).d.pos <= n <= |a|
      && RC_INIT_SIZE <= n <= |b| && a[..n] == b[..n]
    requires earlier <= count
    ensures Steps(p, Start(p, b), earlier).m == Steps(p, Start(p, a), earlier).m
    ensures Steps(p, Start(p, b), earlier).Going? <==> Steps(p, Start(p, a), earlier).Going?
  {
    hide Steps, Start, Ready;
    StartReady(p, a);
    OutputGrows(p, Start(p, a), earlier, count);
    var k := Steps(p, Start(p, a), earlier).d.pos;
    assert a[..n][..k] == b[..n][..k];
    assert a[..k] == b[..k];
    Rebase(p, a, b, earlier);
  }

  // The error value LzmaDec_DecodeToDic puts in remainLen.
  lemma BrokenLen(p: Props, full: seq<byte>, h: Stage, count: nat, range: nat, code: nat, view: Probs, l: Locals,
      dic: seq<byte>, check: nat)
    requires Tied(p, full, h, count, range, code, view, l, dic, check) && h.Broken?
    ensures Tied(p, full, h, count, range, code, view, l.(len := ERROR_LEN), dic, check)
    ensures OutputOf(h, ERROR_LEN) == OutputOf(h, l.len)
  {
  }

  class CLzmaDec {
    const p: Props
    const probs: array<nat>
    const dic: array<byte>
    const tempBuf: array<byte>
    var dicPos: nat
    var range: nat
    var code: nat
    var processedPos: nat
    var checkDicSize: nat
    var state: nat
    var rep0: nat
    var rep1: nat
    var rep2: nat
    var rep3: nat
    var remainLen: nat
    var tempBufSize: nat
    ghost var stage: Stage      // where the symbols read so far lead
    ghost var count: nat        // how many they are
    ghost var stream: seq<byte> // every byte accepted so far

    function Now(): Locals
      reads this
    {
      Locals(state, rep0, rep1, rep2, rep3, dicPos, processedPos, remainLen)
    }

    ghost predicate Shape()
      reads this
    {
      && PropsOk(p) && probs.Length == DecProbs(Lits(p)) && tempBuf.Length == REQUIRED_INPUT_MAX && tempBuf != dic
      && tempBufSize <= REQUIRED_INPUT_MAX && dicPos <= dic.Length
    }

    // Everything written since the start.
    ghost function Output(): seq<byte>
      reads this
    {
      OutputOf(stage, remainLen)
    }

    // The registers stand for count symbols read from full.
    ghost predicate Core(full: seq<byte>)
      reads this, probs, dic
    {
      && probs.Length == DecProbs(Lits(p))
      && Tied(p, full, stage, count, range, code, DecView(probs[..], Lits(p)), Now(), dic[..], checkDicSize)
    }

    method WriteRem(limit: nat, ghost full: seq<byte>)
      requires Shape() && Core(full) && stage.Going? && dicPos <= limit <= dic.Length
      modifies this`dicPos, this`processedPos, this`checkDicSize, this`remainLen, dic
      ensures Shape() && Core(full)
      ensures remainLen == 0 || dicPos == limit
      ensures old(dicPos) <= dicPos <= limit && remainLen <= old(remainLen)
        && remainLen + dicPos == old(remainLen) + old(dicPos)
      ensures old(Output()) <= Output() && |Output()| == |old(Output())| + (dicPos - old(dicPos))
      ensures WroteOnly(old(dic[..]), dic[..], old(dicPos), dicPos)
    {
      hide DicHolds, DecView, Tied, Start, Steps, OutputOf;
      TiedParts(p, full, stage, count, range, code, DecView(probs[..], Lits(p)), Now(), dic[..], checkDicSize);
      dicPos, processedPos, checkDicSize,
        remainLen := RemRun(p, dic, limit, checkDicSize, Now(), full, stage, count, range, code,
                            DecView(probs[..], Lits(p)));
    }

    // The locals written back at the end of LZMA_DECODE_REAL.
    method Store(g: Regs, l: Locals)
      modifies this`dicPos, this`range, this`code, this`processedPos, this`state
      modifies this`rep0, this`rep1, this`rep2, this`rep3, this`remainLen
      ensures Now() == l && range == g.range && code == g.code
    {
      range, code, remainLen, dicPos, processedPos := g.range, g.code, l.len, l.dicPos, l.processedPos;
      rep0, rep1, rep2, rep3, state := l.rep0, l.rep1, l.rep2, l.rep3, l.state;
    }

    method DecodeReal2(limit: nat, src: seq<byte>, bufLimit: nat, ghost full: seq<byte>)
        returns (processed: nat, res: Res)
      requires Shape() && Core(full) && stage.Going? && remainLen == 0 && dicPos <= limit <= dic.Length
      requires stage.d.pos + |src| <= |full| && src == full[stage.d.pos..stage.d.pos + |src|]
      requires var r := SymDec(p, stage.m, Moved(stage.d, src, 0));
        Norm(r.d).pos <= |src| && (dicPos == limit ==> r.v.Match?)
      requires bufLimit == 0 || bufLimit + REQUIRED_INPUT_MAX <= |src|
      modifies this`dicPos, this`range, this`code, this`processedPos, this`checkDicSize, this`state
      modifies this`rep0, this`rep1, this`rep2, this`rep3, this`remainLen, this`stage, this`count, probs, dic
      ensures Shape() && Core(full) && count > old(count) && (bufLimit == 0 ==> count == old(count) + 1)
      ensures processed <= |src| && stage.d.pos == old(stage.d.pos) + processed
      ensures bufLimit == 0 ==> processed == old(Norm(SymDec(p, stage.m, Moved(stage.d, src, 0)).d).pos)
      ensures res == (if stage.Broken? then ErrorData else Ok)
      ensures old(dicPos) <= dicPos <= limit
      ensures old(Output()) <= Output() && |Output()| == |old(Output())| + (dicPos - old(dicPos))
      ensures stage.Going? ==> if old(dicPos) < limit then dicPos > old(dicPos) else remainLen > 0
      ensures var h := Steps(p, Start(p, full), count - 1);
        h.Going? && (old(dicPos) < limit ==> |h.m.out| < |old(Output())| + (limit - old(dicPos)))
      ensures WroteOnly(old(dic[..]), dic[..], old(dicPos), dicPos)
    {
      hide Start, Steps, DecView, Tied, SymDec, Norm, OutputOf, Settled, DecProbs, ProbsOk, Val, Lits;
      ghost var h0, view := stage, DecView(probs[..], Lits(p));
      var g: Regs, l: Locals;
      ghost var k: nat;
      TiedParts(p, full, h0, count, range, code, view, Now(), dic[..], checkDicSize);
      g, l, checkDicSize,
        k := RealRun(p, probs, dic, limit, src, bufLimit, checkDicSize, Regs(range, code, 0), Now(), full, h0, count);
      Store(g, l);
      count := count + k;
      stage := Steps(p, Start(p, full), count);
      processed := g.buf;
      res := if remainLen >= ERROR_LEN then ErrorData else Ok;
    }

    // Between calls, and inside one with full the bytes accepted before it and all it was given.
    ghost predicate Mid(full: seq<byte>, taken: nat)
      reads this, probs, dic, tempBuf
    {
      Shape() && Core(full) && Held(p, stage, full, taken, tempBuf[..tempBufSize])
    }

    ghost method Reseat(a: seq<byte>, taken: nat, b: seq<byte>)
      requires Mid(a, taken) && RC_INIT_SIZE <= taken <= |b| && a[..taken] == b[..taken]
      modifies this`stage
      ensures Mid(b, taken) && stage == MovedStage(old(stage), b, old(stage.d.pos)) && Output() == old(Output())
    {
      hide Tied, Held, Start, Steps, DecView, OutputOf, MovedStage;
      TiedParts(p, a, stage, count, range, code, DecView(probs[..], Lits(p)), Now(), dic[..], checkDicSize);
      Reseated(p, a, stage, count, range, code, DecView(probs[..], Lits(p)), Now(), dic[..], checkDicSize, taken,
               tempBuf[..tempBufSize], b);
      stage := Steps(p, Start(p, b), count);
    }

    // The next symbol takes more than the first n bytes.
    ghost predicate NextNeeds(n: nat)
      reads this
    {
      stage.Going? && remainLen == 0 && p.lc <= 8 && Norm(SymDec(p, stage.m, stage.d).d).pos > n
    }

    // A run of symbols from a piece of the stream, and what it makes of the error cases.
    method RunPiece(dicLimit: nat, piece: seq<byte>, bufLimit: nat, ghost full: seq<byte>)
        returns (processed: nat, res: Res)
      requires Shape() && Core(full) && stage.Going? && remainLen == 0 && dicPos <= dicLimit <= dic.Length
      requires stage.d.pos + |piece| <= |full| && piece == full[stage.d.pos..stage.d.pos + |piece|]
      requires var r := SymDec(p, stage.m, Moved(stage.d, piece, 0));
        Norm(r.d).pos <= |piece| && (dicPos == dicLimit ==> r.v.Match?)
      requires bufLimit == 0 || bufLimit + REQUIRED_INPUT_MAX <= |piece|
      modifies this`dicPos, this`range, this`code, this`processedPos, this`checkDicSize, this`state
      modifies this`rep0, this`rep1, this`rep2, this`rep3, this`remainLen, this`stage, this`count, probs, dic
      ensures Shape() && Core(full)
      ensures processed <= |piece| && stage.d.pos == old(stage.d.pos) + processed
      ensures bufLimit == 0 ==> processed == old(Norm(SymDec(p, stage.m, Moved(stage.d, piece, 0)).d).pos)
      ensures res == (if stage.Broken? then ErrorData else Ok)
      ensures old(dicPos) <= dicPos <= dicLimit && WroteOnly(old(dic[..]), dic[..], old(dicPos), dicPos)
      ensures old(Output()) <= Output() && |Output()| == |old(Output())| + (dicPos - old(dicPos))
      ensures stage.Going? ==> if old(dicPos) < dicLimit then dicPos > old(dicPos) else remainLen > 0
      ensures StartedBelow(p, full, count, |old(Output())|, dicLimit - old(dicPos))
    {
      hide Start, Steps, DecView, Tied, SymDec, Norm, OutputOf, DecProbs, ProbsOk, Val, Lits;
      processed, res := DecodeReal2(dicLimit, piece, bufLimit, full);
      TiedParts(p, full, stage, count, range, code, DecView(probs[..], Lits(p)), Now(), dic[..], checkDicSize);
      if res != Ok {
        BrokenLen(p, full, stage, count, range, code, DecView(probs[..], Lits(p)), Now(), dic[..], checkDicSize);
        remainLen := ERROR_LEN;
      }
    }

    // The registers read a piece of the stream that starts where the last symbol ended.
    lemma Fronts(piece: seq<byte>, full: seq<byte>)
      requires Shape() && Core(full) && stage.Going? && remainLen == 0
      requires stage.d.pos + |piece| <= |full| && piece == full[stage.d.pos..stage.d.pos + |piece|]
      ensures Reads(probs, piece, Regs(range, code, 0), Lits(p), Moved(stage.d, piece, 0))
        && Ready(p, stage) && stage.d.src == full
      ensures InSync(p, Now(), dic[..], stage.m) && CheckOk(p, checkDicSize, |stage.m.out|, 0) && Now().len == 0
    {
      hide Start, Steps, DecView, InSync, OutputOf, Ready, Reads;
      RegsRead(p, probs, piece, full, count, stage, Regs(range, code, 0));
      SettledStart(p, stage, Now(), dic[..], checkDicSize);
    }

    // LzmaDec_TryDummy on a piece of the stream, with what it says about the whole stream.
    method Probe(piece: seq<byte>, ghost full: seq<byte>) returns (res: Dummy, processed: nat)
      requires Shape() && Core(full) && stage.Going? && remainLen == 0
      requires stage.d.pos + |piece| <= |full| && piece == full[stage.d.pos..stage.d.pos + |piece|]
      ensures res.InputEof?
        ==> Norm(SymDec(p, stage.m, stage.d).d).pos > stage.d.pos + |piece| && |piece| < REQUIRED_INPUT_MAX
      ensures !res.InputEof? ==> processed <= |piece| && processed <= REQUIRED_INPUT_MAX
      ensures !res.InputEof? ==> Norm(SymDec(p, stage.m, stage.d).d).pos == stage.d.pos + processed
      ensures !res.InputEof? ==> Norm(SymDec(p, stage.m, Moved(stage.d, piece, 0)).d).pos == processed
      ensures !res.InputEof? ==> res == KindOf(SymDec(p, stage.m, Moved(stage.d, piece, 0)).v)
    {
      hide Start, Steps, DecView, Tied, SymDec, Norm, InSync, Ready, Reads, DecProbs, DecOk, Val, Lits;
      Fronts(piece, full);
      LocalGlobal(p, stage, piece, full);
      res, processed := TryDummy(p, probs, dic, piece, Regs(range, code, 0), Moved(stage.d, piece, 0),
                                 Now(), checkDicSize, stage.m);
    }

    // Twenty bytes are always enough.
    lemma Enough(piece: seq<byte>, full: seq<byte>)
      requires Shape() && Core(full) && stage.Going? && remainLen == 0
      requires stage.d.pos + |piece| <= |full| && piece == full[stage.d.pos..stage.d.pos + |piece|]
        && |piece| >= REQUIRED_INPUT_MAX
      ensures var k := Norm(SymDec(p, stage.m, Moved(stage.d, piece, 0)).d).pos;
        k <= REQUIRED_INPUT_MAX && Norm(SymDec(p, stage.m, stage.d).d).pos == stage.d.pos + k
    {
      hide Start, Steps, DecView, Tied, SymDec, Norm, InSync, Ready, Reads, DecProbs, DecOk, Val, Lits;
      Fronts(piece, full);
      LocalGlobal(p, stage, piece, full);
    }

    // The branch of LzmaDec_DecodeToDic that decodes straight from the input. Where it breaks
    // out to SZ_ERROR_FAIL the model asserts that it cannot.
    method FromInput(dicLimit: nat, src: seq<byte>, srcPos0: nat, checkEnd: bool,
        ghost full: seq<byte>, ghost base: nat)
        returns (srcPos: nat, done: bool, res: Res, status: Status)
      requires Mid(full, base + srcPos0) && srcPos0 <= |src| && base + |src| == |full| && full[base..] == src
      requires tempBufSize == 0 && stage.Going? && remainLen == 0 && dicPos <= dicLimit <= dic.Length
        && (checkEnd <==> dicPos == dicLimit)
      modifies this`dicPos, this`range, this`code, this`processedPos, this`checkDicSize, this`state
      modifies this`rep0, this`rep1, this`rep2, this`rep3, this`remainLen, this`stage, this`count,
        this`tempBufSize, probs, dic, tempBuf
      ensures srcPos0 <= srcPos <= |src| && Mid(full, base + srcPos) && !res.ErrorFail?
      ensures old(dicPos) <= dicPos <= dicLimit && WroteOnly(old(dic[..]), dic[..], old(dicPos), dicPos)
      ensures old(Output()) <= Output() && |Output()| == |old(Output())| + (dicPos - old(dicPos))
      ensures count == old(count) || StartedBelow(p, full, count, |old(Output())|, dicLimit - old(dicPos))
      ensures !done
        ==> res.Ok? && status == NotSpecified && !stage.Broken?
            && (stage.Going? ==> if old(dicPos) < dicLimit then dicPos > old(dicPos) else remainLen > 0)
      ensures done && res.Ok?
        ==> status == NeedsMoreInput && srcPos == |src| && NextNeeds(|full|) && dicPos == old(dicPos)
      ensures done && res.ErrorData?
        ==> stage.Broken? || (checkEnd && status == NotFinished && stage.Going? && remainLen == 0 && dicPos == dicLimit)
    {
      hide Start, Steps, DecView, Tied, SymDec, Norm, OutputOf, Held, InSync, Ready, Reads, DecProbs, DecOk,
        Val, Lits, StartedBelow;
      var piece := src[srcPos0..];
      var inSize := |piece|;
      HeldParts(p, stage, full, base + srcPos0, tempBuf[..tempBufSize]);
      assert piece == full[base + srcPos0..];
      srcPos, done, res, status := srcPos0, false, Ok, NotSpecified;
      var bufLimit := 0;
      var dummyProcessed: int := -1;
      if inSize < REQUIRED_INPUT_MAX || checkEnd {
        var dummyRes, processed := Probe(piece, full);
        if dummyRes.InputEof? {
          assert inSize < REQUIRED_INPUT_MAX;
          KeepInput(piece, inSize, full, base + srcPos0);
          srcPos, done, status := |src|, true, NeedsMoreInput;
          return;
        }
        dummyProcessed := processed;
        assert dummyProcessed <= REQUIRED_INPUT_MAX;
        if checkEnd && !dummyRes.DummyMatch? {
          KeepInput(piece, processed, full, base + srcPos0);
          srcPos, done, res, status := srcPos0 + processed, true, ErrorData, NotFinished;
          return;
        }
      } else {
        Enough(piece, full);
        bufLimit := inSize - REQUIRED_INPUT_MAX;
      }
      var processed: nat;
      processed, res := RunPiece(dicLimit, piece, bufLimit, full);
      assert if dummyProcessed < 0 then processed <= inSize else dummyProcessed == processed;
      HeldNothing(p, stage, full);
      assert tempBuf[..tempBufSize] == [];
      srcPos := srcPos0 + processed;
      done := res != Ok;
    }

    // n bytes of the input are put by in tempBuf.
    method KeepInput(piece: seq<byte>, n: nat, ghost full: seq<byte>, ghost taken: nat)
      requires Mid(full, taken) && tempBufSize == 0 && stage.Going?
      requires n <= |piece| && n <= REQUIRED_INPUT_MAX && taken + |piece| == |full| && piece == full[taken..]
      requires Norm(SymDec(p, stage.m, stage.d).d).pos >= taken + n
      modifies tempBuf, this`tempBufSize
      ensures Mid(full, taken + n) && tempBufSize == n
    {
      hide Tied, SymDec, Norm, DecView, DecProbs, OutputOf;
      HeldParts(p, stage, full, taken, tempBuf[..tempBufSize]);
      var i := 0;
      while i < n
        modifies tempBuf
        invariant 0 <= i <= n && tempBuf[..i] == piece[..i]
      {
        tempBuf[i] := piece[i];
        i := i + 1;
      }
      tempBufSize := n;
      assert full[taken..taken + n] == piece[..n];
    }

    // New input behind what tempBuf holds, as much as fits.
    method FillTemp(src: seq<byte>, srcPos: nat, ghost full: seq<byte>, ghost base: nat) returns (rem: nat, ahead: nat)
      requires Mid(full, base + srcPos) && srcPos <= |src| && base + |src| == |full| && full[base..] == src
      modifies tempBuf
      ensures Mid(full, base + srcPos)
      ensures rem == tempBufSize + ahead <= REQUIRED_INPUT_MAX && srcPos + ahead <= |src|
        && (rem < REQUIRED_INPUT_MAX ==> srcPos + ahead == |src|)
      ensures tempBuf[..rem] == full[stage.d.pos..stage.d.pos + rem] && stage.d.pos + rem <= |full|
    {
      hide Tied, SymDec, Norm, DecView, DecProbs, OutputOf;
      HeldParts(p, stage, full, base + srcPos, tempBuf[..tempBufSize]);
      ghost var temp := tempBuf[..tempBufSize];
      rem, ahead := tempBufSize, 0;
      while rem < REQUIRED_INPUT_MAX && ahead < |src| - srcPos
        modifies tempBuf
        invariant rem == tempBufSize + ahead <= REQUIRED_INPUT_MAX && srcPos + ahead <= |src|
        invariant tempBuf[..tempBufSize] == temp
        invariant tempBuf[tempBufSize..rem] == src[srcPos..srcPos + ahead]
      {
        tempBuf[rem] := src[srcPos + ahead];
        rem, ahead := rem + 1, ahead + 1;
      }
      TempWhole(full, src, base, srcPos, ahead, stage.d.pos, temp);
      assert tempBuf[..rem] == temp + src[srcPos..srcPos + ahead];
    }

    // tempBuf now holds n bytes, all of them needed by the next symbol.
    method KeepTemp(n: nat, ghost piece: seq<byte>, ghost full: seq<byte>, ghost taken: nat)
      requires Mid(full, taken) && stage.Going? && tempBufSize <= n <= |piece| <= tempBuf.Length
        && stage.d.pos + |piece| <= |full|
      requires tempBuf[..|piece|] == piece == full[stage.d.pos..stage.d.pos + |piece|]
      requires Norm(SymDec(p, stage.m, stage.d).d).pos >= stage.d.pos + n
      modifies this`tempBufSize
      ensures Mid(full, stage.d.pos + n) && tempBufSize == n
    {
      hide Tied, SymDec, Norm, DecView, DecProbs, OutputOf;
      tempBufSize := n;
      assert tempBuf[..n] == piece[..n] == full[stage.d.pos..stage.d.pos + n];
    }

    // tempBuf is empty again, and the stream is taken up to where the last symbol ended.
    method DropTemp(ghost full: seq<byte>)
      requires Shape() && Core(full) && stage.d.pos <= |full|
      modifies this`tempBufSize
      ensures Mid(full, stage.d.pos) && tempBufSize == 0
    {
      hide Tied, SymDec, Norm, DecView, DecProbs, OutputOf, Held;
      tempBufSize := 0;
      HeldNothing(p, stage, full);
      assert tempBuf[..tempBufSize] == [];
    }

    // The branch of LzmaDec_DecodeToDic that decodes one symbol out of tempBuf.
    method FromTemp(dicLimit: nat, src: seq<byte>, srcPos0: nat, checkEnd: bool, ghost full: seq<byte>, ghost base: nat)
        returns (srcPos: nat, done: bool, res: Res, status: Status)
      requires Mid(full, base + srcPos0) && srcPos0 <= |src| && base + |src| == |full| && full[base..] == src
      requires tempBufSize > 0 && stage.Going? && remainLen == 0 && dicPos <= dicLimit <= dic.Length
        && (checkEnd <==> dicPos == dicLimit)
      modifies this`dicPos, this`range, this`code, this`processedPos, this`checkDicSize, this`state
      modifies this`rep0, this`rep1, this`rep2, this`rep3, this`remainLen, this`stage, this`count,
        this`tempBufSize, probs, dic, tempBuf
      ensures srcPos0 <= srcPos <= |src| && Mid(full, base + srcPos) && !res.ErrorFail?
      ensures old(dicPos) <= dicPos <= dicLimit && WroteOnly(old(dic[..]), dic[..], old(dicPos), dicPos)
      ensures old(Output()) <= Output() && |Output()| == |old(Output())| + (dicPos - old(dicPos))
      ensures count == old(count) || StartedBelow(p, full, count, |old(Output())|, dicLimit - old(dicPos))
      ensures !done
        ==> res.Ok? && status == NotSpecified && !stage.Broken?
            && (stage.Going? ==> if old(dicPos) < dicLimit then dicPos > old(dicPos) else remainLen > 0)
      ensures done && res.Ok?
        ==> status == NeedsMoreInput && srcPos == |src| && NextNeeds(|full|) && dicPos == old(dicPos)
      ensures done && res.ErrorData?
        ==> stage.Broken? || (checkEnd && status == NotFinished && stage.Going? && remainLen == 0 && dicPos == dicLimit)
    {
      hide Start, Steps, DecView, Tied, SymDec, Norm, OutputOf, Held, InSync, Ready, Reads, DecProbs, DecOk, Val, Lits,
        StartedBelow, Core, WroteOnly;
      WroteNothing(dic[..], dicPos);
      HeldNeeds(p, stage, full, base + srcPos0, tempBuf[..tempBufSize]);
      HeldParts(p, stage, full, base + srcPos0, tempBuf[..tempBufSize]);
      var rem, ahead := FillTemp(src, srcPos0, full, base);
      var piece := tempBuf[..rem];
      srcPos, done, res, status := srcPos0, false, Ok, NotSpecified;
      var dummyProcessed: int := -1;
      if rem < REQUIRED_INPUT_MAX || checkEnd {
        var dummyRes, processed := Probe(piece, full);
        if dummyRes.InputEof? {
          assert rem < REQUIRED_INPUT_MAX;
          KeepTemp(rem, piece, full, base + srcPos0);
          srcPos, done, status := srcPos0 + ahead, true, NeedsMoreInput;
          return;
        }
        dummyProcessed := processed;
        assert dummyProcessed >= tempBufSize;
        if checkEnd && !dummyRes.DummyMatch? {
          srcPos, done, res, status := srcPos0 + (processed - tempBufSize), true, ErrorData, NotFinished;
          KeepTemp(processed, piece, full, base + srcPos0);
          return;
        }
      } else {
        Enough(piece, full);
      }
      var processed: nat;
      processed, res := RunPiece(dicLimit, piece, 0, full);
      assert if dummyProcessed < 0 then tempBufSize <= processed <= REQUIRED_INPUT_MAX else dummyProcessed == processed;
      srcPos := srcPos0 + (processed - tempBufSize);
      DropTemp(full);
      done := res != Ok;
    }

    // Before the range coder's five bytes are all there.
    ghost predicate Waiting()
      reads this, tempBuf
    {
      && Shape() && remainLen == INIT_LEN && tempBufSize <= RC_INIT_SIZE && stream == tempBuf[..tempBufSize]
      && count == 0 && stage.Going? && stage.m == LZ_INIT && dicPos == 0 && processedPos == 0 && checkDicSize == 0
    }

    ghost predicate Valid()
      reads this, probs, dic, tempBuf
    {
      if remainLen == INIT_LEN then Waiting() else Mid(stream, |stream|)
    }

    // LzmaDec_Allocate's arrays and LzmaDec_Init
    constructor (p: Props, dicBufSize: nat)
      requires PropsOk(p)
      ensures Valid() && Waiting() && this.p == p && dic.Length == dicBufSize && stream == [] && Output() == []
      ensures fresh(probs) && fresh(dic) && fresh(tempBuf)
    {
      this.p := p;
      probs := new nat[DecProbs(Lits(p))](_ => 0);
      dic := new byte[dicBufSize](_ => 0);
      tempBuf := new byte[REQUIRED_INPUT_MAX](_ => 0);
      dicPos, processedPos, checkDicSize, remainLen, tempBufSize := 0, 0, 0, INIT_LEN, 0;
      range, code, state, rep0, rep1, rep2, rep3 := 0, 0, 0, 0, 0, 0, 0;
      stream, count := [], 0;
      stage := Going(LZ_INIT, RcDec(0, 0, 0, imap[], [], false));
    }

    // LzmaDec_Init on an object already used
    method Init()
      requires Shape()
      modifies this
      ensures Valid() && Waiting() && stream == [] && Output() == []
    {
      dicPos, processedPos, checkDicSize, remainLen, tempBufSize := 0, 0, 0, INIT_LEN, 0;
      stream, count := [], 0;
      stage := Going(LZ_INIT, RcDec(0, 0, 0, imap[], [], false));
    }

    // Input put by until tempBuf has the range coder's five bytes.
    method TakeStart(src: seq<byte>) returns (used: nat)
      requires Waiting()
      modifies this`tempBufSize, this`stream, tempBuf
      ensures Waiting() && used <= |src| && stream == old(stream) + src[..used]
        && (used == |src| || tempBufSize == RC_INIT_SIZE)
    {
      used := 0;
      while used < |src| && tempBufSize < RC_INIT_SIZE
        modifies this`tempBufSize, this`stream, tempBuf
        invariant used <= |src| && Waiting() && stream == old(stream) + src[..used]
      {
        ghost var before := tempBuf[..tempBufSize];
        tempBuf[tempBufSize] := src[used];
        assert tempBuf[..tempBufSize] == before;
        tempBufSize := tempBufSize + 1;
        stream := stream + [src[used]];
        used := used + 1;
      }
    }

    // The bytes of the range coder's start, and the checks on them.
    method StartUp(src: seq<byte>) returns (used: nat, go: bool, res: Res, status: Status)
      requires Waiting()
      modifies this`dicPos, this`range, this`code, this`processedPos, this`state
      modifies this`rep0, this`rep1, this`rep2, this`rep3, this`remainLen, this`tempBufSize
      modifies this`stage, this`stream, probs, tempBuf
      ensures used <= |src| && stream == old(stream) + src[..used] && !res.ErrorFail? && dicPos == 0
      ensures !go ==> Waiting() && (res.Ok? ==> status == NeedsMoreInput && used == |src| && |stream| < RC_INIT_SIZE)
      ensures !go && res.ErrorData? ==> BadStart(stream)
      ensures go
        ==> Mid(stream, |stream|) && remainLen == 0 && |stream| == RC_INIT_SIZE && stage == Start(p, stream)
            && stream[0] == 0 && Output() == []
    {
      hide Tied, Held, Start, DecView, OutputOf, DecProbs, Val;
      go, res, status := false, Ok, NotSpecified;
      used := TakeStart(src);
      if tempBufSize != 0 && tempBuf[0] != 0 {
        res := ErrorData;
        return;
      }
      if tempBufSize < RC_INIT_SIZE {
        status := NeedsMoreInput;
        return;
      }
      FourBytes(stream[1..5]);
      var b1: nat, b2: nat, b3: nat, b4: nat := tempBuf[1], tempBuf[2], tempBuf[3], tempBuf[4];
      var c := 0x100_0000 * b1 + 0x1_0000 * b2 + 0x100 * b3 + b4;
      if checkDicSize == 0 && processedPos == 0 && c >= BAD_REP_CODE {
        code := c;
        res := ErrorData;
        return;
      }
      InitRc(c);
      go := true;
    }

    // The range coder and the LZ state at the start of a stream (LzmaDec_DecodeToDic after its checks).
    method InitRc(c: nat)
      requires Waiting() && |stream| == RC_INIT_SIZE && GoodStart(stream) && c == Val(stream[1..5])
      modifies this`dicPos, this`range, this`code, this`processedPos, this`state
      modifies this`rep0, this`rep1, this`rep2, this`rep3, this`remainLen, this`tempBufSize
      modifies this`stage, probs
      ensures dicPos == 0 && Mid(stream, |stream|) && remainLen == 0 && stage == Start(p, stream) && Output() == []
    {
      hide Tied, Held, Start, DecView, DecProbs, Val, OutputOf, GoodStart;
      ResetProbs();
      var l := Locals(0, 1, 1, 1, 1, dicPos, processedPos, 0);
      StartTied(p, stream, probs[..], l, dic[..]);
      tempBufSize := 0;
      assert tempBuf[..tempBufSize] == [];
      Store(Regs(0xFFFF_FFFF, c, 0), l);
      stage := Start(p, stream);
    }

    method ResetProbs()
      modifies probs
      ensures forall j :: 0 <= j < probs.Length ==> probs[j] == PROB_INIT
    {
      for i := 0 to probs.Length
        invariant forall j :: 0 <= j < i ==> probs[j] == PROB_INIT
      {
        probs[i] := PROB_INIT;
      }
    }

    // What each answer of LzmaDec_DecodeToDic or LzmaDec_DecodeToBuf says about where decoding stands;
    // full: all the output asked for is there.
    ghost predicate Verdict(res: Res, status: Status, full: bool, finishEnd: bool)
      reads this, tempBuf
    {
      match res
      case ErrorFail => false
      case ErrorData =>
        if Waiting() then BadStart(stream)
        else stage.Broken? || (stage.Ended? && code != 0)
             || (finishEnd && status == NotFinished && stage.Going? && full)
      case Ok =>
        match status
        case NotSpecified => false
        case FinishedWithMark => !Waiting() && stage.Ended? && code == 0
        case MaybeFinishedWithoutMark => !Waiting() && stage.Going? && full && remainLen == 0 && code == 0
        case NotFinished => !Waiting() && stage.Going? && !finishEnd && full && (remainLen != 0 || code != 0)
        case NeedsMoreInput => (Waiting() && |stream| < RC_INIT_SIZE)
                               || (!Waiting() && NextNeeds(|stream|) && (!full || finishEnd))
    }

    // What the loop decides when the dictionary has been filled as far as asked.
    method AtLimit(dicLimit: nat, finishEnd: bool) returns (done: bool, checkEnd: bool, res: Res, status: Status)
      ensures !done
        ==> res.Ok? && status == NotSpecified
            && (dicPos < dicLimit || (finishEnd && checkEnd && remainLen == 0 && code != 0))
      ensures done <==> dicPos >= dicLimit && ((remainLen == 0 && code == 0) || !finishEnd || remainLen != 0)
      ensures dicPos < dicLimit ==> !checkEnd
      ensures done && remainLen == 0 && code == 0 ==> res.Ok? && status.MaybeFinishedWithoutMark?
      ensures done && (remainLen != 0 || code != 0)
        ==> if finishEnd then res.ErrorData? && status.NotFinished? else res.Ok? && status.NotFinished?
    {
      done, checkEnd, res, status := false, false, Ok, NotSpecified;
      if dicPos >= dicLimit {
        done := true;
        if remainLen == 0 && code == 0 {
          status := MaybeFinishedWithoutMark;
        } else if !finishEnd {
          status := NotFinished;
        } else if remainLen != 0 {
          res, status := ErrorData, NotFinished;
        } else {
          done, checkEnd := false, true;
        }
      }
    }

    // The same answers as the main loop gives them, with n bytes accepted if it took all its input.
    ghost predicate LoopVerdict(res: Res, status: Status, dicLimit: nat, finishEnd: bool, tookAll: bool, n: nat)
      reads this
    {
      match res
      case ErrorFail => false
      case ErrorData => stage.Broken? || (stage.Ended? && code != 0)
                        || (finishEnd && status == NotFinished && stage.Going? && dicPos == dicLimit)
      case Ok =>
        match status
        case NotSpecified => false
        case FinishedWithMark => stage.Ended? && code == 0
        case MaybeFinishedWithoutMark => stage.Going? && dicPos == dicLimit && remainLen == 0 && code == 0
        case NotFinished => stage.Going? && !finishEnd && dicPos == dicLimit && (remainLen != 0 || code != 0)
        case NeedsMoreInput => tookAll && NextNeeds(n) && (dicPos < dicLimit || finishEnd)
    }

    // One turn of the main loop of LzmaDec_DecodeToDic.
    method Round(dicLimit: nat, src: seq<byte>, srcPos0: nat, finishEnd: bool, ghost full: seq<byte>, ghost base: nat)
        returns (srcPos: nat, done: bool, res: Res, status: Status)
      requires Mid(full, base + srcPos0) && srcPos0 <= |src| && base + |src| == |full| && full[base..] == src
      requires !stage.Broken? && dicPos <= dicLimit <= dic.Length
      modifies this`dicPos, this`range, this`code, this`processedPos, this`checkDicSize, this`state
      modifies this`rep0, this`rep1, this`rep2, this`rep3, this`remainLen, this`stage, this`count,
        this`tempBufSize, probs, dic, tempBuf
      ensures srcPos0 <= srcPos <= |src| && Mid(full, base + srcPos)
      ensures old(dicPos) <= dicPos <= dicLimit && WroteOnly(old(dic[..]), dic[..], old(dicPos), dicPos)
      ensures old(Output()) <= Output() && |Output()| == |old(Output())| + (dicPos - old(dicPos))
      ensures !finishEnd && count != old(count)
        ==> dicLimit > old(dicPos) && StartedBelow(p, full, count, |old(Output())|, dicLimit - old(dicPos))
      ensures done ==> LoopVerdict(res, status, dicLimit, finishEnd, srcPos == |src|, |full|)
      ensures !done ==> !stage.Broken? && old(stage.Going?)
      ensures !done && stage.Going? ==> dicPos > old(dicPos) || (old(remainLen) == 0 && remainLen != 0)
    {
      hide Tied, Held, Start, Steps, DecView, OutputOf, DecProbs, SymDec, Norm, StartedBelow, WroteOnly,
        Core, NextNeeds, Output;
      srcPos, done, res, status := srcPos0, true, Ok, NotSpecified;
      ghost var start, out0, was := dicPos, Output(), dic[..];
      WroteNothing(was, start);
      RemainTells(full);
      if remainLen == END_LEN {
        if code != 0 {
          res := ErrorData;
          return;
        }
        status := FinishedWithMark;
        return;
      }
      WriteRem(dicLimit, full);
      var checkEnd;
      done, checkEnd, res, status := AtLimit(dicLimit, finishEnd);
      if done {
        return;
      }
      ghost var at, before, total, n := dicPos, dic[..], |Output()|, count;
      if tempBufSize == 0 {
        srcPos, done, res, status := FromInput(dicLimit, src, srcPos, checkEnd, full, base);
      } else {
        srcPos, done, res, status := FromTemp(dicLimit, src, srcPos, checkEnd, full, base);
      }
      WroteBoth(was, before, dic[..], start, at, dicPos);
      if count != n {
        StartedEarlier(p, full, count, total, dicLimit - at, |out0|, dicLimit - start);
      }
    }

    // The main loop of LzmaDec_DecodeToDic.
    method MainLoop(dicLimit: nat, src: seq<byte>, srcPos0: nat, finishEnd: bool,
        ghost full: seq<byte>, ghost base: nat)
        returns (srcPos: nat, res: Res, status: Status)
      requires Mid(full, base + srcPos0) && srcPos0 <= |src| && base + |src| == |full| && full[base..] == src
      requires !stage.Broken? && dicPos <= dicLimit <= dic.Length
      modifies this`dicPos, this`range, this`code, this`processedPos, this`checkDicSize, this`state
      modifies this`rep0, this`rep1, this`rep2, this`rep3, this`remainLen, this`stage, this`count,
        this`tempBufSize, probs, dic, tempBuf
      ensures srcPos0 <= srcPos <= |src| && Mid(full, base + srcPos)
      ensures old(dicPos) <= dicPos <= dicLimit && WroteOnly(old(dic[..]), dic[..], old(dicPos), dicPos)
      ensures old(Output()) <= Output() && |Output()| == |old(Output())| + (dicPos - old(dicPos))
      ensures !finishEnd && count != old(count)
        ==> dicLimit > old(dicPos) && StartedBelow(p, full, count, |old(Output())|, dicLimit - old(dicPos))
      ensures LoopVerdict(res, status, dicLimit, finishEnd, srcPos == |src|, |full|)
    {
      hide Mid, StartedBelow, WroteOnly, Output, LoopVerdict;
      srcPos, res, status := srcPos0, Ok, NotSpecified;
      ghost var start, out0, was := dicPos, Output(), dic[..];
      WroteNothing(was, start);
      var done := false;
      while !done
        invariant srcPos0 <= srcPos <= |src| && Mid(full, base + srcPos) && (!done ==> !stage.Broken?)
        invariant done ==> LoopVerdict(res, status, dicLimit, finishEnd, srcPos == |src|, |full|)
        invariant start <= dicPos <= dicLimit && WroteOnly(was, dic[..], start, dicPos)
        invariant out0 <= Output() && |Output()| == |out0| + (dicPos - start)
        invariant !finishEnd && count != old(count)
          ==> dicLimit > start && StartedBelow(p, full, count, |out0|, dicLimit - start)
        decreases !done, stage.Going?, dicLimit - dicPos, if remainLen == 0 then 1 else 0
      {
        ghost var at, before, total, n := dicPos, dic[..], |Output()|, count;
        srcPos, done, res, status := Round(dicLimit, src, srcPos, finishEnd, full, base);
        WroteBoth(was, before, dic[..], start, at, dicPos);
        if !finishEnd && count != n {
          StartedEarlier(p, full, count, total, dicLimit - at, |out0|, dicLimit - start);
        }
      }
    }

    // remainLen tells which stage decoding is in.
    lemma RemainTells(full: seq<byte>)
      requires Core(full)
      ensures stage.Going? ==> remainLen < END_LEN
      ensures stage.Ended? <==> remainLen == END_LEN
      ensures stage.Broken? <==> remainLen >= ERROR_LEN
      ensures remainLen != INIT_LEN && remainLen != FAIL_LEN
    {
    }

    lemma MidParts(full: seq<byte>, taken: nat)
      requires Mid(full, taken)
      ensures RC_INIT_SIZE <= stage.d.pos <= taken <= |full| && PropsOk(p)
        && stage == Steps(p, Start(p, full), count) && stage.d.src == full
      ensures GoodStart(full) && code == stage.d.code
    {
      hide Steps, Start, SymDec, Norm, Settled, GoodStart;
      TiedParts(p, full, stage, count, range, code, DecView(probs[..], Lits(p)), Now(), dic[..], checkDicSize);
      StartReady(p, full);
      StartPos(p, full);
      StepsReady(p, Start(p, full), count);
    }

    // LzmaDec_DecodeToDic once the range coder is set up; base bytes were accepted before this call.
    method GoOn(dicLimit: nat, src: seq<byte>, used: nat, finishEnd: bool, ghost base: nat, ghost full: seq<byte>)
        returns (srcLen: nat, res: Res, status: Status)
      requires Mid(stream, |stream|) && dicPos <= dicLimit <= dic.Length && !stage.Broken?
      requires used <= |src| && base + used == |stream| && full == stream[..base] + src && stream == full[..base + used]
      modifies this, probs, dic, tempBuf
      ensures Mid(stream, |stream|) && remainLen != INIT_LEN && Verdict(res, status, dicPos == dicLimit, finishEnd)
      ensures used <= srcLen <= |src| && stream == full[..base + srcLen]
      ensures res.Ok? && status.NeedsMoreInput? ==> srcLen == |src|
      ensures old(dicPos) <= dicPos <= dicLimit && WroteOnly(old(dic[..]), dic[..], old(dicPos), dicPos)
      ensures old(Output()) <= Output() && |Output()| == |old(Output())| + (dicPos - old(dicPos))
      ensures !finishEnd && count != old(count)
        ==> dicLimit > old(dicPos) && StartedBelow(p, stream, count, |old(Output())|, dicLimit - old(dicPos))
    {
      hide Tied, Held, Start, Steps, DecView, OutputOf, DecProbs, SymDec, Norm, StartedBelow, WroteOnly;
      MidParts(stream, |stream|);
      Reseat(stream, |stream|, full);
      assert full[base..] == src;
      ghost var n := count;
      srcLen, res, status := MainLoop(dicLimit, src, used, finishEnd, full, base);
      MidParts(full, base + srcLen);
      ghost var taken := base + srcLen;
      stream := full[..taken];
      if !finishEnd && count != n {
        StartedMoved(p, full, stream, count, taken, |old(Output())|, dicLimit - old(dicPos));
      }
      assert srcLen == |src| ==> stream == full;
      Reseat(full, taken, stream);
      RemainTells(stream);
    }

    method DecodeToDic(dicLimit: nat, src: seq<byte>, finishEnd: bool) returns (srcLen: nat, res: Res, status: Status)
      requires Valid() && dicPos <= dicLimit <= dic.Length
      modifies this, probs, dic, tempBuf
      ensures Valid() && Verdict(res, status, dicPos == dicLimit, finishEnd)
      ensures srcLen <= |src| && stream == old(stream) + src[..srcLen]
      ensures res.Ok? && status.NeedsMoreInput? ==> srcLen == |src|
      ensures old(dicPos) <= dicPos <= dicLimit && WroteOnly(old(dic[..]), dic[..], old(dicPos), dicPos)
      ensures old(Output()) <= Output() && |Output()| == |old(Output())| + (dicPos - old(dicPos))
      ensures !finishEnd && count != old(count)
        ==> dicLimit > old(dicPos) && StartedBelow(p, stream, count, |old(Output())|, dicLimit - old(dicPos))
    {
      hide Tied, Held, Start, Steps, DecView, OutputOf, DecProbs, SymDec, Norm, StartedBelow, WroteOnly;
      WroteNothing(dic[..], dicPos);
      srcLen, status, res := 0, NotSpecified, Ok;
      ghost var before := stream;
      if remainLen != INIT_LEN {
        RemainTells(stream);
      }
      if remainLen > END_LEN {
        if remainLen > END_LEN + 2 {
          res := if remainLen == FAIL_LEN then ErrorFail else ErrorData;
          return;
        }
        var go: bool;
        WaitingOutput();
        srcLen, go, res, status := StartUp(src);
        if !go {
          WaitingOutput();
          return;
        }
        NotBroken();
      }
      assert (before + src)[..|before| + srcLen] == stream && (before + src)[..|before|] == before;
      srcLen, res, status := GoOn(dicLimit, src, srcLen, finishEnd, |before|, before + src);
      assert (before + src)[..|before| + srcLen] == before + src[..srcLen];
    }

    lemma NotBroken()
      requires |stream| >= RC_INIT_SIZE && stage == Start(p, stream)
      ensures !stage.Broken?
    {
    }

    // The dictionary is the tail of the output whatever stage decoding is in.
    lemma DictionaryTail()
      requires Valid()
      ensures DicHolds(dic[..], dicPos, Output())
    {
      hide Steps, Start, SymDec, Norm, LzInv;
      if !Waiting() && stage.Going? {
        SyncLen(p, Now(), dic[..], stage.m);
      } else if !Waiting() && stage.Ended? {
        SyncLen(p, Now().(len := 0), dic[..], stage.m);
      }
    }

    // dicPos goes back to 0 once the dictionary is full.
    method Wrap()
      requires Valid() && dic.Length >= p.dicSize
      modifies this`dicPos
      ensures Valid() && Output() == old(Output()) && dicPos == (if old(dicPos) == dic.Length then 0 else old(dicPos))
    {
      hide Tied, Held, DecView, OutputOf, DecProbs, Val;
      if dicPos == dic.Length {
        if remainLen != INIT_LEN {
          TiedWrap(p, stream, stage, count, range, code, DecView(probs[..], Lits(p)), Now(), dic[..], checkDicSize);
        }
        dicPos := 0;
      }
    }

    // One turn of LzmaDec_DecodeToBuf: as far as the dictionary's end or the room left.
    method ToBuf(outSize: nat, src: seq<byte>, finishEnd: bool)
        returns (part: seq<byte>, srcLen: nat, res: Res, status: Status)
      requires Valid() && dic.Length >= p.dicSize
      modifies this, probs, dic, tempBuf
      ensures Valid() && |part| <= outSize && Output() == old(Output()) + part
      ensures res != Ok || part == [] || |part| == outSize ==> Verdict(res, status, |part| == outSize, finishEnd)
      ensures srcLen <= |src| && stream == old(stream) + src[..srcLen]
      ensures res.Ok? && status.NeedsMoreInput? ==> srcLen == |src|
    {
      hide Tied, Held, Start, Steps, DecView, OutputOf, DecProbs, SymDec, Norm, StartedBelow, WroteOnly, DicHolds;
      ghost var out0 := Output();
      ValidShape();
      Wrap();
      ValidShape();
      var start := dicPos;
      var limit: nat, mode := start + outSize, finishEnd;
      if outSize > dic.Length - start {
        limit, mode := dic.Length, false;
      }
      srcLen, res, status := DecodeToDic(limit, src, mode);
      DictionaryTail();
      NewBytes(dic[..], dicPos, start, Output(), out0);
      part := dic[start..dicPos];
    }

    // LzmaDec_DecodeToBuf: the bytes written are handed over as they appear in the dictionary.
    method DecodeToBuf(destLen: nat, src0: seq<byte>, finishEnd: bool)
        returns (dest: seq<byte>, srcLen: nat, res: Res, status: Status)
      requires Valid() && dic.Length >= p.dicSize
      modifies this, probs, dic, tempBuf
      ensures Valid() && Verdict(res, status, |dest| == destLen, finishEnd)
      ensures |dest| <= destLen && Output() == old(Output()) + dest
      ensures srcLen <= |src0| && stream == old(stream) + src0[..srcLen]
      ensures res.Ok? && status.NeedsMoreInput? ==> srcLen == |src0|
    {
      hide Valid, Waiting, Verdict, Output;
      var outSize: nat, src := destLen, src0;
      dest, srcLen := [], 0;
      while true
        invariant Valid() && 0 <= outSize && |dest| + outSize == destLen && srcLen <= |src0| && src == src0[srcLen..]
        invariant Output() == old(Output()) + dest && stream == old(stream) + src0[..srcLen]
        decreases outSize
      {
        var part: seq<byte>, inSizeCur: nat;
        part, inSizeCur, res, status := ToBuf(outSize, src, finishEnd);
        dest := dest + part;
        assert src0[..srcLen] + src[..inSizeCur] == src0[..srcLen + inSizeCur];
        src, srcLen, outSize := src[inSizeCur..], srcLen + inSizeCur, outSize - |part|;
        if res != Ok {
          return;
        }
        if part == [] || outSize == 0 {
          return;
        }
      }
    }

    lemma ValidShape()
      requires Valid()
      ensures PropsOk(p) && dicPos <= dic.Length
    {
    }

    lemma WaitingOutput()
      requires Waiting()
      ensures Output() == []
    {
    }
  }

  lemma StartedMoved(p: Props, full: seq<byte>, stream: seq<byte>, count: nat, taken: nat, total: nat, room: int)
    requires PropsOk(p) && StartedBelow(p, full, count, total, room) && RC_INIT_SIZE <= taken <= |full|
      && stream == full[..taken]
    requires Steps(p, Start(p, full), count).d.pos <= taken
    ensures StartedBelow(p, stream, count, total, room)
  {
    hide Steps, Start;
    EarlierSame(p, full, stream, count, taken, count - 1);
  }

  // Less room is left later on, so a symbol started below the later limit was below the first.
  lemma StartedEarlier(p: Props, full: seq<byte>, count: nat, total: nat, room: nat, total0: nat, room0: int)
    requires StartedBelow(p, full, count, total, room) && total + room == total0 + room0
    ensures room > 0 ==> StartedBelow(p, full, count, total0, room0)
  {
  }

  // The bytes written since start are the end of the output.
  lemma NewBytes(dic: seq<byte>, dicPos: nat, start: nat, out: seq<byte>, before: seq<byte>)
    requires DicHolds(dic, dicPos, out) && start <= dicPos && before <= out && |out| == |before| + (dicPos - start)
    ensures dicPos <= |dic| && out == before + dic[start..dicPos]
  {
    var n := dicPos - start;
    var tail, part := out[|before|..], dic[start..dicPos];
    forall i | 0 <= i < n
      ensures tail[i] == part[i]
    {
      assert dic[DicIx(|dic|, dicPos, n - i)] == out[|out| - (n - i)];
    }
    assert tail == part;
    assert out == out[..|before|] + tail;
  }

  // Stopping anywhere, at any output limit and with the input cut up in any way, only decides
  // how much of one and the same output has been written so far.
  lemma OutputsAgree(p: Props, a: seq<byte>, count: nat, rem: nat, b: seq<byte>, count': nat, rem': nat)
    requires PropsOk(p) && RC_INIT_SIZE <= |a| && a <= b
    requires Steps(p, Start(p, a), count).d.pos <= |a|
    ensures var x := OutputOf(Steps(p, Start(p, a), count), rem);
      var y := OutputOf(Steps(p, Start(p, b), count'), rem');
      x <= y || y <= x
  {
    hide Steps, Start;
    assert a == b[..|a|];
    var n := Steps(p, Start(p, a), count).d.pos;
    StartReady(p, a);
    StepsReady(p, Start(p, a), count);
    assert a[..n] == b[..|a|][..n] == b[..n];
    Rebase(p, a, b, count);
    StartReady(p, b);
    OutputGrows(p, Start(p, b), Min(count, count'), if count < count' then count' else count);
  }

  // A first byte that is not zero, or a code that could only start with a repeat.
  predicate BadStart(stream: seq<byte>) {
    |stream| > 0 && (stream[0] != 0 || (|stream| == RC_INIT_SIZE && Val(stream[1..5]) >= BAD_REP_CODE))
  }

  // (tempBuf[1] << 24) | ... | tempBuf[4]
  lemma FourBytes(s: seq<byte>)
    requires |s| == 4
    ensures var b1: nat := s[0]; var b2: nat := s[1]; var b3: nat := s[2]; var b4: nat := s[3];
      Val(s) == 0x100_0000 * b1 + 0x1_0000 * b2 + 0x100 * b3 + b4
  {
    var b1: nat, b2: nat := s[0], s[1];
    assert s[..3][..2] == s[..2] && s[..2][..1] == s[..1] && s[..1][..0] == [];
    assert Val(s[..1]) == s[0];
    assert Val(s[..2]) == 0x100 * b1 + b2;
  }

  lemma StartTied(p: Props, full: seq<byte>, a: seq<nat>, l: Locals, dic: seq<byte>)
    requires PropsOk(p) && |full| == RC_INIT_SIZE && GoodStart(full)
    requires |a| == DecProbs(Lits(p)) && forall i :: 0 <= i < |a| ==> a[i] == PROB_INIT
    requires l == Locals(0, 1, 1, 1, 1, 0, 0, 0)
    ensures Tied(p, full, Start(p, full), 0, 0xFFFF_FFFF, Val(full[1..5]), DecView(a, Lits(p)), l, dic, 0)
    ensures Start(p, full).d.range == 0xFFFF_FFFF && Start(p, full).d.code == Val(full[1..5])
    ensures Held(p, Start(p, full), full, |full|, []) && OutputOf(Start(p, full), 0) == []
  {
    StartView(a, Lits(p));
    assert Written(l, LZ_INIT) == [];
    assert Copy([], 1, 0) == [];
    assert full[5..5] == [];
  }

  lemma StartView(a: seq<nat>, lits: nat)
    requires |a| == DecProbs(lits) && forall i :: 0 <= i < |a| ==> a[i] == PROB_INIT
    ensures DecView(a, lits) == InitialProbs(lits)
  {
    forall c | ValidCtx(c, lits)
      ensures DecIx(c) < |a|
    {
      InRegion(c, lits);
    }
  }

  lemma TempWhole(full: seq<byte>, src: seq<byte>, base: nat, srcPos: nat, ahead: nat, pos: nat, temp: seq<byte>)
    requires base + |src| == |full| && full[base..] == src && srcPos + ahead <= |src|
    requires pos + |temp| == base + srcPos && full[pos..base + srcPos] == temp
    ensures temp + src[srcPos..srcPos + ahead] == full[pos..pos + |temp| + ahead]
  {
    assert src[srcPos..srcPos + ahead] == full[base + srcPos..base + srcPos + ahead];
  }
}

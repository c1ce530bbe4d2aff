// The checked macros of LzmaDec.c (NORMALIZE_CHECK and what is built on it): they read bits
// without adapting a probability and stop where the input runs out.
module LzmaPeek {
  import opened Words
  import opened Masks
  import opened LzmaContexts
  import opened LzmaLayout
  import opened RangeCoder
  import opened ProbArrays
  import opened LzmaSymbols
  import opened LzmaDryRun
  import opened LzmaMasks
  import opened LzmaDecoder

  // The locals of LzmaDec_TryDummy, with the frozen decoder they stand for named; no byte
  // past the end of src has been read.
  ghost predicate Peeks(probs: array<nat>, src: seq<byte>, g: Regs, lits: nat, d: RcDec)
    reads probs
  {
    && probs.Length == DecProbs(lits)
    && d == RcDec(g.range, g.code, g.buf, DecView(probs[..], lits), src, true)
    && DecOk(d) && g.buf <= |src|
  }

  // d' has read on from d.
  ghost predicate Later(d: RcDec, d': RcDec) {
    DecOk(d') && d.pos <= d'.pos
  }

  lemma BitLater(d: RcDec, c: Ctx)
    requires DecOk(d)
    ensures Later(d, DecBit(d, c).1)
  {
    ModelKeeps(d, c);
  }

  lemma TreeLater(d: RcDec, t: TreeId, m: nat, n: nat)
    requires DecOk(d)
    ensures Later(d, TreeDec(d, t, m, n).d)
  {
    hide TreeDec, TreeEvs, Run, Pending, DecOk;
    TreeSound(d, t, m, n);
    RunKeeps(d, TreeEvs(t, m, n, TreeDec(d, t, m, n).v));
  }

  lemma MatchedLater(d: RcDec, l: nat, m: nat, n: nat, mb: nat)
    requires DecOk(d) && mb < Pow2(n)
    ensures Later(d, MatchedDec(d, l, m, n, mb).d)
  {
    hide MatchedDec, MatchedEvs, Run, Pending, DecOk, Pow2;
    MatchedSound(d, l, m, n, mb);
    RunKeeps(d, MatchedEvs(l, m, n, mb, MatchedDec(d, l, m, n, mb).v));
  }

  lemma RevLater(d: RcDec, r: RevId, path: seq<bit>, n: nat)
    requires DecOk(d)
    ensures Later(d, RevDec(d, r, path, n).d)
  {
    hide RevDec, RevEvs, Run, Pending, DecOk;
    RevSound(d, r, path, n);
    RunKeeps(d, RevEvs(r, path, n, RevDec(d, r, path, n).v));
  }

  lemma DirectLater(d: RcDec, n: nat)
    requires DecOk(d)
    ensures Later(d, DirectDec(d, n).d)
  {
    hide DirectDec, DirectEvs, Run, Pending, DecOk;
    DirectSound(d, n);
    RunKeeps(d, DirectEvs(n, DirectDec(d, n).v));
  }

  lemma LenLater(d: RcDec, rep: bool, ps: nat)
    requires DecOk(d)
    ensures Later(d, LenDec(d, rep, ps).d)
  {
    hide LenDec, LenEvs, Run, Pending, DecOk;
    LenSound(d, rep, ps);
    RunKeeps(d, LenEvs(rep, ps, LenDec(d, rep, ps).v));
  }

  lemma FooterLater(d: RcDec, slot: nat)
    requires DecOk(d) && slot < 64
    ensures Later(d, FooterDec(d, slot).d)
  {
    hide FooterDec, FooterEvs, Run, Pending, DecOk, Pow2;
    FooterSound(d, slot);
    RunKeeps(d, FooterEvs(slot, FooterDec(d, slot).v));
  }

  lemma DistLater(d: RcDec, ls: nat)
    requires DecOk(d)
    ensures Later(d, DistDec(d, ls).d)
  {
    hide DistDec, DistEvs, Run, Pending, DecOk;
    DistSound(d, ls);
    RunKeeps(d, DistEvs(ls, DistDec(d, ls).v));
  }

  // ---------- bits ----------

  // IF_BIT_0_CHECK: eof when the normalisation it needs has no byte left.
  method PeekBit(probs: array<nat>, src: seq<byte>, g0: Regs, ghost d: RcDec, ix: nat, ghost c: Ctx, ghost lits: nat)
      returns (eof: bool, b: bit, g: Regs)
    requires Peeks(probs, src, g0, lits, d) && ValidCtx(c, lits) && ix == DecIx(c)
    ensures eof <==> DecBit(d, c).1.pos > |src|
    ensures !eof ==> b == DecBit(d, c).0 && Peeks(probs, src, g, lits, DecBit(d, c).1)
  {
    hide DecView, DecIx, ValidCtx;
    LearnArray(probs[..], lits, c, 0);
    var ttt := probs[ix];
    b, g, eof := 0, g0, false;
    if g.range < TOP_VALUE {
      if g.buf >= |src| {
        eof := true;
        return;
      }
    }
    g := Normalized(g, src);
    BoundOk(g.range, ttt);
    var bound := (g.range / 2048) * ttt;
    if g.code < bound {
      g := g.(range := bound);
    } else {
      g := g.(range := g.range - bound, code := g.code - bound);
      b := 1;
    }
  }

  lemma PeeksOk(probs: array<nat>, src: seq<byte>, g: Regs, lits: nat, d: RcDec)
    requires Peeks(probs, src, g, lits, d)
    ensures DecOk(d) && d.pos == g.buf <= |src| && d.frozen
  {
  }

  // TREE_DECODE_CHECK
  method PeekTree(probs: array<nat>, src: seq<byte>, g0: Regs, ghost d0: RcDec, base: nat, limit: nat, ghost n0: nat,
      ghost t: TreeId, ghost lits: nat)
      returns (eof: bool, v: nat, g: Regs)
    requires Peeks(probs, src, g0, lits, d0) && limit == Pow2(n0)
    requires forall m :: 1 <= m < Pow2(n0) ==> ValidCtx(Node(t, m), lits) && DecIx(Node(t, m)) == base + m
    ensures eof <==> TreeDec(d0, t, 1, n0).d.pos > |src|
    ensures !eof ==> v == TreeDec(d0, t, 1, n0).v && Peeks(probs, src, g, lits, TreeDec(d0, t, 1, n0).d)
  {
    hide Peeks, DecBit, ValidCtx, DecIx, Pow2, TreeDec, DecOk;
    var i: nat := 1;
    g := g0;
    ghost var d, n: nat := d0, n0;
    TreeDecStart(n0);
    while i < limit
      invariant Peeks(probs, src, g, lits, d) && n <= n0
      invariant TreeNode(i, n, n0)
      invariant TreeDec(d0, t, 1, n0).d == TreeDec(d, t, i, n).d
      invariant TreeDec(d0, t, 1, n0).v + limit == TreeDec(d, t, i, n).v + i * Pow2(n)
      decreases n
    {
      TreeNodeMore(i, n, n0, limit);
      TreeDecStep(d, t, i, n);
      PeeksOk(probs, src, g, lits, d);
      BitLater(d, Node(t, i));
      var b: bit;
      ghost var d1 := DecBit(d, Node(t, i)).1;
      TreeLater(d1, t, 2 * i + DecBit(d, Node(t, i)).0, n - 1);
      eof, b, g := PeekBit(probs, src, g, d, base + i, Node(t, i), lits);
      if eof {
        v := 0;
        return;
      }
      d := d1;
      i := 2 * i + b;
      n := n - 1;
      TreeNodeNext(i, n, n0, b);
    }
    TreeNodeMore(i, n, n0, limit);
    TreeDecEnd(d, t, i);
    PeeksOk(probs, src, g, lits, d);
    eof, v := false, i - limit;
  }

  // The matched-literal loop.
  method PeekMatched(probs: array<nat>, src: seq<byte>, g0: Regs, ghost d0: RcDec, prob: nat, matchByte0: byte,
      ghost l: nat, ghost lits: nat)
      returns (eof: bool, g: Regs)
    requires Peeks(probs, src, g0, lits, d0) && l < lits && prob == LITERAL + LIT_SIZE * l
    ensures Pow2(8) == 256
    ensures eof <==> MatchedDec(d0, l, 1, 8, matchByte0).d.pos > |src|
    ensures !eof ==> Peeks(probs, src, g, lits, MatchedDec(d0, l, 1, 8, matchByte0).d)
  {
    hide Peeks, DecBit, ValidCtx, DecIx, Pow2, LitToCome, LitNode, And, Xor, MatchAt, TopBit, LowBits,
      TreeNode, MatchedDec, DecOk;
    LitToComeBegin(d0, l, matchByte0);
    var symbol: nat, matchByte: nat, offs: nat := 1, matchByte0, 0x100;
    g := g0;
    ghost var d, n: nat, mb: nat := d0, 8, matchByte0;
    ghost var whole := MatchedDec(d0, l, 1, 8, matchByte0);
    while symbol < 0x100
      invariant Peeks(probs, src, g, lits, d) && n <= 8
      invariant TreeNode(symbol, n, 8) && MatchAt(mb, n, matchByte) && mb < Pow2(n) && (offs == 0 || offs == 0x100)
      invariant whole.d == LitToCome(d, l, symbol, n, mb, offs).d
      decreases n
    {
      TreeNodeMore(symbol, n, 8, 0x100);
      LitToComeStep(d, l, symbol, n, mb, offs);
      MatchGo(mb, n, matchByte);
      ghost var c := LitNode(l, symbol, n, mb, offs);
      ghost var read, d1 := DecBit(d, c).0, DecBit(d, c).1;
      MatchedMasks(l, symbol, n, mb, matchByte, offs, read, lits);
      matchByte := matchByte + matchByte;
      var bit := offs;
      offs := And(offs, matchByte);
      PeeksOk(probs, src, g, lits, d);
      BitLater(d, c);
      MatchStays(LowBits(n, mb), n - 1, matchByte);
      LitToComeLater(d1, l, 2 * symbol + read, n - 1, LowBits(n, mb), if read == 0 then Xor(offs, bit) else offs);
      var b: bit;
      eof, b, g := PeekBit(probs, src, g, d, prob + (offs + bit + symbol), c, lits);
      if eof {
        return;
      }
      d := d1;
      if b == 0 {
        offs := Xor(offs, bit);
      }
      symbol := 2 * symbol + b;
      mb := LowBits(n, mb);
      n := n - 1;
      TreeNodeNext(symbol, n, 8, b);
      MatchStays(mb, n, matchByte);
    }
    TreeNodeMore(symbol, n, 8, 0x100);
    LitToComeEnd(d, l, symbol, mb, offs);
    PeeksOk(probs, src, g, lits, d);
    eof := false;
  }

  lemma LitToComeLater(d: RcDec, l: nat, m: nat, n: nat, mb: nat, offs: nat)
    requires DecOk(d) && mb < Pow2(n)
    ensures Later(d, LitToCome(d, l, m, n, mb, offs).d)
  {
    hide DecOk, MatchedDec, TreeDec, Pow2;
    MatchedLater(d, l, m, n, mb);
    TreeLater(d, LitTree(l), m, n);
  }

  // ---------- lengths and distances ----------

  method PeekLen(probs: array<nat>, src: seq<byte>, g0: Regs, ghost d0: RcDec, prob: nat, posState: nat,
      ghost rep: bool, ghost ps: nat, ghost lits: nat)
      returns (eof: bool, len: nat, g: Regs)
    requires Peeks(probs, src, g0, lits, d0) && ps < 16 && posState == 16 * ps
      && prob == LenIx(rep, REP_LEN_CODER, LEN_CODER)
    ensures eof <==> LenDec(d0, rep, ps).d.pos > |src|
    ensures !eof ==> len == LenDec(d0, rep, ps).v && Peeks(probs, src, g, lits, LenDec(d0, rep, ps).d)
  {
    hide Peeks, DecBit, ValidCtx, DecIx, Pow2, TreeDec, DecOk;
    LenChoices(rep, lits);
    var b: bit;
    len := 0;
    PeeksOk(probs, src, g0, lits, d0);
    BitLater(d0, LenChoice(rep));
    eof, b, g := PeekBit(probs, src, g0, d0, prob, LenChoice(rep), lits);
    ghost var d := DecBit(d0, LenChoice(rep)).1;
    LenTreesLater(d, rep, ps);
    if eof { return; }
    if b == 0 {
      LowNodes(rep, ps, lits);
      eof, len, g := PeekTree(probs, src, g, d, prob + posState, 8, 3, LowTree(rep, ps), lits);
    } else {
      eof, b, g := PeekBit(probs, src, g, d, prob + 8, LenChoice2(rep), lits);
      d := DecBit(d, LenChoice2(rep)).1;
      if eof { return; }
      if b == 0 {
        MidNodes(rep, ps, lits);
        eof, len, g := PeekTree(probs, src, g, d, prob + posState + 8, 8, 3, MidTree(rep, ps), lits);
        len := len + 8;
      } else {
        HighNodes(rep, lits);
        eof, len, g := PeekTree(probs, src, g, d, prob + 256, 256, 8, HighTree(rep), lits);
        len := len + 16;
      }
    }
  }

  lemma LenTreesLater(d: RcDec, rep: bool, ps: nat)
    requires DecOk(d)
    ensures Later(d, TreeDec(d, LowTree(rep, ps), 1, 3).d)
    ensures var d2 := DecBit(d, LenChoice2(rep)).1;
      Later(d, d2) && Later(d2, TreeDec(d2, MidTree(rep, ps), 1, 3).d) && Later(d2, TreeDec(d2, HighTree(rep), 1, 8).d)
  {
    hide DecBit, TreeDec;
    TreeLater(d, LowTree(rep, ps), 1, 3);
    BitLater(d, LenChoice2(rep));
    var d2 := DecBit(d, LenChoice2(rep)).1;
    TreeLater(d2, MidTree(rep, ps), 1, 3);
    TreeLater(d2, HighTree(rep), 1, 8);
  }

  // REV_BIT_CHECK from node 1, for a distance's footer or its align bits.
  method PeekRev(probs: array<nat>, src: seq<byte>, g0: Regs, ghost d0: RcDec, base: nat, numBits: nat,
      ghost r: RevId, ghost lits: nat)
      returns (eof: bool, g: Regs)
    requires Peeks(probs, src, g0, lits, d0) && numBits > 0
    requires forall p: seq<bit> :: |p| < numBits
               ==> ValidCtx(RevNode(r, p), lits) && DecIx(RevNode(r, p)) == base + DecNode(p)
    ensures eof <==> RevDec(d0, r, [], numBits).d.pos > |src|
    ensures !eof ==> Peeks(probs, src, g, lits, RevDec(d0, r, [], numBits).d)
  {
    hide Peeks, DecBit, ValidCtx, DecIx, RevDec, DecNode, DecOk;
    var i: nat, m: nat, left: nat := 1, 1, numBits;
    g := g0;
    ghost var d, path: seq<bit> := d0, [];
    ghost var whole := RevDec(d0, r, [], numBits);
    RevSumBegin(0);
    while left != 0
      invariant Peeks(probs, src, g, lits, d) && left + |path| == numBits
      invariant i == DecNode(path) && m == Pow2(|path|)
      invariant whole.d == RevDec(d, r, path, left).d
    {
      RevDecStep(d, r, path, left);
      PeeksOk(probs, src, g, lits, d);
      BitLater(d, RevNode(r, path));
      ghost var read, d1 := DecBit(d, RevNode(r, path)).0, DecBit(d, RevNode(r, path)).1;
      RevLater(d1, r, path + [read], left - 1);
      var b: bit;
      eof, b, g := PeekBit(probs, src, g, d, base + i, RevNode(r, path), lits);
      if eof { return; }
      DecNodeSnoc(path, b);
      if b == 0 {
        i := i + m;
        m := m + m;
      } else {
        m := m + m;
        i := i + m;
      }
      d := d1;
      path := path + [b];
      left := left - 1;
    }
    RevSumEnd(0, path, d, r);
    PeeksOk(probs, src, g, lits, d);
    eof := false;
  }

  // code -= range & (((code - range) >> 31) - 1) undoes nothing: it subtracts only when it may.
  lemma CheckedDirect(g: Regs, src: seq<byte>, d: RcDec)
    requires d.range == g.range && d.code == g.code && d.pos == g.buf && d.src == src && DecOk(d)
    ensures var n := Normalized(g, src); var half := n.range / 2; var t := W32(W32(n.code - half) / 0x8000_0000 - 1);
      && DecDirect(d).1 == d.(range := half, code := W32(n.code - And(half, t)), pos := n.buf) && DecOk(DecDirect(d).1)
  {
    hide And, ProbsOk;
    var n := Normalized(g, src);
    NormalizedOk(g, src, d);
    hide Normalized, Norm;
    var half := n.range / 2;
    var diff := W32(n.code - half);
    AndOnes(half);
    AndZero(half);
    if diff >= 0x8000_0000 {
      assert diff / 0x8000_0000 == 1;
    } else {
      assert diff / 0x8000_0000 == 0;
    }
  }

  method PeekDirect(probs: array<nat>, src: seq<byte>, g0: Regs, ghost d0: RcDec, numBits: nat, ghost lits: nat)
      returns (eof: bool, g: Regs)
    requires Peeks(probs, src, g0, lits, d0) && numBits > 0
    ensures eof <==> DirectDec(d0, numBits).d.pos > |src|
    ensures !eof ==> Peeks(probs, src, g, lits, DirectDec(d0, numBits).d)
  {
    hide DirectDec, DecDirect, DecView, And, Normalized, ProbsOk;
    g := g0;
    var left: nat := numBits;
    ghost var d := d0;
    ghost var whole := DirectDec(d0, numBits);
    while left != 0
      invariant Peeks(probs, src, g, lits, d) && whole.d == DirectDec(d, left).d
      decreases left
    {
      DirectDecStep(d, left);
      CheckedDirect(g, src, d);
      NormalizedBuf(g, src);
      DirectLater(DecDirect(d).1, left - 1);
      if g.range < TOP_VALUE {
        if g.buf >= |src| {
          eof := true;
          return;
        }
      }
      g := Normalized(g, src);
      var half := g.range / 2;
      g := Regs(half, W32(g.code - And(half, W32(W32(g.code - half) / 0x8000_0000 - 1))), g.buf);
      d := DecDirect(d).1;
      left := left - 1;
    }
    DirectDecEnd(d, 0, 0);
    eof := false;
  }

  lemma NormalizedBuf(g: Regs, src: seq<byte>)
    ensures Normalized(g, src).buf == if g.range < TOP_VALUE then g.buf + 1 else g.buf
  {
  }

  method PeekDist(probs: array<nat>, src: seq<byte>, g0: Regs, ghost d0: RcDec, len: nat, ghost lits: nat)
      returns (eof: bool, g: Regs)
    requires Peeks(probs, src, g0, lits, d0)
    ensures eof <==> DistDec(d0, LenState(len + 2)).d.pos > |src|
    ensures !eof ==> Peeks(probs, src, g, lits, DistDec(d0, LenState(len + 2)).d)
  {
    hide Peeks, DecBit, ValidCtx, DecIx, Pow2, TreeDec, FooterDec, SlotBase, Pending, Run, TreeEvs, DecOk;
    var ls := if len < 3 then len else 3;
    SlotNodesDec(ls, lits);
    var posSlot: nat;
    ghost var s := TreeDec(d0, SlotTree(ls), 1, 6);
    TreeSound(d0, SlotTree(ls), 1, 6);
    PeeksOk(probs, src, g0, lits, d0);
    TreeLater(d0, SlotTree(ls), 1, 6);
    SlotParts(s.v, s.d);
    FooterLater(s.d, s.v);
    eof, posSlot, g := PeekTree(probs, src, g0, d0, POS_SLOT + 64 * ls, 64, 6, SlotTree(ls), lits);
    if eof { return; }
    PeeksOk(probs, src, g, lits, s.d);
    if posSlot >= 4 {
      eof, g := PeekFooter(probs, src, g, s.d, posSlot, lits);
    }
  }

  method PeekFooter(probs: array<nat>, src: seq<byte>, g0: Regs, ghost d: RcDec, posSlot: nat, ghost lits: nat)
      returns (eof: bool, g: Regs)
    requires Peeks(probs, src, g0, lits, d) && 4 <= posSlot < 64
    ensures eof <==> FooterDec(d, posSlot).d.pos > |src|
    ensures !eof ==> Peeks(probs, src, g, lits, FooterDec(d, posSlot).d)
  {
    hide Peeks, ValidCtx, DecIx, Pow2, RevDec, DirectDec, DecOk;
    var numDirectBits := posSlot / 2 - 1;
    if posSlot < 14 {
      SpecNodesDec(posSlot, lits);
      eof, g := PeekRev(probs, src, g0, d, (2 + posSlot % 2) * Pow2(numDirectBits), numDirectBits,
                        SpecTree(posSlot), lits);
    } else {
      numDirectBits := numDirectBits - 4;
      ghost var d1 := DirectDec(d, numDirectBits).d;
      PeeksOk(probs, src, g0, lits, d);
      DirectLater(d, numDirectBits);
      RevLater(d1, AlignTree, [], 4);
      eof, g := PeekDirect(probs, src, g0, d, numDirectBits, lits);
      if eof { return; }
      AlignNodesDec(lits);
      eof, g := PeekRev(probs, src, g, d1, ALIGN, 4, AlignTree, lits);
    }
  }

  lemma AlignNodesDec(lits: nat)
    ensures forall p: seq<bit> :: |p| < 4
              ==> ValidCtx(RevNode(AlignTree, p), lits) && DecIx(RevNode(AlignTree, p)) == ALIGN + DecNode(p)
  {
  }
}
